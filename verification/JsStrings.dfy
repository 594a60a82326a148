/** String built-ins the code relies on: trimming, and lower-casing of the ASCII letters. */
module JsStrings {
  import opened JsonText

  predicate IsSpace(u: Unit) {
    || 9 <= u <= 13 || u == 32 || u == 0xA0 || u == 0x1680 || 0x2000 <= u <= 0x200A
    || u == 0x2028 || u == 0x2029 || u == 0x202F || u == 0x205F || u == 0x3000 || u == 0xFEFF
  }

  function TrimStart(s: Text): Text {
    if s != [] && IsSpace(s[0]) then TrimStart(s[1..]) else s
  }

  /** Lower-casing, on the ASCII letters. */
  function LowerUnit(u: Unit): Unit {
    if 65 <= u <= 90 then u + 32 else u
  }

  function Lower(s: Text): (r: Text)
    ensures |r| == |s|
  {
    seq(|s|, i requires 0 <= i < |s| => LowerUnit(s[i]))
  }

  function TrimEnd(s: Text): Text {
    if s != [] && IsSpace(s[|s| - 1]) then TrimEnd(s[..|s| - 1]) else s
  }

  function Trim(s: Text): Text {
    TrimEnd(TrimStart(s))
  }

  predicate NoOuterSpace(s: Text) {
    s != [] ==> !IsSpace(s[0]) && !IsSpace(s[|s| - 1])
  }

  lemma {:induction false} TrimStartResult(s: Text)
    ensures TrimStart(s) != [] ==> !IsSpace(TrimStart(s)[0])
    ensures |TrimStart(s)| <= |s| && TrimStart(s) == s[|s| - |TrimStart(s)|..]
  {
    if s != [] && IsSpace(s[0]) { TrimStartResult(s[1..]); }
  }

  lemma {:induction false} TrimEndResult(s: Text)
    ensures TrimEnd(s) != [] ==> !IsSpace(TrimEnd(s)[|TrimEnd(s)| - 1])
    ensures |TrimEnd(s)| <= |s| && TrimEnd(s) == s[..|TrimEnd(s)|]
  {
    if s != [] && IsSpace(s[|s| - 1]) { TrimEndResult(s[..|s| - 1]); }
  }

  lemma TrimResult(s: Text)
    ensures NoOuterSpace(Trim(s))
    ensures forall i :: 0 <= i < |Trim(s)| ==> Trim(s)[i] in s
  {
    TrimStartResult(s);
    TrimEndResult(TrimStart(s));
  }

  /** `replaceAll` of one unit by another. */
  function ReplaceAll(s: Text, a: Unit, b: Unit): (r: Text)
    ensures |r| == |s|
  {
    seq(|s|, i requires 0 <= i < |s| => if s[i] == a then b else s[i])
  }

  /** A text written as characters. */
  function Ascii(s: string): (t: Text)
    requires forall i :: 0 <= i < |s| ==> s[i] as int < 128
    ensures |t| == |s|
  {
    seq(|s|, i requires 0 <= i < |s| => s[i] as int)
  }
}
