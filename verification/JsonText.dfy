/** `JSON.stringify` on strings, over UTF-16 code units, as ECMAScript's
    QuoteJSONString defines it: short escapes, `\u00xx` for the other control
    units, and `\udxxx` for a surrogate that is not part of a pair. */
module JsonText {

  type Unit = u: int | 0 <= u < 0x1_0000
  type Text = seq<Unit>

  const QUOTE: Unit := 34
  const BACKSLASH: Unit := 92

  predicate IsLead(u: Unit) { 0xD800 <= u <= 0xDBFF }

  predicate IsTrail(u: Unit) { 0xDC00 <= u <= 0xDFFF }

  function HexDigit(d: int): Unit
    requires 0 <= d < 16
  {
    if d < 10 then 48 + d else 87 + d
  }

  function UnicodeEscape(u: Unit): Text {
    [BACKSLASH, 117, HexDigit(u / 4096), HexDigit(u / 256 % 16), HexDigit(u / 16 % 16), HexDigit(u % 16)]
  }

  /** One code unit that is not half of a surrogate pair. */
  function QuoteUnit(u: Unit): Text {
    if u == 8 then [BACKSLASH, 98]
    else if u == 9 then [BACKSLASH, 116]
    else if u == 10 then [BACKSLASH, 110]
    else if u == 12 then [BACKSLASH, 102]
    else if u == 13 then [BACKSLASH, 114]
    else if u == QUOTE || u == BACKSLASH then [BACKSLASH, u]
    else if u < 32 || IsLead(u) || IsTrail(u) then UnicodeEscape(u)
    else [u]
  }

  predicate StartsWithPair(s: Text) {
    |s| >= 2 && IsLead(s[0]) && IsTrail(s[1])
  }

  function QuoteBody(s: Text): Text {
    if s == [] then []
    else if StartsWithPair(s) then [s[0], s[1]] + QuoteBody(s[2..])
    else QuoteUnit(s[0]) + QuoteBody(s[1..])
  }

  function Quote(s: Text): Text {
    [QUOTE] + QuoteBody(s) + [QUOTE]
  }

  // ---- Reading a quoted string back -------------------------------------------------

  datatype Scanned = NoString | Scanned(value: Text, rest: Text)

  function HexValue(u: Unit): int
  {
    if 48 <= u <= 57 then u - 48 else if 97 <= u <= 102 then u - 87 else -1
  }

  function ShortEscape(u: Unit): int {
    if u == 98 then 8 else if u == 116 then 9 else if u == 110 then 10
    else if u == 102 then 12 else if u == 114 then 13
    else if u == '"' as int || u == '\\' as int then u
    else -1
  }

  function Prepend(u: Unit, s: Scanned): Scanned {
    if s.NoString? then NoString else Scanned([u] + s.value, s.rest)
  }

  function ScanEscape(t: Text): (s: Scanned)
    requires |t| > 0
    ensures s.Scanned? ==> |s.rest| < |t|
    decreases |t|, 0
  {
    if |t| < 2 then NoString
    else if ShortEscape(t[1]) >= 0 then Prepend(ShortEscape(t[1]), Scan(t[2..]))
    else if t[1] != 117 || |t| < 6 then NoString
    else
      var a, b, c, d := HexValue(t[2]), HexValue(t[3]), HexValue(t[4]), HexValue(t[5]);
      if a < 0 || b < 0 || c < 0 || d < 0 then NoString
      else Prepend(((a * 16 + b) * 16 + c) * 16 + d, Scan(t[6..]))
  }

  /** The reader: everything up to the first unescaped quote, and what follows it. */
  function Scan(t: Text): (s: Scanned)
    ensures s.Scanned? ==> |s.rest| < |t|
    decreases |t|, 1
  {
    if t == [] then NoString
    else if t[0] == '"' as int then Scanned([], t[1..])
    else if t[0] != '\\' as int then Prepend(t[0], Scan(t[1..]))
    else ScanEscape(t)
  }

  lemma HexDigitsRebuild(u: Unit)
    ensures ((u / 4096 * 16 + u / 256 % 16) * 16 + u / 16 % 16) * 16 + u % 16 == u
    ensures u / 4096 < 16
  {
    assert u / 256 == u / 4096 * 16 + u / 256 % 16;
    assert u / 16 == u / 256 * 16 + u / 16 % 16;
  }

  lemma ScanPlain(u: Unit, t: Text)
    requires u != QUOTE && u != BACKSLASH
    ensures Scan([u] + t) == Prepend(u, Scan(t))
  {
    assert ([u] + t)[1..] == t;
  }

  lemma ScanShort(u: Unit, e: Unit, t: Text)
    requires ShortEscape(e) == u
    ensures Scan([BACKSLASH, e] + t) == Prepend(u, Scan(t))
  {
    var q := [BACKSLASH, e] + t;
    assert q[0] == BACKSLASH && q[1] == e;
    assert q[2..] == t;
  }

  lemma {:induction false} ScanUnicode(u: Unit, t: Text)
    ensures Scan(UnicodeEscape(u) + t) == Prepend(u, Scan(t))
  {
    HexDigitsRebuild(u);
    var e := UnicodeEscape(u);
    var q := e + t;
    assert q[0] == BACKSLASH && q[1] == 117;
    assert q[2] == e[2] && q[3] == e[3] && q[4] == e[4] && q[5] == e[5];
    assert q[6..] == t;
  }

  lemma {:induction false} ScanUnit(u: Unit, t: Text)
    ensures Scan(QuoteUnit(u) + t) == Prepend(u, Scan(t))
  {
    if u == 8 || u == 9 || u == 10 || u == 12 || u == 13 || u == QUOTE || u == BACKSLASH {
      ScanShort(u, QuoteUnit(u)[1], t);
    } else if u < 32 || IsLead(u) || IsTrail(u) {
      ScanUnicode(u, t);
    } else {
      ScanPlain(u, t);
    }
  }

  lemma ScanEnd(rest: Text)
    ensures Scan([QUOTE] + rest) == Scanned([], rest)
  {
    assert ([QUOTE] + rest)[1..] == rest;
  }

  lemma ScanPair(u: Unit, v: Unit, t: Text)
    requires IsLead(u) && IsTrail(v)
    ensures Scan([u, v] + t) == Prepend(u, Prepend(v, Scan(t)))
  {
    assert [u, v] + t == [u] + ([v] + t);
    ScanPlain(u, [v] + t);
    ScanPlain(v, t);
  }

  lemma Assoc(a: Text, b: Text, c: Text)
    ensures a + b + c == a + (b + c)
  {
  }

  lemma {:induction false} ScanBody(s: Text, rest: Text)
    ensures Scan(QuoteBody(s) + ([QUOTE] + rest)) == Scanned(s, rest)
  {
    var close := [QUOTE] + rest;
    if s == [] {
      ScanEnd(rest);
      assert [] + close == close;
    } else if StartsWithPair(s) {
      ScanBody(s[2..], rest);
      Assoc([s[0], s[1]], QuoteBody(s[2..]), close);
      ScanPair(s[0], s[1], QuoteBody(s[2..]) + close);
      PrependPair(s, rest);
    } else {
      ScanBody(s[1..], rest);
      Assoc(QuoteUnit(s[0]), QuoteBody(s[1..]), close);
      ScanUnit(s[0], QuoteBody(s[1..]) + close);
      assert [s[0]] + s[1..] == s;
    }
  }

  lemma PrependPair(s: Text, rest: Text)
    requires |s| >= 2
    ensures Prepend(s[0], Prepend(s[1], Scanned(s[2..], rest))) == Scanned(s, rest)
  {
    assert [s[0]] + ([s[1]] + s[2..]) == s;
  }

  /** Quoting round-trips: the reader recovers any string of code units, whatever
      follows the closing quote. */
  lemma QuoteRoundTrip(s: Text, rest: Text)
    ensures |Quote(s)| >= 2 && Quote(s)[0] == QUOTE
    ensures Scan((Quote(s) + rest)[1..]) == Scanned(s, rest)
  {
    ScanBody(s, rest);
    assert (Quote(s) + rest)[1..] == QuoteBody(s) + ([QUOTE] + rest);
  }

  /** Hence quoted strings are self-delimiting and quoting is injective. */
  lemma QuoteIsPrefixCode(s: Text, t: Text, x: Text, y: Text)
    requires Quote(s) + x == Quote(t) + y
    ensures s == t && x == y
  {
    QuoteRoundTrip(s, x);
    QuoteRoundTrip(t, y);
  }

  // ---- The one shortest literal --------------------------------------------------------

  /** The halves of a surrogate pair, by their upper six bits. */
  predicate HighHalf(u: Unit) { u / 0x400 == 0x36 }

  predicate LowHalf(u: Unit) { u / 0x400 == 0x37 }

  /** No half of a surrogate pair on its own, and no control unit: what a text may hold. */
  predicate MayStand(t: Text) {
    if t == [] then true
    else if |t| >= 2 && HighHalf(t[0]) && LowHalf(t[1]) then MayStand(t[2..])
    else t[0] >= 32 && !HighHalf(t[0]) && !LowHalf(t[0]) && MayStand(t[1..])
  }

  lemma {:induction false} HalvesAre(u: Unit)
    ensures HighHalf(u) <==> IsLead(u)
    ensures LowHalf(u) <==> IsTrail(u)
  {
  }

  predicate Reads(t: Text, s: Text) {
    Scan(t + ['"' as int]) == Scanned(s, [])
  }

  lemma {:induction false} UnitMayStand(u: Unit, t: Text)
    requires MayStand(t)
    ensures (!IsLead(u) && !IsTrail(u)) || QuoteUnit(u) != [u]
    ensures MayStand(QuoteUnit(u) + t)
  {
    var q := QuoteUnit(u);
    if |q| == 1 {
      assert (q + t)[1..] == t;
    } else if |q| == 2 {
      assert (q + t)[1..][1..] == t;
    } else {
      AsciiMayStand(q, t);
    }
  }

  lemma {:induction false} AsciiMayStand(q: Text, t: Text)
    requires MayStand(t) && forall i :: 0 <= i < |q| ==> 32 <= q[i] < 127
    ensures MayStand(q + t)
  {
    if q == [] {
      assert q + t == t;
    } else {
      AsciiMayStand(q[1..], t);
      assert (q + t)[1..] == q[1..] + t;
    }
  }

  lemma {:induction false} QuoteMayStand(s: Text)
    ensures MayStand(QuoteBody(s))
  {
    if s != [] {
      if StartsWithPair(s) {
        QuoteMayStand(s[2..]);
        assert ([s[0], s[1]] + QuoteBody(s[2..]))[2..] == QuoteBody(s[2..]);
      } else {
        QuoteMayStand(s[1..]);
        UnitMayStand(s[0], QuoteBody(s[1..]));
      }
    }
  }

  /** Reading a literal takes its first item off. */
  lemma {:induction false} ReadsPlain(t: Text, s: Text)
    requires t != [] && t[0] != '"' as int && t[0] != '\\' as int && Reads(t, s)
    ensures s != [] && s[0] == t[0] && Reads(t[1..], s[1..])
  {
    assert (t + ['"' as int])[1..] == t[1..] + ['"' as int];
  }

  lemma {:induction false} ReadsEscape(t: Text, s: Text)
    requires t != [] && t[0] == '\\' as int && Reads(t, s)
    ensures s != []
    ensures || (|t| >= 2 && ShortEscape(t[1]) == s[0] && Reads(t[2..], s[1..]))
            || (|t| >= 6 && t[..6] == UnicodeEscape(s[0]) && Reads(t[6..], s[1..]))
  {
    var q := t + ['"' as int];
    assert Scan(q) == ScanEscape(q);
    assert |t| == 1 ==> q[1] == '"' as int && q[2..] == [];
    assert Scan([]) == NoString;
    if |t| >= 2 {
      if ShortEscape(t[1]) >= 0 {
        assert q[2..] == t[2..] + ['"' as int];
      } else {
        ReadsUnicode(t, s);
      }
    }
  }

  lemma {:induction false} Nibbles(a: int, b: int, c: int, d: int)
    requires 0 <= a < 16 && 0 <= b < 16 && 0 <= c < 16 && 0 <= d < 16
    ensures var u := ((a * 16 + b) * 16 + c) * 16 + d;
            0 <= u < 0x1_0000 && u / 4096 == a && u / 256 % 16 == b && u / 16 % 16 == c && u % 16 == d
  {
    var u := ((a * 16 + b) * 16 + c) * 16 + d;
    assert u / 16 == (a * 16 + b) * 16 + c;
    assert u / 256 == a * 16 + b;
  }

  lemma {:induction false} DigitOfValue(u: Unit)
    requires HexValue(u) >= 0
    ensures HexValue(u) < 16 && HexDigit(HexValue(u)) == u
  {
  }

  lemma {:induction false} HexDigitsAre(a: Unit, b: Unit, c: Unit, d: Unit)
    requires HexValue(a) >= 0 && HexValue(b) >= 0 && HexValue(c) >= 0 && HexValue(d) >= 0
    ensures var u := ((HexValue(a) * 16 + HexValue(b)) * 16 + HexValue(c)) * 16 + HexValue(d);
            0 <= u < 0x1_0000 && UnicodeEscape(u) == [BACKSLASH, 117, a, b, c, d]
  {
    DigitOfValue(a);
    DigitOfValue(b);
    DigitOfValue(c);
    DigitOfValue(d);
    Nibbles(HexValue(a), HexValue(b), HexValue(c), HexValue(d));
  }

  lemma {:induction false} ReadsUnicode(t: Text, s: Text)
    requires |t| >= 2 && t[0] == '\\' as int && ShortEscape(t[1]) < 0 && Reads(t, s)
    ensures s != [] && |t| >= 6 && t[..6] == UnicodeEscape(s[0]) && Reads(t[6..], s[1..])
  {
    var q := t + ['"' as int];
    assert Scan(q) == ScanEscape(q) && q[1] == t[1];
    assert |q| >= 6 && (|t| == 5 ==> HexValue(q[5]) < 0);
    assert q[6..] == t[6..] + ['"' as int];
    HexDigitsAre(t[2], t[3], t[4], t[5]);
  }

  /** Of all the literals that are read as `s`, with every character that may stand for
      itself and no other, JSON.stringify writes the one that is shorter than the rest. */
  lemma {:induction false} QuoteIsShortest(s: Text, t: Text)
    requires MayStand(t) && Reads(t, s)
    ensures t == QuoteBody(s) || |QuoteBody(s)| < |t|
    decreases |t|, 1
  {
    var q := t + ['"' as int];
    assert t != [] ==> q[0] == t[0] && q[1..] != [];
    if t == [] {
      assert q == ['"' as int];
    } else if t[0] == '\\' as int {
      ShortestEscaped(s, t);
    } else {
      ShortestPlain(s, t);
    }
  }

  lemma {:induction false} ShortestPlain(s: Text, t: Text)
    requires t != [] && t[0] != '"' as int && t[0] != '\\' as int && MayStand(t) && Reads(t, s)
    ensures t == QuoteBody(s) || |QuoteBody(s)| < |t|
    decreases |t|, 0
  {
    ReadsPlain(t, s);
    if StartsWithPair(t) {
      ReadsPlain(t[1..], s[1..]);
      assert s[1..][1..] == s[2..] && t[1..][1..] == t[2..];
      QuoteIsShortest(s[2..], t[2..]);
      assert t == [t[0], t[1]] + t[2..];
    } else {
      QuoteIsShortest(s[1..], t[1..]);
      assert t == [t[0]] + t[1..];
    }
  }

  lemma {:induction false} ShortestEscaped(s: Text, t: Text)
    requires t != [] && t[0] == '\\' as int && MayStand(t) && Reads(t, s)
    ensures t == QuoteBody(s) || |QuoteBody(s)| < |t|
    decreases |t|, 0
  {
    ReadsEscape(t, s);
    if |t| >= 2 && ShortEscape(t[1]) == s[0] && Reads(t[2..], s[1..]) {
      AfterAscii(t, 2);
      QuoteIsShortest(s[1..], t[2..]);
      ShortBeatsLong(s, t[1], t[2..]);
      assert t == [t[0], t[1]] + t[2..];
    } else {
      AfterUnicode(t, s[0]);
      QuoteIsShortest(s[1..], t[6..]);
      LoneOrPaired(s);
      UnicodeBeaten(s, t[6..]);
      assert t == t[..6] + t[6..];
    }
  }

  lemma {:induction false} ShortBeatsLong(s: Text, e: Unit, rest: Text)
    requires s != [] && ShortEscape(e) == s[0] && (rest == QuoteBody(s[1..]) || |QuoteBody(s[1..])| < |rest|)
    ensures var t := [BACKSLASH, e] + rest; t == QuoteBody(s) || |QuoteBody(s)| < |t|
  {
  }

  lemma {:induction false} UnicodeBeaten(s: Text, rest: Text)
    requires s != [] && (rest == QuoteBody(s[1..]) || |QuoteBody(s[1..])| < |rest|)
    requires |QuoteBody(s)| < 6 + |QuoteBody(s[1..])| || QuoteBody(s) == UnicodeEscape(s[0]) + QuoteBody(s[1..])
    ensures var t := UnicodeEscape(s[0]) + rest; t == QuoteBody(s) || |QuoteBody(s)| < |t|
  {
  }

  lemma {:induction false} AfterUnicode(t: Text, u: Unit)
    requires |t| >= 6 && t[..6] == UnicodeEscape(u) && MayStand(t)
    ensures MayStand(t[6..])
  {
    assert forall i :: 0 <= i < 6 ==> 32 <= t[..6][i] < 127;
    assert forall i :: 0 <= i < 6 ==> t[..6][i] == t[i];
    AfterAscii(t, 6);
  }

  lemma {:induction false} AfterAscii(t: Text, n: nat)
    requires n <= |t| && MayStand(t) && forall i :: 0 <= i < n ==> t[i] < 127
    ensures MayStand(t[n..])
  {
    if n > 0 {
      AfterAscii(t[1..], n - 1);
      assert t[1..][n - 1..] == t[n..];
    }
  }

  /** What the first unit of a string adds, against an escape of six. */
  lemma {:induction false} LoneOrPaired(s: Text)
    requires s != []
    ensures |QuoteBody(s)| < 6 + |QuoteBody(s[1..])| || QuoteBody(s) == UnicodeEscape(s[0]) + QuoteBody(s[1..])
  {
    if StartsWithPair(s) { assert !StartsWithPair(s[1..]) && s[1..][1..] == s[2..]; }
  }
}
