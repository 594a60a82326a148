/** A reader of JSON texts, written from the grammar (sections 2 to 7 of RFC 8259), and what
    it reads in a canonical text: the value, with its keys in order. */
module JsonReader {
  import opened JsonText
  import opened StableSort
  import opened CanonicalJson
  import opened UniqueReadability
  import opened CanonicalMeaning

  // ---- The reader -----------------------------------------------------------------------

  datatype Read<V> = NoValue | Got(value: V, rest: Text)

  predicate Begins(t: Text, word: string) {
    |word| <= |t| && forall i :: 0 <= i < |word| ==> t[i] == word[i] as int
  }

  predicate NumberChar(u: Unit) {
    '0' as int <= u <= '9' as int || u == '+' as int || u == '-' as int || u == '.' as int || u == 'e' as int
  }

  function NumberSpan(t: Text): (n: nat)
    ensures n <= |t|
  {
    if t == [] || !NumberChar(t[0]) then 0 else 1 + NumberSpan(t[1..])
  }

  /** One value, without white space around its tokens, and what follows it. */
  function ReadValue(t: Text): (r: Read<Json>)
    ensures r.Got? ==> |r.rest| < |t|
    decreases |t|, 0
  {
    if Begins(t, "null") then Got(Null, t[4..])
    else if Begins(t, "true") then Got(Bool(true), t[4..])
    else if Begins(t, "false") then Got(Bool(false), t[5..])
    else if Begins(t, "\"") then
      var s := Scan(t[1..]);
      if s.NoString? then NoValue else Got(Str(s.value), s.rest)
    else if Begins(t, "[]") then Got(Arr([]), t[2..])
    else if Begins(t, "{}") then Got(Obj([]), t[2..])
    else if Begins(t, "[") then
      var es := ReadElements(t[1..]);
      if es.NoValue? then NoValue else Got(Arr(es.value), es.rest)
    else if Begins(t, "{") then
      var fs := ReadMembers(t[1..]);
      if fs.NoValue? then NoValue else Got(Obj(fs.value), fs.rest)
    else
      var n := NumberSpan(t);
      if n == 0 then NoValue else Got(Num(t[..n]), t[n..])
  }

  /** Elements up to and past the closing bracket. */
  function ReadElements(t: Text): (r: Read<seq<Json>>)
    ensures r.Got? ==> |r.rest| < |t|
    decreases |t|, 1
  {
    var e := ReadValue(t);
    if e.NoValue? then NoValue
    else if Begins(e.rest, "]") then Got([e.value], e.rest[1..])
    else if !Begins(e.rest, ",") then NoValue
    else
      var es := ReadElements(e.rest[1..]);
      if es.NoValue? then NoValue else Got([e.value] + es.value, es.rest)
  }

  /** A quoted key, a colon and a value. */
  function ReadMember(t: Text): (r: Read<Entry<Json>>)
    ensures r.Got? ==> |r.rest| < |t|
    decreases |t|, 1
  {
    if !Begins(t, "\"") then NoValue
    else
      var k := Scan(t[1..]);
      if k.NoString? || !Begins(k.rest, ":") then NoValue
      else
        var v := ReadValue(k.rest[1..]);
        if v.NoValue? then NoValue else Got(Entry(k.value, v.value), v.rest)
  }

  function ReadMembers(t: Text): (r: Read<seq<Entry<Json>>>)
    ensures r.Got? ==> |r.rest| < |t|
    decreases |t|, 2
  {
    var f := ReadMember(t);
    if f.NoValue? then NoValue
    else if Begins(f.rest, "}") then Got([f.value], f.rest[1..])
    else if !Begins(f.rest, ",") then NoValue
    else
      var fs := ReadMembers(f.rest[1..]);
      if fs.NoValue? then NoValue else Got([f.value] + fs.value, fs.rest)
  }

  predicate AllDigits(t: Text) {
    forall i :: 0 <= i < |t| ==> '0' as int <= t[i] <= '9' as int
  }

  predicate IsFraction(t: Text) {
    t == [] || (|t| >= 2 && t[0] == '.' as int && AllDigits(t[1..]))
  }

  predicate IsExponent(t: Text) {
    || t == []
    || (|t| >= 2 && t[0] == 'e' as int && AllDigits(t[1..]))
    || (|t| >= 3 && t[0] == 'e' as int && (t[1] == '+' as int || t[1] == '-' as int) && AllDigits(t[2..]))
  }

  /** The numbers JSON.stringify writes: a sign, digits, a fraction and an exponent. */
  ghost predicate IsJsonNumber(t: Text) {
    exists sign, digits, fraction, exponent ::
      && t == sign + (digits + (fraction + exponent)) && (sign == [] || sign == ['-' as int])
      && digits != [] && AllDigits(digits) && IsFraction(fraction) && IsExponent(exponent)
  }

  /** They are all among the number texts of the trees. */
  lemma {:induction false} JsonNumbersAreLiterals(t: Text)
    requires IsJsonNumber(t)
    ensures IsNumberLiteral(t)
  {
    var sign, digits, fraction, exponent :|
      && t == sign + (digits + (fraction + exponent)) && (sign == [] || sign == ['-' as int])
      && digits != [] && AllDigits(digits) && IsFraction(fraction) && IsExponent(exponent);
    DigitsAreNumberUnits(digits);
    FractionUnits(fraction);
    ExponentUnits(exponent);
    forall i | 0 <= i < |t| ensures IsNumberUnit(t[i]) {
      assert t[i] in sign || t[i] in digits || t[i] in fraction || t[i] in exponent;
    }
    assert t[0] == if sign == [] then digits[0] else sign[0];
  }

  lemma {:induction false} DigitsAreNumberUnits(t: Text)
    requires AllDigits(t)
    ensures forall u :: u in t ==> IsNumberUnit(u)
  {
  }

  lemma {:induction false} FractionUnits(t: Text)
    requires IsFraction(t)
    ensures forall u :: u in t ==> IsNumberUnit(u)
  {
    if t != [] {
      DigitsAreNumberUnits(t[1..]);
      assert t == [t[0]] + t[1..];
    }
  }

  lemma {:induction false} ExponentUnits(t: Text)
    requires IsExponent(t)
    ensures forall u :: u in t ==> IsNumberUnit(u)
  {
    if t != [] {
      if AllDigits(t[1..]) {
        DigitsAreNumberUnits(t[1..]);
        assert t == [t[0]] + t[1..];
      } else {
        DigitsAreNumberUnits(t[2..]);
        assert t == [t[0], t[1]] + t[2..];
      }
    }
  }

  // ---- A printed tree reads back ----------------------------------------------------------

  /** What may follow a value: nothing, or a unit no number contains. */
  predicate EndsValue(x: Text) {
    x == [] || !NumberChar(x[0])
  }

  lemma {:induction false} SpanOfNumber(t: Text, x: Text)
    requires EndsValue(x) && forall i :: 0 <= i < |t| ==> NumberChar(t[i])
    ensures NumberSpan(t + x) == |t|
  {
    if t == [] {
      assert t + x == x;
    } else {
      SpanOfNumber(t[1..], x);
      assert (t + x)[1..] == t[1..] + x;
    }
  }

  lemma {:induction false} NumberReadsBack(t: Text, x: Text)
    requires IsNumberLiteral(t) && EndsValue(x)
    ensures ReadValue(t + x) == Got(Num(t), x)
  {
    assert forall i :: 0 <= i < |t| ==> NumberChar(t[i]) by {
      assert forall i :: 0 <= i < |t| ==> IsNumberUnit(t[i]);
    }
    SpanOfNumber(t, x);
    assert (t + x)[0] == t[0];
    assert !Begins(t + x, "null") && !Begins(t + x, "true") && !Begins(t + x, "false") && !Begins(t + x, "\"");
    assert !Begins(t + x, "[]") && !Begins(t + x, "{}") && !Begins(t + x, "[") && !Begins(t + x, "{");
    assert (t + x)[..|t|] == t && (t + x)[|t|..] == x;
  }

  lemma {:induction false} StringReadsBack(s: Text, x: Text)
    ensures ReadValue(Quote(s) + x) == Got(Str(s), x)
  {
    var t := Quote(s) + x;
    QuoteRoundTrip(s, x);
    assert t[0] == '"' as int;
    assert !Begins(t, "null") && !Begins(t, "true") && !Begins(t, "false");
  }

  lemma {:induction false} WordReadsBack(j: Json, x: Text)
    requires j.Null? || j.Bool?
    ensures ReadValue(Print(j) + x) == Got(j, x)
  {
    var t, p := Print(j) + x, Print(j);
    assert forall i :: 0 <= i < |p| ==> t[i] == p[i];
    assert t[|p|..] == x;
    assert p[0] == if j.Null? then 'n' as int else if j.b then 't' as int else 'f' as int;
    assert t[0] != 'n' as int ==> t[0] != "null"[0] as int;
    assert t[0] != 't' as int ==> t[0] != "true"[0] as int;
  }

  lemma {:induction false} PrintStart(j: Json)
    requires WellFormed(j)
    ensures StartsValue(Print(j))
  {
  }

  lemma {:induction false} PrintReadsBack(j: Json, x: Text)
    requires WellFormed(j) && EndsValue(x)
    ensures ReadValue(Print(j) + x) == Got(j, x)
    decreases j, 2
  {
    match j {
      case Num(t) => NumberReadsBack(t, x);
      case Str(s) => StringReadsBack(s, x);
      case Arr(es) => ArrayReadsBack(es, x);
      case Obj(fs) => ObjectReadsBack(fs, x);
      case _ => WordReadsBack(j, x);
    }
  }

  lemma {:induction false} AfterBracket(open: Unit, body: Text, close: Unit, x: Text)
    ensures var t := Brackets(open, body, close) + x;
            |t| >= 2 && t[0] == open && t[1..] == body + ([close] + x)
  {
  }

  lemma {:induction false} OpensArray(t: Text)
    requires |t| >= 2 && t[0] == '[' as int
    ensures Begins(t, "[") && !Begins(t, "null") && !Begins(t, "true") && !Begins(t, "false") && !Begins(t, "\"")
    ensures !Begins(t, "{}") && (Begins(t, "[]") <==> t[1] == ']' as int)
  {
  }

  lemma {:induction false} OpensObject(t: Text)
    requires |t| >= 2 && t[0] == '{' as int
    ensures Begins(t, "{") && !Begins(t, "null") && !Begins(t, "true") && !Begins(t, "false") && !Begins(t, "\"")
    ensures !Begins(t, "[]") && !Begins(t, "[") && (Begins(t, "{}") <==> t[1] == '}' as int)
  {
  }

  lemma {:induction false} ArrayReadsBack(es: seq<Json>, x: Text)
    requires forall i :: 0 <= i < |es| ==> WellFormed(es[i])
    ensures ReadValue(Print(Arr(es)) + x) == Got(Arr(es), x)
    decreases es, 1
  {
    var t, ts := Print(Arr(es)) + x, PrintAll(es);
    AfterBracket(OPEN_ARRAY, Join(ts), CLOSE_ARRAY, x);
    OpensArray(t);
    if es == [] {
      assert t[1..][1..] == x;
    } else {
      PrintStart(es[0]);
      JoinSplits(ts, CLOSE_ARRAY, x);
      assert t[1] == t[1..][0];
      ElementsReadBack(es, x);
    }
  }

  lemma {:induction false} TailAfter(ts: seq<Text>, close: Unit, x: Text)
    requires ts != []
    ensures var tail := ListTail(ts, close, x);
            && tail != [] && tail[0] == (if |ts| == 1 then close else COMMA)
            && tail[1..] == if |ts| == 1 then x else Join(ts[1..]) + ([close] + x)
  {
  }

  lemma {:induction false} LastElement(t: Text, e: Json, rest: Text)
    requires ReadValue(t) == Got(e, rest) && rest != [] && rest[0] == ']' as int
    ensures ReadElements(t) == Got([e], rest[1..])
  {
  }

  lemma {:induction false} OneMoreElement(t: Text, e: Json, rest: Text, es: seq<Json>, x: Text)
    requires ReadValue(t) == Got(e, rest) && rest != [] && rest[0] == ',' as int
    requires ReadElements(rest[1..]) == Got(es, x)
    ensures ReadElements(t) == Got([e] + es, x)
  {
  }

  lemma {:induction false} ElementsReadBack(es: seq<Json>, x: Text)
    requires es != [] && forall i :: 0 <= i < |es| ==> WellFormed(es[i])
    ensures ReadElements(Join(PrintAll(es)) + ([CLOSE_ARRAY] + x)) == Got(es, x)
    decreases es, 0
  {
    var ts := PrintAll(es);
    var t, tail := Join(ts) + ([CLOSE_ARRAY] + x), ListTail(ts, CLOSE_ARRAY, x);
    JoinSplits(ts, CLOSE_ARRAY, x);
    TailAfter(ts, CLOSE_ARRAY, x);
    PrintReadsBack(es[0], tail);
    assert es == [es[0]] + es[1..];
    if |es| == 1 {
      assert es == [es[0]];
      LastElement(t, es[0], tail);
    } else {
      assert ts[1..] == PrintAll(es[1..]);
      ElementsReadBack(es[1..], x);
      OneMoreElement(t, es[0], tail, es[1..], x);
    }
  }

  lemma {:induction false} ObjectReadsBack(fs: seq<Entry<Json>>, x: Text)
    requires forall i :: 0 <= i < |fs| ==> WellFormed(fs[i].value)
    ensures ReadValue(Print(Obj(fs)) + x) == Got(Obj(fs), x)
    decreases fs, 2
  {
    var t, ts := Print(Obj(fs)) + x, Pairs(PrintFields(fs));
    AfterBracket(OPEN_OBJECT, Join(ts), CLOSE_OBJECT, x);
    OpensObject(t);
    if fs == [] {
      assert t[1..][1..] == x;
    } else {
      JoinSplits(ts, CLOSE_OBJECT, x);
      assert t[1] == t[1..][0] == ts[0][0];
      MembersReadBack(fs, x);
    }
  }

  lemma {:induction false} MemberReadsBack(f: Entry<Json>, x: Text)
    requires WellFormed(f.value) && EndsValue(x)
    ensures ReadMember(Pair(Entry(f.key, Print(f.value))) + x) == Got(f, x)
    decreases f, 3
  {
    var p := Print(f.value);
    Assoc(Quote(f.key), [COLON] + p, x);
    Assoc([COLON], p, x);
    QuoteRoundTrip(f.key, [COLON] + (p + x));
    assert ([COLON] + (p + x))[1..] == p + x;
    PrintReadsBack(f.value, x);
  }

  lemma {:induction false} LastMember(t: Text, f: Entry<Json>, rest: Text)
    requires ReadMember(t) == Got(f, rest) && rest != [] && rest[0] == '}' as int
    ensures ReadMembers(t) == Got([f], rest[1..])
  {
  }

  lemma {:induction false} OneMoreMember(t: Text, f: Entry<Json>, rest: Text, fs: seq<Entry<Json>>, x: Text)
    requires ReadMember(t) == Got(f, rest) && rest != [] && rest[0] == ',' as int
    requires ReadMembers(rest[1..]) == Got(fs, x)
    ensures ReadMembers(t) == Got([f] + fs, x)
  {
  }

  /** The members of an object up to and past its closing brace. */
  function MembersText(fs: seq<Entry<Json>>, x: Text): Text {
    Join(Pairs(PrintFields(fs))) + ([CLOSE_OBJECT] + x)
  }

  lemma {:induction false} MembersSplit(fs: seq<Entry<Json>>, x: Text) returns (tail: Text)
    requires fs != []
    ensures MembersText(fs, x) == Pair(Entry(fs[0].key, Print(fs[0].value))) + tail && tail != []
    ensures |fs| == 1 ==> tail[0] == '}' as int && tail[1..] == x
    ensures |fs| > 1 ==> tail[0] == ',' as int && tail[1..] == MembersText(fs[1..], x)
  {
    var ts := Pairs(PrintFields(fs));
    tail := ListTail(ts, CLOSE_OBJECT, x);
    JoinSplits(ts, CLOSE_OBJECT, x);
    TailAfter(ts, CLOSE_OBJECT, x);
    RestOfPairs(fs);
  }

  lemma {:induction false} MembersReadBack(fs: seq<Entry<Json>>, x: Text)
    requires fs != [] && forall i :: 0 <= i < |fs| ==> WellFormed(fs[i].value)
    ensures ReadMembers(MembersText(fs, x)) == Got(fs, x)
    decreases fs, 1
  {
    var t := MembersText(fs, x);
    var tail := MembersSplit(fs, x);
    MemberReadsBack(fs[0], tail);
    if |fs| == 1 {
      assert fs == [fs[0]];
      LastMember(t, fs[0], tail);
    } else {
      assert fs == [fs[0]] + fs[1..];
      MembersReadBack(fs[1..], x);
      OneMoreMember(t, fs[0], tail, fs[1..], x);
    }
  }

  lemma {:induction false} RestOfPairs(fs: seq<Entry<Json>>)
    requires fs != []
    ensures Pairs(PrintFields(fs))[1..] == Pairs(PrintFields(fs[1..]))
  {
    assert PrintFields(fs)[1..] == PrintFields(fs[1..]);
  }

  // ---- What a canonical text says -----------------------------------------------------------

  /** Every object's keys are in order, at every depth. */
  ghost predicate InKeyOrder(le: (Text, Text) -> bool, j: Json) {
    match j
    case Arr(es) => forall i :: 0 <= i < |es| ==> InKeyOrder(le, es[i])
    case Obj(fs) =>
      && (forall i, k :: 0 <= i < k < |fs| ==> le(fs[i].key, fs[k].key))
      && forall i :: 0 <= i < |fs| ==> InKeyOrder(le, fs[i].value)
    case _ => true
  }

  lemma {:induction false} NormIsInKeyOrder(le: (Text, Text) -> bool, j: Json)
    requires TotalPreorder(le)
    ensures InKeyOrder(le, Norm(le, j))
  {
    match j {
      case Arr(es) => forall i | 0 <= i < |es| ensures InKeyOrder(le, Norm(le, es[i])) { NormIsInKeyOrder(le, es[i]); }
      case Obj(fs) =>
        var sorted := Sort(ByKey(le), NormFields(le, fs));
        ByKeyIsPreorder<Json>(le);
        SortIsSorted(ByKey(le), NormFields(le, fs));
        forall i, k | 0 <= i < k < |sorted| ensures le(sorted[i].key, sorted[k].key) {
          assert ByKey(le)(sorted[i], sorted[k]);
        }
        forall i | 0 <= i < |sorted| ensures InKeyOrder(le, sorted[i].value) {
          var n := NormFieldOrigin(le, fs, sorted[i]);
          NormIsInKeyOrder(le, fs[n].value);
        }
      case _ =>
    }
  }

  lemma {:induction false} NormIsSameValue(le: (Text, Text) -> bool, j: Json)
    requires WellFormed(j)
    ensures SameValue(Norm(le, j), j)
  {
    match j {
      case Arr(es) => forall i | 0 <= i < |es| ensures SameValue(Norm(le, es[i]), es[i]) { NormIsSameValue(le, es[i]); }
      case Obj(fs) => NormFieldsAreSame(le, fs);
      case _ =>
    }
  }

  lemma {:induction false} NormFieldsAreSame(le: (Text, Text) -> bool, fs: seq<Entry<Json>>)
    requires DistinctKeys(fs) && forall i :: 0 <= i < |fs| ==> WellFormed(fs[i].value)
    ensures SameValue(Norm(le, Obj(fs)), Obj(fs))
  {
    var sorted := Sort(ByKey(le), NormFields(le, fs));
    forall i | 0 <= i < |sorted| ensures HasKey(fs, sorted[i].key) {
      var n := NormFieldOrigin(le, fs, sorted[i]);
    }
    forall k | 0 <= k < |fs| ensures HasKey(sorted, fs[k].key) {
      NormFieldMember(le, fs, k);
      var i :| 0 <= i < |sorted| && sorted[i] == Entry(fs[k].key, Norm(le, fs[k].value));
    }
    forall i, k | 0 <= i < |sorted| && 0 <= k < |fs| && sorted[i].key == fs[k].key
      ensures SameValue(sorted[i].value, fs[k].value)
    {
      var n := NormFieldOrigin(le, fs, sorted[i]);
      assert n == k;
      NormIsSameValue(le, fs[k].value);
    }
  }

  /** A canonical text says the value it was made of and nothing else: read by the grammar,
      whatever follows, it yields that value up to key order, the keys in order. */
  lemma {:induction false} CanonicalTextReads(le: (Text, Text) -> bool, j: Json, x: Text)
    requires WellFormed(j) && EndsValue(x)
    ensures var r := ReadValue(Canonicalize(le, j) + x);
            && r.Got? && r.rest == x && SameValue(r.value, j)
            && (TotalPreorder(le) ==> InKeyOrder(le, r.value))
  {
    CanonicalizeIsPrintOfNorm(le, j);
    NormIsWellFormed(le, j);
    PrintReadsBack(Norm(le, j), x);
    NormIsSameValue(le, j);
    if TotalPreorder(le) { NormIsInKeyOrder(le, j); }
  }
}
