/** Unique readability of printed JSON: no printed value is a proper prefix of
    another in any position where a value can stand, so the text determines the tree. */
module UniqueReadability {
  import opened JsonText
  import opened CanonicalJson

  /** What may follow a printed value: the end of the text or a unit no number contains. */
  predicate Delimited(x: Text) {
    x == [] || !IsNumberUnit(x[0])
  }

  ghost predicate SelfDelimiting(p: Text, q: Text) {
    forall x, y :: Delimited(x) && Delimited(y) && p + x == q + y ==> p == q && x == y
  }

  predicate StartsValue(t: Text) {
    t != [] && t[0] != CLOSE_ARRAY && t[0] != CLOSE_OBJECT && t[0] != COMMA && t[0] != COLON
  }

  // ---- Lists ------------------------------------------------------------------------

  /** What follows the first item of a list, up to and past the closing bracket. */
  function ListTail(ts: seq<Text>, close: Unit, x: Text): Text
    requires ts != []
  {
    if |ts| == 1 then [close] + x else [COMMA] + (Join(ts[1..]) + ([close] + x))
  }

  lemma JoinSplits(ts: seq<Text>, close: Unit, x: Text)
    requires ts != []
    ensures Join(ts) + ([close] + x) == ts[0] + ListTail(ts, close, x)
  {
    if |ts| > 1 {
      Assoc(ts[0], [COMMA] + Join(ts[1..]), [close] + x);
      Assoc([COMMA], Join(ts[1..]), [close] + x);
    }
  }

  lemma ListStart(ts: seq<Text>, close: Unit, x: Text)
    requires forall i :: 0 <= i < |ts| ==> StartsValue(ts[i])
    ensures ts == [] ==> (Join(ts) + ([close] + x))[0] == close
    ensures ts != [] ==> StartsValue(ts[0]) && (Join(ts) + ([close] + x))[0] == ts[0][0]
  {
    if ts != [] {
      JoinSplits(ts, close, x);
    }
  }

  lemma ListTailsAgree(ts: seq<Text>, us: seq<Text>, close: Unit, x: Text, y: Text)
    requires ts != [] && us != [] && close != COMMA
    requires ListTail(ts, close, x) == ListTail(us, close, y)
    ensures |ts| == 1 <==> |us| == 1
    ensures |ts| == 1 ==> x == y
    ensures |ts| > 1 ==> Join(ts[1..]) + ([close] + x) == Join(us[1..]) + ([close] + y)
  {
    var a, b := ListTail(ts, close, x), ListTail(us, close, y);
    assert a[0] == b[0];
    assert a[1..] == b[1..];
    assert a[1..] == if |ts| == 1 then x else Join(ts[1..]) + ([close] + x);
    assert b[1..] == if |us| == 1 then y else Join(us[1..]) + ([close] + y);
  }

  lemma {:induction false} JoinIsPrefixCode(ts: seq<Text>, us: seq<Text>, close: Unit, x: Text, y: Text)
    requires close == CLOSE_ARRAY || close == CLOSE_OBJECT
    requires forall i :: 0 <= i < |ts| ==> StartsValue(ts[i])
    requires forall i :: 0 <= i < |us| ==> StartsValue(us[i])
    requires forall i, k :: 0 <= i < |ts| && 0 <= k < |us| ==> SelfDelimiting(ts[i], us[k])
    requires Join(ts) + ([close] + x) == Join(us) + ([close] + y)
    ensures ts == us && x == y
  {
    ListStart(ts, close, x);
    ListStart(us, close, y);
    assert ts == [] <==> us == [];
    if ts == [] {
      assert ([] + ([close] + x))[1..] == x && ([] + ([close] + y))[1..] == y;
    } else {
      JoinSplits(ts, close, x);
      JoinSplits(us, close, y);
      var a, b := ListTail(ts, close, x), ListTail(us, close, y);
      assert Delimited(a) && Delimited(b);
      assert SelfDelimiting(ts[0], us[0]);
      ListTailsAgree(ts, us, close, x, y);
      if |ts| > 1 {
        JoinIsPrefixCode(ts[1..], us[1..], close, x, y);
      }
      assert ts == [ts[0]] + ts[1..] && us == [us[0]] + us[1..];
    }
  }

  lemma {:induction false} BracketsAreSelfDelimiting(ts: seq<Text>, us: seq<Text>, open: Unit, close: Unit)
    requires close == CLOSE_ARRAY || close == CLOSE_OBJECT
    requires forall i :: 0 <= i < |ts| ==> StartsValue(ts[i])
    requires forall i :: 0 <= i < |us| ==> StartsValue(us[i])
    requires forall i, k :: 0 <= i < |ts| && 0 <= k < |us| ==> SelfDelimiting(ts[i], us[k])
    ensures SelfDelimiting(Brackets(open, Join(ts), close), Brackets(open, Join(us), close))
    ensures Brackets(open, Join(ts), close) == Brackets(open, Join(us), close) ==> ts == us
  {
    var p, q := Brackets(open, Join(ts), close), Brackets(open, Join(us), close);
    forall x, y | p + x == q + y ensures ts == us && x == y {
      UnwrapBrackets(open, Join(ts), close, x);
      UnwrapBrackets(open, Join(us), close, y);
      JoinIsPrefixCode(ts, us, close, x, y);
    }
    if p == q { assert p + [] == q + []; }
  }

  lemma UnwrapBrackets(open: Unit, body: Text, close: Unit, x: Text)
    ensures (Brackets(open, body, close) + x)[1..] == body + ([close] + x)
  {
  }

  // ---- Scalars ----------------------------------------------------------------------

  lemma NumbersAreSelfDelimiting(s: Text, t: Text)
    requires IsNumberLiteral(s) && IsNumberLiteral(t)
    ensures SelfDelimiting(s, t)
  {
    forall x, y | Delimited(x) && Delimited(y) && s + x == t + y ensures s == t && x == y {
      LongerNumberDiffers(s, t, x, y);
      LongerNumberDiffers(t, s, y, x);
      assert s == (s + x)[..|s|] && t == (t + y)[..|t|];
      assert x == (s + x)[|s|..] && y == (t + y)[|t|..];
    }
  }

  lemma LongerNumberDiffers(s: Text, t: Text, x: Text, y: Text)
    requires IsNumberLiteral(t) && Delimited(x)
    ensures |s| < |t| ==> s + x != t + y
  {
    if |s| < |t| {
      assert (t + y)[|s|] == t[|s|];
      assert x != [] ==> (s + x)[|s|] == x[0];
    }
  }

  lemma StringsAreSelfDelimiting(s: Text, t: Text)
    ensures SelfDelimiting(Quote(s), Quote(t))
    ensures Quote(s) == Quote(t) ==> s == t
  {
    forall x, y | Quote(s) + x == Quote(t) + y ensures s == t && x == y {
      QuoteIsPrefixCode(s, t, x, y);
    }
    if Quote(s) == Quote(t) { assert Quote(s) + [] == Quote(t) + []; }
  }

  lemma DifferentStartsAreSelfDelimiting(p: Text, q: Text)
    requires p != [] && q != [] && p[0] != q[0]
    ensures SelfDelimiting(p, q)
  {
    forall x, y ensures p + x != q + y {
      assert (p + x)[0] == p[0] && (q + y)[0] == q[0];
    }
  }

  lemma SameTextIsSelfDelimiting(p: Text)
    ensures SelfDelimiting(p, p)
  {
    forall x, y | p + x == p + y ensures x == y {
      assert x == (p + x)[|p|..] && y == (p + y)[|p|..];
    }
  }

  lemma PairsAreSelfDelimiting(e: Entry<Text>, f: Entry<Text>)
    requires SelfDelimiting(e.value, f.value)
    ensures SelfDelimiting(Pair(e), Pair(f))
    ensures Pair(e) == Pair(f) ==> e == f
  {
    forall x, y | Delimited(x) && Delimited(y) && Pair(e) + x == Pair(f) + y ensures e == f && x == y {
      Assoc(Quote(e.key), [COLON] + e.value, x);
      Assoc(Quote(f.key), [COLON] + f.value, y);
      QuoteIsPrefixCode(e.key, f.key, [COLON] + e.value + x, [COLON] + f.value + y);
      Assoc([COLON], e.value, x);
      Assoc([COLON], f.value, y);
      assert ([COLON] + (e.value + x))[1..] == e.value + x;
      assert ([COLON] + (f.value + y))[1..] == f.value + y;
    }
    if Pair(e) == Pair(f) { assert Pair(e) + [] == Pair(f) + []; }
  }

  // ---- Trees ------------------------------------------------------------------------

  predicate SameKind(a: Json, b: Json) {
    match a
    case Null => b.Null?
    case Bool(x) => b.Bool? && b.b == x
    case Num(_) => b.Num?
    case Str(_) => b.Str?
    case Arr(_) => b.Arr?
    case Obj(_) => b.Obj?
  }

  /** Printed trees are self-delimiting, and equal texts come from equal trees. */
  lemma {:induction false} PrintIsUniquelyReadable(a: Json, b: Json)
    requires WellFormed(a) && WellFormed(b)
    ensures SelfDelimiting(Print(a), Print(b))
    ensures Print(a) == Print(b) ==> a == b
    decreases a
  {
    if !SameKind(a, b) {
      DifferentStartsAreSelfDelimiting(Print(a), Print(b));
    } else if a.Null? || a.Bool? {
      SameTextIsSelfDelimiting(Print(a));
    } else if a.Num? {
      NumbersAreSelfDelimiting(a.literal, b.literal);
    } else if a.Str? {
      StringsAreSelfDelimiting(a.text, b.text);
    } else if a.Arr? {
      ArraysAreUniquelyReadable(a, b);
    } else {
      ObjectsAreUniquelyReadable(a, b);
    }
  }

  lemma {:induction false} ArraysAreUniquelyReadable(a: Json, b: Json)
    requires WellFormed(a) && WellFormed(b) && a.Arr? && b.Arr?
    ensures SelfDelimiting(Print(a), Print(b))
    ensures Print(a) == Print(b) ==> a == b
    decreases a, 0
  {
    var ts, us := PrintAll(a.elems), PrintAll(b.elems);
    assert forall i :: 0 <= i < |ts| ==> StartsValue(ts[i]);
    assert forall k :: 0 <= k < |us| ==> StartsValue(us[k]);
    forall i, k | 0 <= i < |ts| && 0 <= k < |us|
      ensures SelfDelimiting(ts[i], us[k]) && (ts[i] == us[k] ==> a.elems[i] == b.elems[k])
    {
      PrintIsUniquelyReadable(a.elems[i], b.elems[k]);
    }
    BracketsAreSelfDelimiting(ts, us, OPEN_ARRAY, CLOSE_ARRAY);
    if Print(a) == Print(b) {
      assert a.elems == b.elems;
    }
  }

  lemma {:induction false} ObjectsAreUniquelyReadable(a: Json, b: Json)
    requires WellFormed(a) && WellFormed(b) && a.Obj? && b.Obj?
    ensures SelfDelimiting(Print(a), Print(b))
    ensures Print(a) == Print(b) ==> a == b
    decreases a, 0
  {
    var es, fs := PrintFields(a.fields), PrintFields(b.fields);
    var ts, us := Pairs(es), Pairs(fs);
    assert forall i :: 0 <= i < |ts| ==> StartsValue(ts[i]);
    assert forall k :: 0 <= k < |us| ==> StartsValue(us[k]);
    forall i, k | 0 <= i < |ts| && 0 <= k < |us|
      ensures SelfDelimiting(ts[i], us[k]) && (ts[i] == us[k] ==> a.fields[i] == b.fields[k])
    {
      PrintIsUniquelyReadable(a.fields[i].value, b.fields[k].value);
      PairsAreSelfDelimiting(es[i], fs[k]);
    }
    BracketsAreSelfDelimiting(ts, us, OPEN_OBJECT, CLOSE_OBJECT);
    if Print(a) == Print(b) {
      assert a.fields == b.fields;
    }
  }
}
