/** What a canonical text means: it determines the tree up to the key order of its
    objects, and it hides that order exactly when no object has two keys that tie. */
module CanonicalMeaning {
  import opened JsonText
  import opened StableSort
  import opened CanonicalJson
  import opened UniqueReadability

  ghost predicate HasKey<V(!new)>(fs: seq<Entry<V>>, k: Text) {
    exists i :: 0 <= i < |fs| && fs[i].key == k
  }

  /** The same JSON value: objects are compared as maps from key to value, at every depth. */
  ghost predicate SameValue(a: Json, b: Json) {
    match a
    case Arr(es) =>
      b.Arr? && |es| == |b.elems| && forall i :: 0 <= i < |es| ==> SameValue(es[i], b.elems[i])
    case Obj(fs) =>
      && b.Obj?
      && (forall i :: 0 <= i < |fs| ==> HasKey(b.fields, fs[i].key))
      && (forall k :: 0 <= k < |b.fields| ==> HasKey(fs, b.fields[k].key))
      && (forall i, k :: 0 <= i < |fs| && 0 <= k < |b.fields| && fs[i].key == b.fields[k].key
            ==> SameValue(fs[i].value, b.fields[k].value))
    case _ => a == b
  }

  ghost predicate KeysTie(le: (Text, Text) -> bool, k: Text, l: Text) {
    le(k, l) && le(l, k)
  }

  /** No object, at any depth, has two keys that the comparison cannot separate. */
  ghost predicate TieFree(le: (Text, Text) -> bool, j: Json) {
    match j
    case Arr(es) => forall i :: 0 <= i < |es| ==> TieFree(le, es[i])
    case Obj(fs) =>
      && (forall i, k :: 0 <= i < k < |fs| ==> !KeysTie(le, fs[i].key, fs[k].key))
      && forall i :: 0 <= i < |fs| ==> TieFree(le, fs[i].value)
    case _ => true
  }

  lemma {:induction false} SameValueReflexive(j: Json)
    requires WellFormed(j)
    ensures SameValue(j, j)
  {
    match j {
      case Arr(es) => forall i | 0 <= i < |es| ensures SameValue(es[i], es[i]) { SameValueReflexive(es[i]); }
      case Obj(fs) =>
        forall i | 0 <= i < |fs|
          ensures SameValue(fs[i].value, fs[i].value)
        {
          SameValueReflexive(fs[i].value);
        }
      case _ =>
    }
  }

  // ---- Sorting keeps objects objects ------------------------------------------------

  lemma {:induction false} InsertKeepsKeysDistinct<V(!new)>(le: (Text, Text) -> bool, e: Entry<V>, s: seq<Entry<V>>)
    requires DistinctKeys(s) && !HasKey(s, e.key)
    ensures DistinctKeys(Insert(ByKey(le), e, s))
  {
    if s != [] && !ByKey(le)(e, s[0]) {
      var rest := Insert(ByKey(le), e, s[1..]);
      assert !HasKey(s[1..], e.key) by {
        forall i | 0 <= i < |s[1..]| ensures s[1..][i].key != e.key { assert s[i + 1].key != e.key; }
      }
      InsertKeepsKeysDistinct(le, e, s[1..]);
      InsertIsPermutation(ByKey(le), e, s[1..]);
      forall i | 0 <= i < |rest| ensures rest[i].key != s[0].key {
        assert rest[i] in multiset(rest);
        assert rest[i] == e || rest[i] in s[1..];
      }
    }
  }

  lemma {:induction false} SortKeepsKeysDistinct<V(!new)>(le: (Text, Text) -> bool, s: seq<Entry<V>>)
    requires DistinctKeys(s)
    ensures DistinctKeys(Sort(ByKey(le), s))
  {
    if s != [] {
      var rest := Sort(ByKey(le), s[1..]);
      SortKeepsKeysDistinct(le, s[1..]);
      SortKeepsMembers(ByKey(le), s[1..]);
      assert !HasKey(rest, s[0].key) by {
        forall i | 0 <= i < |rest| ensures rest[i].key != s[0].key { assert rest[i] in s[1..]; }
      }
      InsertKeepsKeysDistinct(le, s[0], rest);
    }
  }

  lemma {:induction false} NormIsWellFormed(le: (Text, Text) -> bool, j: Json)
    requires WellFormed(j)
    ensures WellFormed(Norm(le, j))
  {
    match j {
      case Arr(es) => forall i | 0 <= i < |es| ensures WellFormed(Norm(le, es[i])) { NormIsWellFormed(le, es[i]); }
      case Obj(fs) =>
        var ns := NormFields(le, fs);
        forall i | 0 <= i < |fs| ensures WellFormed(ns[i].value) { NormIsWellFormed(le, fs[i].value); }
        SortKeepsKeysDistinct(le, ns);
        SortKeepsMembers(ByKey(le), ns);
        var s := Sort(ByKey(le), ns);
        forall i | 0 <= i < |s| ensures WellFormed(s[i].value) { assert s[i] in ns; }
      case _ =>
    }
  }

  lemma {:induction false} NormFieldMember(le: (Text, Text) -> bool, fs: seq<Entry<Json>>, i: nat)
    requires i < |fs|
    ensures Entry(fs[i].key, Norm(le, fs[i].value)) in Sort(ByKey(le), NormFields(le, fs))
  {
    assert NormFields(le, fs)[i] in NormFields(le, fs);
    SortKeepsMembers(ByKey(le), NormFields(le, fs));
  }

  lemma {:induction false} NormFieldOrigin(le: (Text, Text) -> bool, fs: seq<Entry<Json>>, e: Entry<Json>)
    returns (i: nat)
    requires e in Sort(ByKey(le), NormFields(le, fs))
    ensures i < |fs| && e == Entry(fs[i].key, Norm(le, fs[i].value))
  {
    SortKeepsMembers(ByKey(le), NormFields(le, fs));
    assert e in NormFields(le, fs);
    i :| 0 <= i < |fs| && NormFields(le, fs)[i] == e;
  }

  // ---- The text determines the value ------------------------------------------------

  lemma {:induction false} SameNormIsSameValue(le: (Text, Text) -> bool, a: Json, b: Json)
    requires WellFormed(a) && WellFormed(b) && Norm(le, a) == Norm(le, b)
    ensures SameValue(a, b)
  {
    match a {
      case Arr(es) =>
        forall i | 0 <= i < |es| ensures SameValue(es[i], b.elems[i]) {
          assert NormAll(le, es)[i] == NormAll(le, b.elems)[i];
          SameNormIsSameValue(le, es[i], b.elems[i]);
        }
      case Obj(fs) =>
        var gs := b.fields;
        forall i | 0 <= i < |fs| ensures HasKey(gs, fs[i].key) {
          NormFieldMember(le, fs, i);
          var k := NormFieldOrigin(le, gs, Entry(fs[i].key, Norm(le, fs[i].value)));
        }
        forall k | 0 <= k < |gs| ensures HasKey(fs, gs[k].key) {
          NormFieldMember(le, gs, k);
          var i := NormFieldOrigin(le, fs, Entry(gs[k].key, Norm(le, gs[k].value)));
        }
        forall i, k | 0 <= i < |fs| && 0 <= k < |gs| && fs[i].key == gs[k].key
          ensures SameValue(fs[i].value, gs[k].value)
        {
          NormFieldMember(le, fs, i);
          NormFieldMember(le, gs, k);
          NormIsWellFormed(le, a);
          SameNormIsSameValue(le, fs[i].value, gs[k].value);
        }
      case _ =>
    }
  }

  /** Injectivity: equal canonical texts come from the same value, even where the
      comparison ties distinct keys. */
  lemma {:induction false} CanonicalTextDeterminesValue(le: (Text, Text) -> bool, a: Json, b: Json)
    requires WellFormed(a) && WellFormed(b)
    requires Canonicalize(le, a) == Canonicalize(le, b)
    ensures Norm(le, a) == Norm(le, b)
    ensures SameValue(a, b)
  {
    CanonicalizeIsPrintOfNorm(le, a);
    CanonicalizeIsPrintOfNorm(le, b);
    NormIsWellFormed(le, a);
    NormIsWellFormed(le, b);
    PrintIsUniquelyReadable(Norm(le, a), Norm(le, b));
    SameNormIsSameValue(le, a, b);
  }

  lemma {:induction false} SameValueSymmetric(a: Json, b: Json)
    requires SameValue(a, b)
    ensures SameValue(b, a)
    decreases a
  {
    match a {
      case Arr(es) =>
        forall i | 0 <= i < |es| ensures SameValue(b.elems[i], es[i]) { SameValueSymmetric(es[i], b.elems[i]); }
      case Obj(fs) =>
        forall i, k | 0 <= i < |fs| && 0 <= k < |b.fields| && fs[i].key == b.fields[k].key
          ensures SameValue(b.fields[k].value, fs[i].value)
        {
          SameValueSymmetric(fs[i].value, b.fields[k].value);
        }
      case _ =>
    }
  }

  lemma {:induction false} SameValueTransitive(a: Json, b: Json, c: Json)
    requires SameValue(a, b) && SameValue(b, c)
    ensures SameValue(a, c)
    decreases a
  {
    match a {
      case Arr(es) =>
        forall i | 0 <= i < |es|
          ensures SameValue(es[i], c.elems[i])
        {
          SameValueTransitive(es[i], b.elems[i], c.elems[i]);
        }
      case Obj(fs) => SameObjectTransitive(a, b, c);
      case _ =>
    }
  }

  lemma {:induction false} SameObjectTransitive(a: Json, b: Json, c: Json)
    requires a.Obj? && SameValue(a, b) && SameValue(b, c)
    ensures SameValue(a, c)
    decreases a, 0
  {
    var fs, gs, hs := a.fields, b.fields, c.fields;
    forall i | 0 <= i < |fs| ensures HasKey(hs, fs[i].key) {
      assert HasKey(gs, fs[i].key);
      var k :| 0 <= k < |gs| && gs[k].key == fs[i].key;
      assert HasKey(hs, gs[k].key);
    }
    forall m | 0 <= m < |hs| ensures HasKey(fs, hs[m].key) {
      assert HasKey(gs, hs[m].key);
      var k :| 0 <= k < |gs| && gs[k].key == hs[m].key;
      assert HasKey(fs, gs[k].key);
    }
    forall i, m | 0 <= i < |fs| && 0 <= m < |hs| && fs[i].key == hs[m].key ensures SameValue(fs[i].value, hs[m].value) {
      assert HasKey(gs, fs[i].key);
      var k :| 0 <= k < |gs| && gs[k].key == fs[i].key;
      SameValueTransitive(fs[i].value, gs[k].value, hs[m].value);
    }
  }

  /** Injectivity owes nothing to sorting: however the fields of each object end up ordered
      before printing, equal texts come from the same value. So it survives a comparison
      that is no order at all, which an engine's sort may answer with any permutation. */
  lemma {:induction false} AnyKeyOrderDeterminesValue(a: Json, b: Json, a1: Json, b1: Json)
    requires WellFormed(a1) && WellFormed(b1) && SameValue(a, a1) && SameValue(b, b1)
    requires Print(a1) == Print(b1)
    ensures SameValue(a, b)
  {
    PrintIsUniquelyReadable(a1, b1);
    SameValueSymmetric(b, b1);
    SameValueTransitive(a, a1, b);
  }

  // ---- The value determines the text, without ties ----------------------------------

  lemma {:induction false} ByKeyIsPreorder<V(!new)>(le: (Text, Text) -> bool)
    requires TotalPreorder(le)
    ensures TotalPreorder(ByKey<V>(le))
  {
    var before := ByKey<V>(le);
    forall a, b: Entry<V> ensures before(a, b) || before(b, a) {
      assert le(a.key, b.key) || le(b.key, a.key);
    }
    forall a, b, c: Entry<V> | before(a, b) && before(b, c) ensures before(a, c) {
      assert le(a.key, b.key) && le(b.key, c.key);
    }
  }

  ghost predicate NoTies<V>(le: (Text, Text) -> bool, s: seq<Entry<V>>) {
    forall i, k :: 0 <= i < k < |s| ==> !KeysTie(le, s[i].key, s[k].key)
  }

  lemma {:induction false} StrictlySorted<V(!new)>(le: (Text, Text) -> bool, s: seq<Entry<V>>)
    requires TotalPreorder(le) && DistinctKeys(s) && NoTies(le, s)
    ensures StrictlyOrdered(ByKey(le), Sort(ByKey(le), s))
  {
    var r := Sort(ByKey(le), s);
    ByKeyIsPreorder<V>(le);
    SortIsSorted(ByKey(le), s);
    SortKeepsKeysDistinct(le, s);
    SortKeepsMembers(ByKey(le), s);
    forall i, j | 0 <= i < j < |r| ensures ByKey(le)(r[i], r[j]) && !ByKey(le)(r[j], r[i]) {
      assert r[i] in s && r[j] in s && r[i] != r[j];
    }
  }

  lemma {:induction false} SameMembersSameTies<V(!new)>(le: (Text, Text) -> bool, s: seq<Entry<V>>, t: seq<Entry<V>>)
    requires NoTies(le, s) && SameMembers(s, t) && DistinctKeys(t)
    ensures NoTies(le, t)
  {
    forall i, k | 0 <= i < k < |t| ensures !KeysTie(le, t[i].key, t[k].key) {
      assert t[i] in s && t[k] in s && t[i] != t[k];
    }
  }

  lemma {:induction false} SortedMembersAgree<V(!new)>(
      le: (Entry<V>, Entry<V>) -> bool, s: seq<Entry<V>>, t: seq<Entry<V>>)
    requires SameMembers(s, t)
    ensures SameMembers(Sort(le, s), Sort(le, t))
  {
    SortKeepsMembers(le, s);
    SortKeepsMembers(le, t);
    forall e ensures e in Sort(le, s) <==> e in Sort(le, t) {
      assert e in s <==> e in t;
    }
  }

  lemma {:induction false} SameMembersSortAlike<V(!new)>(le: (Text, Text) -> bool, s: seq<Entry<V>>, t: seq<Entry<V>>)
    requires TotalPreorder(le) && DistinctKeys(s) && DistinctKeys(t) && NoTies(le, s) && SameMembers(s, t)
    ensures Sort(ByKey(le), s) == Sort(ByKey(le), t)
  {
    StrictlySorted(le, s);
    assert StrictlyOrdered(ByKey(le), Sort(ByKey(le), t)) by {
      SameMembersSameTies(le, s, t);
      StrictlySorted(le, t);
    }
    SortedMembersAgree(ByKey(le), s, t);
    StrictOrderIsUnique(ByKey(le), Sort(ByKey(le), s), Sort(ByKey(le), t));
  }

  lemma {:induction false} SameFieldsSameNorm(le: (Text, Text) -> bool, fs: seq<Entry<Json>>, gs: seq<Entry<Json>>)
    requires TotalPreorder(le) && DistinctKeys(fs) && DistinctKeys(gs) && NoTies(le, fs)
    requires forall i :: 0 <= i < |fs| ==> HasKey(gs, fs[i].key)
    requires forall k :: 0 <= k < |gs| ==> HasKey(fs, gs[k].key)
    requires forall i, k :: 0 <= i < |fs| && 0 <= k < |gs| && fs[i].key == gs[k].key ==>
               Norm(le, fs[i].value) == Norm(le, gs[k].value)
    ensures Norm(le, Obj(fs)) == Norm(le, Obj(gs))
  {
    var s, t := NormFields(le, fs), NormFields(le, gs);
    forall i | 0 <= i < |fs| ensures s[i] in t {
      assert HasKey(gs, fs[i].key);
      var k :| 0 <= k < |gs| && gs[k].key == fs[i].key;
      assert s[i] == t[k];
    }
    forall k | 0 <= k < |gs| ensures t[k] in s {
      assert HasKey(fs, gs[k].key);
      var i :| 0 <= i < |fs| && fs[i].key == gs[k].key;
      assert s[i] == t[k];
    }
    assert NoTies(le, s);
    SameMembersSortAlike(le, s, t);
  }

  lemma {:induction false} SameValueIsSameNorm(le: (Text, Text) -> bool, a: Json, b: Json)
    requires TotalPreorder(le) && WellFormed(a) && WellFormed(b)
    requires SameValue(a, b) && TieFree(le, a)
    ensures Norm(le, a) == Norm(le, b)
  {
    match a {
      case Arr(es) =>
        forall i | 0 <= i < |es| ensures Norm(le, es[i]) == Norm(le, b.elems[i]) {
          SameValueIsSameNorm(le, es[i], b.elems[i]);
        }
        assert NormAll(le, es) == NormAll(le, b.elems);
      case Obj(fs) =>
        var gs := b.fields;
        forall i, k | 0 <= i < |fs| && 0 <= k < |gs| && fs[i].key == gs[k].key
          ensures Norm(le, fs[i].value) == Norm(le, gs[k].value)
        {
          SameValueIsSameNorm(le, fs[i].value, gs[k].value);
        }
        SameFieldsSameNorm(le, fs, gs);
      case _ =>
    }
  }

  /** Without ties, the canonical text is a faithful name for the value: same text iff same value. */
  lemma {:induction false} SameTextIffSameValue(le: (Text, Text) -> bool, a: Json, b: Json)
    requires TotalPreorder(le) && WellFormed(a) && WellFormed(b) && TieFree(le, a)
    ensures Canonicalize(le, a) == Canonicalize(le, b) <==> SameValue(a, b)
  {
    if Canonicalize(le, a) == Canonicalize(le, b) {
      CanonicalTextDeterminesValue(le, a, b);
    }
    if SameValue(a, b) {
      SameValueIsSameNorm(le, a, b);
      CanonicalizeIsPrintOfNorm(le, a);
      CanonicalizeIsPrintOfNorm(le, b);
    }
  }

  // ---- With a tie, key order shows --------------------------------------------------

  lemma {:induction false} AdjacentTie(le: (Text, Text) -> bool, s: seq<Entry<Json>>, i: nat, k: nat) returns (p: nat)
    requires TotalPreorder(le) && Sorted(ByKey(le), s)
    requires i < k < |s| && KeysTie(le, s[i].key, s[k].key)
    ensures p + 1 < |s| && KeysTie(le, s[p].key, s[p + 1].key)
  {
    p := i;
    assert ByKey(le)(s[i], s[i + 1]);
    if i + 1 < k { assert ByKey(le)(s[i + 1], s[k]); }
  }

  function SwapAt<T>(s: seq<T>, p: nat): seq<T>
    requires p + 1 < |s|
  {
    s[p := s[p + 1]][p + 1 := s[p]]
  }

  lemma {:induction false} SwappedTieIsSorted(le: (Text, Text) -> bool, s: seq<Entry<Json>>, p: nat)
    requires TotalPreorder(le) && Sorted(ByKey(le), s)
    requires p + 1 < |s| && KeysTie(le, s[p].key, s[p + 1].key)
    ensures Sorted(ByKey(le), SwapAt(s, p))
  {
    var r := SwapAt(s, p);
    forall i, j | 0 <= i < j < |s| ensures ByKey(le)(r[i], r[j]) {
      var x := if i == p then p + 1 else if i == p + 1 then p else i;
      var y := if j == p then p + 1 else if j == p + 1 then p else j;
      if x < y { assert ByKey(le)(s[x], s[y]); }
    }
  }

  lemma {:induction false} SortedNorm(le: (Text, Text) -> bool, s: seq<Entry<Json>>)
    requires Sorted(ByKey(le), s)
    ensures Norm(le, Obj(s)) == Obj(NormFields(le, s))
  {
    var ns := NormFields(le, s);
    forall i, j | 0 <= i < j < |ns| ensures ByKey(le)(ns[i], ns[j]) {
      assert ByKey(le)(s[i], s[j]);
    }
    SortedIsFixed(ByKey(le), ns);
  }

  lemma {:induction false} ReorderedIsSameValue(fs: seq<Entry<Json>>, gs: seq<Entry<Json>>)
    requires WellFormed(Obj(fs)) && DistinctKeys(gs) && SameMembers(fs, gs)
    ensures WellFormed(Obj(gs)) && SameValue(Obj(fs), Obj(gs))
  {
    forall k | 0 <= k < |gs| ensures WellFormed(gs[k].value) && HasKey(fs, gs[k].key) {
      assert gs[k] in fs;
    }
    forall i | 0 <= i < |fs| ensures HasKey(gs, fs[i].key) {
      assert fs[i] in gs;
    }
    forall i, k | 0 <= i < |fs| && 0 <= k < |gs| && fs[i].key == gs[k].key
      ensures SameValue(fs[i].value, gs[k].value)
    {
      assert fs[i] in fs && gs[k] in fs;
      SameValueReflexive(fs[i].value);
    }
  }

  /** An object with two tying keys has a reordering that prints differently. */
  lemma {:induction false} TieShowsHere(le: (Text, Text) -> bool, fs: seq<Entry<Json>>, i: nat, k: nat)
    returns (b: Json)
    requires TotalPreorder(le) && WellFormed(Obj(fs))
    requires i < k < |fs| && KeysTie(le, fs[i].key, fs[k].key)
    ensures WellFormed(b) && SameValue(Obj(fs), b) && Norm(le, b) != Norm(le, Obj(fs))
  {
    var s := Sort(ByKey(le), fs);
    ByKeyIsPreorder<Json>(le);
    SortIsSorted(ByKey(le), fs);
    SortKeepsKeysDistinct(le, fs);
    SortKeepsMembers(ByKey(le), fs);
    assert fs[i] in s && fs[k] in s;
    var x :| 0 <= x < |s| && s[x] == fs[i];
    var y :| 0 <= y < |s| && s[y] == fs[k];
    assert x != y;
    var p := AdjacentTie(le, s, if x < y then x else y, if x < y then y else x);
    b := SwapShows(le, fs, s, p);
  }

  lemma {:induction false} SwapKeepsMembers(s: seq<Entry<Json>>, p: nat)
    requires p + 1 < |s| && DistinctKeys(s)
    ensures SameMembers(s, SwapAt(s, p)) && DistinctKeys(SwapAt(s, p))
  {
    var t := SwapAt(s, p);
    assert s[p] == t[p + 1] && s[p + 1] == t[p];
    forall e | e in s ensures e in t {
      var q :| 0 <= q < |s| && s[q] == e;
      assert q != p && q != p + 1 ==> t[q] == e;
    }
    forall e | e in t ensures e in s {
      var q :| 0 <= q < |t| && t[q] == e;
      assert q != p && q != p + 1 ==> s[q] == e;
    }
  }

  /** The sorted fields and the same fields with the tie swapped have different normal
      forms, so at least one of them differs from the original. */
  lemma {:induction false} SwapShows(le: (Text, Text) -> bool, fs: seq<Entry<Json>>, s: seq<Entry<Json>>, p: nat)
    returns (b: Json)
    requires TotalPreorder(le) && WellFormed(Obj(fs))
    requires SameMembers(s, fs) && DistinctKeys(s) && Sorted(ByKey(le), s)
    requires p + 1 < |s| && KeysTie(le, s[p].key, s[p + 1].key)
    ensures WellFormed(b) && SameValue(Obj(fs), b) && Norm(le, b) != Norm(le, Obj(fs))
  {
    var t := SwapAt(s, p);
    SwapKeepsMembers(s, p);
    assert SameMembers(fs, s) && SameMembers(fs, t);
    ReorderedIsSameValue(fs, s);
    ReorderedIsSameValue(fs, t);
    SwapNormsDiffer(le, s, p);
    b := if Norm(le, Obj(s)) != Norm(le, Obj(fs)) then Obj(s) else Obj(t);
  }

  lemma {:induction false} SwapNormsDiffer(le: (Text, Text) -> bool, s: seq<Entry<Json>>, p: nat)
    requires TotalPreorder(le) && DistinctKeys(s) && Sorted(ByKey(le), s)
    requires p + 1 < |s| && KeysTie(le, s[p].key, s[p + 1].key)
    ensures Norm(le, Obj(s)) != Norm(le, Obj(SwapAt(s, p)))
  {
    var t := SwapAt(s, p);
    SwappedTieIsSorted(le, s, p);
    SortedNorm(le, s);
    SortedNorm(le, t);
    assert NormFields(le, s)[p].key == s[p].key;
    assert NormFields(le, t)[p].key == s[p + 1].key;
  }

  lemma {:induction false} TieShows(le: (Text, Text) -> bool, a: Json) returns (b: Json)
    requires TotalPreorder(le) && WellFormed(a) && !TieFree(le, a)
    ensures WellFormed(b) && SameValue(a, b) && Norm(le, b) != Norm(le, a)
    decreases a
  {
    if a.Arr? {
      var i := TiedElement(le, a.elems);
      var c := TieShows(le, a.elems[i]);
      b := Arr(a.elems[i := c]);
      ReplacedElement(le, a.elems, i, c);
    } else if i, k :| 0 <= i < k < |a.fields| && KeysTie(le, a.fields[i].key, a.fields[k].key) {
      b := TieShowsHere(le, a.fields, i, k);
    } else {
      var i := TiedField(le, a.fields);
      var c := TieShows(le, a.fields[i].value);
      b := Obj(a.fields[i := Entry(a.fields[i].key, c)]);
      ReplacedField(le, a.fields, i, c);
    }
  }

  lemma {:induction false} TiedElement(le: (Text, Text) -> bool, es: seq<Json>) returns (i: nat)
    requires WellFormed(Arr(es)) && !TieFree(le, Arr(es))
    ensures i < |es| && WellFormed(es[i]) && !TieFree(le, es[i])
  {
    i :| 0 <= i < |es| && !TieFree(le, es[i]);
  }

  lemma {:induction false} TiedField(le: (Text, Text) -> bool, fs: seq<Entry<Json>>) returns (i: nat)
    requires WellFormed(Obj(fs)) && !TieFree(le, Obj(fs))
    requires forall i, k :: 0 <= i < k < |fs| ==> !KeysTie(le, fs[i].key, fs[k].key)
    ensures i < |fs| && WellFormed(fs[i].value) && !TieFree(le, fs[i].value)
  {
    i :| 0 <= i < |fs| && !TieFree(le, fs[i].value);
  }

  lemma {:induction false} ReplacedElement(le: (Text, Text) -> bool, es: seq<Json>, i: nat, c: Json)
    requires WellFormed(Arr(es)) && i < |es| && WellFormed(c) && SameValue(es[i], c) && Norm(le, c) != Norm(le, es[i])
    ensures var b := Arr(es[i := c]); WellFormed(b) && SameValue(Arr(es), b) && Norm(le, b) != Norm(le, Arr(es))
  {
    var ds := es[i := c];
    forall m | 0 <= m < |es| ensures SameValue(es[m], ds[m]) {
      if m != i { SameValueReflexive(es[m]); }
    }
    assert NormAll(le, ds)[i] != NormAll(le, es)[i];
  }

  lemma {:induction false} ReplacedField(le: (Text, Text) -> bool, fs: seq<Entry<Json>>, i: nat, c: Json)
    requires WellFormed(Obj(fs)) && i < |fs| && WellFormed(c) && SameValue(fs[i].value, c)
            && Norm(le, c) != Norm(le, fs[i].value)
    ensures var b := Obj(fs[i := Entry(fs[i].key, c)]);
            WellFormed(b) && SameValue(Obj(fs), b) && Norm(le, b) != Norm(le, Obj(fs))
  {
    ReplacedFieldSameValue(fs, i, c);
    if Norm(le, Obj(fs[i := Entry(fs[i].key, c)])) == Norm(le, Obj(fs)) { ReplacedFieldNorm(le, fs, i, c); }
  }

  lemma {:induction false} ReplacedFieldSameValue(fs: seq<Entry<Json>>, i: nat, c: Json)
    requires WellFormed(Obj(fs)) && i < |fs| && WellFormed(c) && SameValue(fs[i].value, c)
    ensures var b := Obj(fs[i := Entry(fs[i].key, c)]); WellFormed(b) && SameValue(Obj(fs), b)
  {
    var gs := fs[i := Entry(fs[i].key, c)];
    assert DistinctKeys(fs);
    forall m | 0 <= m < |fs| ensures gs[m].key == fs[m].key && SameValue(fs[m].value, gs[m].value) {
      if m != i { SameValueReflexive(fs[m].value); }
    }
    forall m | 0 <= m < |fs| ensures HasKey(gs, fs[m].key) && HasKey(fs, gs[m].key) {
      assert gs[m].key == fs[m].key;
    }
    forall m, n | 0 <= m < |fs| && 0 <= n < |gs| && fs[m].key == gs[n].key ensures SameValue(fs[m].value, gs[n].value) {
      assert fs[n].key == gs[n].key;
      assert m == n;
    }
  }

  lemma {:induction false} ReplacedFieldNorm(le: (Text, Text) -> bool, fs: seq<Entry<Json>>, i: nat, c: Json)
    requires i < |fs| && WellFormed(Obj(fs)) && Norm(le, Obj(fs[i := Entry(fs[i].key, c)])) == Norm(le, Obj(fs))
    ensures Norm(le, c) == Norm(le, fs[i].value)
  {
    var gs := fs[i := Entry(fs[i].key, c)];
    NormFieldMember(le, fs, i);
    NormFieldMember(le, gs, i);
    NormIsWellFormed(le, Obj(fs));
  }

  ghost predicate KeyOrderHidden(le: (Text, Text) -> bool, a: Json) {
    forall b :: WellFormed(b) && SameValue(a, b) ==> Canonicalize(le, b) == Canonicalize(le, a)
  }

  lemma {:induction false} TieFreeHidesKeyOrder(le: (Text, Text) -> bool, a: Json)
    requires TotalPreorder(le) && WellFormed(a) && TieFree(le, a)
    ensures KeyOrderHidden(le, a)
  {
    forall b | WellFormed(b) && SameValue(a, b) ensures Canonicalize(le, b) == Canonicalize(le, a) {
      SameTextIffSameValue(le, a, b);
    }
  }

  lemma {:induction false} DifferentNormDifferentText(le: (Text, Text) -> bool, a: Json, b: Json)
    requires WellFormed(a) && WellFormed(b) && Norm(le, a) != Norm(le, b)
    ensures Canonicalize(le, a) != Canonicalize(le, b)
  {
    if Canonicalize(le, a) == Canonicalize(le, b) { CanonicalTextDeterminesValue(le, a, b); }
  }

  /** Key order never shows in the canonical text if and only if no object in the
      tree has two keys that tie under the comparison. */
  lemma {:induction false} KeyOrderHiddenIffTieFree(le: (Text, Text) -> bool, a: Json)
    requires TotalPreorder(le) && WellFormed(a)
    ensures KeyOrderHidden(le, a) <==> TieFree(le, a)
  {
    if TieFree(le, a) {
      TieFreeHidesKeyOrder(le, a);
    } else {
      var b := TieShows(le, a);
      DifferentNormDifferentText(le, a, b);
    }
  }

  // ---- Two spellings of one character --------------------------------------------------

  /** e with an acute accent, as one code unit and as a letter and a combining mark. */
  const COMPOSED: Text := [0xE9]
  const DECOMPOSED: Text := [0x65, 0x301]

  function Folded(k: Text): Text {
    if k == COMPOSED then DECOMPOSED else k
  }

  predicate UnitOrder(a: Text, b: Text) {
    a == [] || (b != [] && (a[0] < b[0] || (a[0] == b[0] && UnitOrder(a[1..], b[1..]))))
  }

  /** A comparison that, like `localeCompare`, identifies canonically equivalent strings. */
  predicate EquivalentTie(a: Text, b: Text) {
    UnitOrder(Folded(a), Folded(b))
  }

  lemma {:induction false} UnitOrderTotal(a: Text, b: Text)
    ensures UnitOrder(a, b) || UnitOrder(b, a)
  {
    if a != [] && b != [] && a[0] == b[0] { UnitOrderTotal(a[1..], b[1..]); }
  }

  lemma {:induction false} UnitOrderTransitive(a: Text, b: Text, c: Text)
    requires UnitOrder(a, b) && UnitOrder(b, c)
    ensures UnitOrder(a, c)
  {
    if a != [] && a[0] == b[0] && b[0] == c[0] { UnitOrderTransitive(a[1..], b[1..], c[1..]); }
  }

  lemma {:induction false} EquivalentTieIsPreorder()
    ensures TotalPreorder(EquivalentTie)
  {
    forall a, b ensures EquivalentTie(a, b) || EquivalentTie(b, a) { UnitOrderTotal(Folded(a), Folded(b)); }
    forall a, b, c | EquivalentTie(a, b) && EquivalentTie(b, c) ensures EquivalentTie(a, c) {
      UnitOrderTransitive(Folded(a), Folded(b), Folded(c));
    }
  }

  /** A concrete failure: under such a comparison, a total preorder, the two orders of an
      object with the keys "e-acute" spelled both ways print differently. */
  lemma {:induction false} TiedKeysPrintInInputOrder()
    ensures TotalPreorder(EquivalentTie) && KeysTie(EquivalentTie, COMPOSED, DECOMPOSED) && COMPOSED != DECOMPOSED
    ensures var f, g := Entry(COMPOSED, Null), Entry(DECOMPOSED, Null);
            && SameValue(Obj([f, g]), Obj([g, f]))
            && Canonicalize(EquivalentTie, Obj([f, g])) != Canonicalize(EquivalentTie, Obj([g, f]))
  {
    EquivalentTieIsPreorder();
    UnitOrderTotal(DECOMPOSED, DECOMPOSED);
    assert |COMPOSED| != |DECOMPOSED|;
    var f, g := Entry(COMPOSED, Null), Entry(DECOMPOSED, Null);
    ReorderedIsSameValue([f, g], [g, f]);
    SortedNorm(EquivalentTie, [f, g]);
    SortedNorm(EquivalentTie, [g, f]);
    assert NormFields(EquivalentTie, [f, g])[0].key != NormFields(EquivalentTie, [g, f])[0].key;
    DifferentNormDifferentText(EquivalentTie, Obj([f, g]), Obj([g, f]));
  }
}
