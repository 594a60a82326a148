/** The stable sort behind `Array.prototype.sort`, for any comparison whose
    "not after" relation `le` is a total preorder. Stability fixes the result
    completely, so insertion sort describes it whatever algorithm the engine runs. */
module StableSort {

  ghost predicate TotalPreorder<T(!new)>(le: (T, T) -> bool) {
    && (forall a, b :: le(a, b) || le(b, a))
    && (forall a, b, c :: le(a, b) && le(b, c) ==> le(a, c))
  }

  ghost predicate Sorted<T>(le: (T, T) -> bool, s: seq<T>) {
    forall i, j :: 0 <= i < j < |s| ==> le(s[i], s[j])
  }

  function Insert<T>(le: (T, T) -> bool, x: T, s: seq<T>): seq<T> {
    if s == [] then [x]
    else if le(x, s[0]) then [x] + s
    else [s[0]] + Insert(le, x, s[1..])
  }

  function Sort<T>(le: (T, T) -> bool, s: seq<T>): seq<T> {
    if s == [] then [] else Insert(le, s[0], Sort(le, s[1..]))
  }

  lemma {:induction false} InsertIsPermutation<T>(le: (T, T) -> bool, x: T, s: seq<T>)
    ensures multiset(Insert(le, x, s)) == multiset{x} + multiset(s)
    ensures |Insert(le, x, s)| == |s| + 1
  {
    if s == [] || le(x, s[0]) {
    } else {
      InsertIsPermutation(le, x, s[1..]);
      assert s == [s[0]] + s[1..];
    }
  }

  lemma {:induction false} SortIsPermutation<T>(le: (T, T) -> bool, s: seq<T>)
    ensures multiset(Sort(le, s)) == multiset(s)
    ensures |Sort(le, s)| == |s|
  {
    if s != [] {
      SortIsPermutation(le, s[1..]);
      InsertIsPermutation(le, s[0], Sort(le, s[1..]));
      assert s == [s[0]] + s[1..];
    }
  }

  ghost predicate SameMembers<T(!new)>(s: seq<T>, t: seq<T>) {
    forall e :: e in s <==> e in t
  }

  ghost predicate StrictlyOrdered<T>(le: (T, T) -> bool, s: seq<T>) {
    forall i, j :: 0 <= i < j < |s| ==> le(s[i], s[j]) && !le(s[j], s[i])
  }

  lemma SortKeepsMembers<T(!new)>(le: (T, T) -> bool, s: seq<T>)
    ensures |Sort(le, s)| == |s|
    ensures SameMembers(Sort(le, s), s)
  {
    SortIsPermutation(le, s);
    forall e ensures e in Sort(le, s) <==> e in s {
      assert e in Sort(le, s) <==> e in multiset(Sort(le, s));
      assert e in s <==> e in multiset(s);
    }
  }

  lemma {:induction false} InsertIsSorted<T(!new)>(le: (T, T) -> bool, x: T, s: seq<T>)
    requires TotalPreorder(le) && Sorted(le, s)
    ensures Sorted(le, Insert(le, x, s))
  {
    if s == [] {
    } else if le(x, s[0]) {
      var r := [x] + s;
      forall i, j | 0 <= i < j < |r| ensures le(r[i], r[j]) {
        if i == 0 { assert le(s[0], s[j - 1]) by { assert le(s[0], s[0]); } }
      }
    } else {
      var rest := Insert(le, x, s[1..]);
      InsertIsSorted(le, x, s[1..]);
      InsertIsPermutation(le, x, s[1..]);
      forall j | 0 <= j < |rest| ensures le(s[0], rest[j]) {
        assert rest[j] in multiset(rest);
        assert rest[j] == x || rest[j] in s[1..];
      }
    }
  }

  lemma {:induction false} SortIsSorted<T(!new)>(le: (T, T) -> bool, s: seq<T>)
    requires TotalPreorder(le)
    ensures Sorted(le, Sort(le, s))
  {
    if s != [] {
      SortIsSorted(le, s[1..]);
      InsertIsSorted(le, s[0], Sort(le, s[1..]));
    }
  }

  /** Stability: a sequence already in order is left exactly as it is, ties included. */
  lemma {:induction false} SortedIsFixed<T(!new)>(le: (T, T) -> bool, s: seq<T>)
    requires Sorted(le, s)
    ensures Sort(le, s) == s
  {
    if s != [] {
      SortedIsFixed(le, s[1..]);
      if |s| > 1 { assert le(s[0], s[1]); }
      assert s == [s[0]] + s[1..];
    }
  }

  function Ties<T>(le: (T, T) -> bool, x: T, s: seq<T>): seq<T> {
    if s == [] then []
    else (if le(x, s[0]) && le(s[0], x) then [s[0]] else []) + Ties(le, x, s[1..])
  }

  /** Stability in general: elements that compare equal keep their input order. */
  lemma {:induction false} SortIsStable<T(!new)>(le: (T, T) -> bool, x: T, s: seq<T>)
    requires TotalPreorder(le)
    ensures Ties(le, x, Sort(le, s)) == Ties(le, x, s)
  {
    if s != [] {
      SortIsStable(le, x, s[1..]);
      TiedIsTransitive(le, x);
      InsertIsStable(le, x, s[0], Sort(le, s[1..]));
    }
  }

  lemma TiedIsTransitive<T(!new)>(le: (T, T) -> bool, x: T)
    requires TotalPreorder(le)
    ensures forall a, b :: Tied(le, x, a) && Tied(le, x, b) ==> le(a, b)
  {
  }

  lemma TiesCons<T>(le: (T, T) -> bool, x: T, y: T, s: seq<T>)
    ensures Ties(le, x, [y] + s) == (if le(x, y) && le(y, x) then [y] else []) + Ties(le, x, s)
  {
    assert ([y] + s)[1..] == s;
  }

  ghost predicate Tied<T>(le: (T, T) -> bool, x: T, y: T) {
    le(x, y) && le(y, x)
  }

  /** Moving an element past one it does not tie with changes nothing. */
  lemma {:induction false} TiesSwap<T>(le: (T, T) -> bool, x: T, y: T, z: T, s: seq<T>)
    requires !Tied(le, x, y) || !Tied(le, x, z)
    ensures (if Tied(le, x, z) then [z] else []) + ((if Tied(le, x, y) then [y] else []) + Ties(le, x, s))
         == (if Tied(le, x, y) then [y] else []) + Ties(le, x, [z] + s)
  {
    TiesCons(le, x, z, s);
  }

  lemma {:induction false} InsertIsStable<T(!new)>(le: (T, T) -> bool, x: T, y: T, s: seq<T>)
    requires forall a, b :: Tied(le, x, a) && Tied(le, x, b) ==> le(a, b)
    ensures Ties(le, x, Insert(le, y, s)) == (if Tied(le, x, y) then [y] else []) + Ties(le, x, s)
  {
    if s == [] || le(y, s[0]) {
      TiesCons(le, x, y, s);
      assert [y] + [] == [y];
    } else {
      var z, rest := s[0], s[1..];
      InsertIsStable(le, x, y, rest);
      TiesCons(le, x, z, Insert(le, y, rest));
      TiesSwap(le, x, y, z, rest);
      assert s == [z] + rest;
    }
  }

  /** Two duplicate-free sequences in strict order with the same members are equal. */
  lemma {:induction false} StrictOrderIsUnique<T(!new)>(le: (T, T) -> bool, s: seq<T>, t: seq<T>)
    requires StrictlyOrdered(le, s) && StrictlyOrdered(le, t) && SameMembers(s, t)
    ensures s == t
  {
    assert s != [] ==> s[0] in s;
    assert t != [] ==> t[0] in t;
    if s != [] {
      var p :| 0 <= p < |t| && t[p] == s[0];
      var q :| 0 <= q < |s| && s[q] == t[0];
      if p > 0 && q > 0 { assert false; }
      assert s[0] == t[0];
      forall e ensures e in s[1..] <==> e in t[1..] {
        if e in s[1..] {
          var i :| 1 <= i < |s| && s[i] == e;
          assert le(s[0], s[i]) && !le(s[i], s[0]);
          assert e in t;
          var k :| 0 <= k < |t| && t[k] == e;
          assert k != 0;
          assert t[1..][k - 1] == e;
        }
        if e in t[1..] {
          var i :| 1 <= i < |t| && t[i] == e;
          assert le(t[0], t[i]) && !le(t[i], t[0]);
          assert e in s;
          var k :| 0 <= k < |s| && s[k] == e;
          assert k != 0;
          assert s[1..][k - 1] == e;
        }
      }
      StrictOrderIsUnique(le, s[1..], t[1..]);
      assert s == [s[0]] + s[1..] && t == [t[0]] + t[1..];
    }
  }
}
