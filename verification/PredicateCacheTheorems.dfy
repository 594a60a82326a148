/** Cached and composed answers against direct evaluation. */
module PredicateCacheTheorems {
  import opened Wrappers
  import opened JsonText
  import opened JsStrings
  import opened StableSort
  import opened CanonicalJson
  import opened UniqueReadability
  import opened CanonicalMeaning
  import opened TermVocabulary
  import opened PredicateClaims

  // ---- Cache keys ---------------------------------------------------------------------

  ghost predicate WellFormedArg(arg: Option<Json>) {
    arg.Some? ==> WellFormed(arg.value)
  }

  ghost predicate SameArg(a: Option<Json>, b: Option<Json>) {
    a.Some? == b.Some? && (a.Some? ==> SameValue(a.value, b.value))
  }

  lemma {:induction false} PrintIsNotUndefined(j: Json)
    requires WellFormed(j)
    ensures Print(j) != [] && Print(j)[0] != UNDEFINED_TEXT[0]
  {
    if j.Str? { assert Quote(j.text)[0] == QUOTE; }
  }

  lemma {:induction false} ArgTextIsPrint(le: (Text, Text) -> bool, j: Json)
    requires WellFormed(j)
    ensures WellFormed(Norm(le, j)) && ArgText(le, Some(j)) == Print(Norm(le, j))
  {
    CanonicalizersAgree(le, j);
    CanonicalizeIsPrintOfNorm(le, j);
    NormIsWellFormed(le, j);
  }

  lemma {:induction false} ArgTextsAreSelfDelimiting(le: (Text, Text) -> bool, a: Option<Json>, b: Option<Json>)
    requires WellFormedArg(a) && WellFormedArg(b)
    ensures SelfDelimiting(ArgText(le, a), ArgText(le, b))
    ensures ArgText(le, a) == ArgText(le, b) ==> SameArg(a, b)
  {
    if a.Some? { ArgTextIsPrint(le, a.value); PrintIsNotUndefined(Norm(le, a.value)); }
    if b.Some? { ArgTextIsPrint(le, b.value); PrintIsNotUndefined(Norm(le, b.value)); }
    if a.Some? && b.Some? {
      PrintIsUniquelyReadable(Norm(le, a.value), Norm(le, b.value));
      if ArgText(le, a) == ArgText(le, b) { SameNormIsSameValue(le, a.value, b.value); }
    } else if a.None? && b.None? {
      SameTextIsSelfDelimiting(UNDEFINED_TEXT);
    } else {
      DifferentStartsAreSelfDelimiting(ArgText(le, a), ArgText(le, b));
    }
  }

  ghost predicate HoldsArgs(le: (Text, Text) -> bool, es: seq<Entry<Text>>) {
    forall i :: 0 <= i < |es| ==> exists a :: WellFormedArg(a) && es[i].value == ArgText(le, a)
  }

  /** An object of self-delimiting values determines its entries. */
  lemma {:induction false} ObjectTextDeterminesEntries(
      le: (Text, Text) -> bool, es: seq<Entry<Text>>, fs: seq<Entry<Text>>)
    requires HoldsArgs(le, es) && HoldsArgs(le, fs)
    requires Brackets(OPEN_OBJECT, Join(Pairs(es)), CLOSE_OBJECT)
            == Brackets(OPEN_OBJECT, Join(Pairs(fs)), CLOSE_OBJECT)
    ensures es == fs
  {
    var ts, us := Pairs(es), Pairs(fs);
    assert forall i :: 0 <= i < |ts| ==> StartsValue(ts[i]);
    assert forall k :: 0 <= k < |us| ==> StartsValue(us[k]);
    forall i, k | 0 <= i < |ts| && 0 <= k < |us|
      ensures SelfDelimiting(ts[i], us[k]) && (ts[i] == us[k] ==> es[i] == fs[k])
    {
      var a :| WellFormedArg(a) && es[i].value == ArgText(le, a);
      var b :| WellFormedArg(b) && fs[k].value == ArgText(le, b);
      ArgTextsAreSelfDelimiting(le, a, b);
      PairsAreSelfDelimiting(es[i], fs[k]);
    }
    BracketsAreSelfDelimiting(ts, us, OPEN_OBJECT, CLOSE_OBJECT);
    assert forall i :: 0 <= i < |es| ==> ts[i] == us[i];
  }

  lemma {:induction false} SortedEntriesHoldArgs(
      le: (Text, Text) -> bool, subject: Text, field: Text, p: Predicate, arg: Option<Json>)
    requires WellFormedArg(arg)
    ensures HoldsArgs(le, Sort(ByKey(le), KeyEntries(le, subject, field, p, arg)))
  {
    StringIsArgText(le, subject);
    StringIsArgText(le, field);
    StringIsArgText(le, PredicateName(p));
    SortingKeepsArgs(le, KeyEntries(le, subject, field, p, arg));
  }

  lemma {:induction false} StringIsArgText(le: (Text, Text) -> bool, s: Text)
    ensures WellFormedArg(Some(Str(s))) && ArgText(le, Some(Str(s))) == Quote(s)
  {
  }

  lemma {:induction false} SortingKeepsArgs(le: (Text, Text) -> bool, es: seq<Entry<Text>>)
    requires HoldsArgs(le, es)
    ensures HoldsArgs(le, Sort(ByKey(le), es))
  {
    var s := Sort(ByKey(le), es);
    SortKeepsMembers(ByKey(le), es);
    forall i | 0 <= i < |s| ensures exists a :: WellFormedArg(a) && s[i].value == ArgText(le, a) {
      assert s[i] in es;
      var k :| 0 <= k < |es| && es[k] == s[i];
    }
  }

  lemma {:induction false} EntriesAgree(le: (Text, Text) -> bool, es: seq<Entry<Text>>, fs: seq<Entry<Text>>,
                                        e: Entry<Text>, f: Entry<Text>)
    requires Sort(ByKey(le), es) == Sort(ByKey(le), fs) && DistinctKeys(fs)
    requires e in es && f in fs && e.key == f.key
    ensures e == f
  {
    SortKeepsMembers(ByKey(le), es);
    SortKeepsMembers(ByKey(le), fs);
    assert e in Sort(ByKey(le), fs);
  }

  /** One key per subject, field, predicate and argument: no two claims share a cache row. */
  lemma {:induction false} CacheKeyIdentifies(
      le: (Text, Text) -> bool, s1: Text, f1: Text, p1: Predicate, a1: Option<Json>, s2: Text, f2: Text,
      p2: Predicate, a2: Option<Json>)
    requires WellFormedArg(a1) && WellFormedArg(a2)
    requires CacheKey(le, s1, f1, p1, a1) == CacheKey(le, s2, f2, p2, a2)
    ensures s1 == s2 && f1 == f2 && p1 == p2 && SameArg(a1, a2)
  {
    var es, fs := KeyEntries(le, s1, f1, p1, a1), KeyEntries(le, s2, f2, p2, a2);
    SortedEntriesHoldArgs(le, s1, f1, p1, a1);
    SortedEntriesHoldArgs(le, s2, f2, p2, a2);
    ObjectTextDeterminesEntries(le, Sort(ByKey(le), es), Sort(ByKey(le), fs));
    EntriesAgree(le, es, fs, es[0], fs[0]);
    EntriesAgree(le, es, fs, es[1], fs[1]);
    EntriesAgree(le, es, fs, es[2], fs[2]);
    EntriesAgree(le, es, fs, es[3], fs[3]);
    StringsAreSelfDelimiting(s1, s2);
    StringsAreSelfDelimiting(f1, f2);
    StringsAreSelfDelimiting(PredicateName(p1), PredicateName(p2));
    ArgTextsAreSelfDelimiting(le, a1, a2);
  }

  /** Arguments that are the same value evaluate alike. */
  lemma {:induction false} EvaluateRespectsSameArg(
      g: Registry, field: Text, value: Json, p: Predicate, a: Option<Json>, b: Option<Json>)
    requires SameArg(a, b) && p != OverlapsSet
    ensures Evaluate(g, field, value, p, a) == Evaluate(g, field, value, p, b)
  {
  }

  // ---- Composition --------------------------------------------------------------------

  /** Every live row a read meets for this subject and field answers for the query's value. */
  ghost predicate SoundAt(g: Registry, at: Snapshot, q: Query) {
    forall r, p, a :: r in at.rows && p != OverlapsSet && WellFormedArg(a)
        && Matches(r, q.subject, KeyFor(g, q, p, a), at.now)
      ==> Evaluate(g, q.field, q.value, p, a) == Some(r.result)
  }

  ghost predicate AllSound(g: Registry, seen: Reads, q: Query) {
    forall i :: SoundAt(g, seen(i), q)
  }

  lemma {:induction false} CachedIsRight(g: Registry, at: Snapshot, q: Query, p: Predicate, a: Option<Json>)
    requires SoundAt(g, at, q) && p != OverlapsSet && WellFormedArg(a)
    ensures var c := Cached(g, at, q, p, a); c.Some? ==> Evaluate(g, q.field, q.value, p, a) == Some(c.value.result)
  {
    ReadCachedFinds(at.rows, q.subject, KeyFor(g, q, p, a), at.now);
  }

  lemma {:induction false} PrimitiveIsRight(g: Registry, at: Snapshot, q: Query, t: Text)
    requires SoundAt(g, at, q)
    ensures ContainsPrimitive(g, at, q, t).result <==> Contains(g.vocabulary(q.field), q.value, t)
  {
    CachedIsRight(g, at, q, ContainsTerm, Some(Str(t)));
  }

  lemma {:induction false} DistinctMembers(ts: seq<Text>)
    ensures forall t :: t in Distinct(ts) <==> t in ts
    ensures forall i, j :: 0 <= i < j < |Distinct(ts)| ==> Distinct(ts)[i] != Distinct(ts)[j]
  {
    if ts != [] {
      DistinctMembers(ts[..|ts| - 1]);
      assert ts == ts[..|ts| - 1] + [ts[|ts| - 1]];
    }
  }

  ghost predicate SomeContained(vocabulary: Option<Vocabulary>, value: Json, terms: seq<Text>) {
    exists t :: t in terms && Contains(vocabulary, value, t)
  }

  lemma {:induction false} AnyTrueInputs(g: Registry, seen: Reads, q: Query, terms: seq<Text>)
    requires AllSound(g, seen, q)
    ensures AnyTrue(Inputs(g, seen, q, terms)) <==> SomeContained(g.vocabulary(q.field), q.value, terms)
  {
    var inputs := Inputs(g, seen, q, terms);
    if AnyTrue(inputs) {
      var i :| 0 <= i < |inputs| && inputs[i].result;
      PrimitiveIsRight(g, seen(i), q, terms[i]);
      assert terms[i] in terms;
    }
    if SomeContained(g.vocabulary(q.field), q.value, terms) {
      var t :| t in terms && Contains(g.vocabulary(q.field), q.value, t);
      var i :| 0 <= i < |terms| && terms[i] == t;
      PrimitiveIsRight(g, seen(i), q, t);
      assert inputs[i].result;
    }
  }

  /** What composition answers for a declared set. */
  predicate ComposedAnswer(g: Registry, seen: Reads, q: Query, declared: Json) {
    AnyTrue(Inputs(g, seen, q, DeclaredTerms(g, q.field, Some(declared))))
  }

  /** The composed answer is the disjunction, over the declared terms, of direct `contains`. */
  lemma {:induction false} ComposedIsDisjunction(g: Registry, seen: Reads, q: Query, declared: Json)
    requires AllSound(g, seen, q)
    ensures ComposedAnswer(g, seen, q, declared)
       <==> SomeContained(g.vocabulary(q.field), q.value, NormalizeSet(g.vocabulary(q.field), declared))
  {
    var ts := NormalizeSet(g.vocabulary(q.field), declared);
    AnyTrueInputs(g, seen, q, Distinct(ts));
    DistinctMembers(ts);
  }

  lemma {:induction false} NormalizedIsFixed(vocabulary: Option<Vocabulary>, value: Json, t: Text)
    requires Idempotent(vocabulary) && t in NormalizeSet(vocabulary, value)
    ensures NormalizeFieldTerm(vocabulary, t) == t
  {
    var i :| 0 <= i < |NormalizeSet(vocabulary, value)| && NormalizeSet(vocabulary, value)[i] == t;
    SplitSetValueNotBlank(value, i);
  }

  lemma {:induction false} TrimmedItemsNotBlank(ts: seq<Text>)
    ensures forall i :: 0 <= i < |TrimmedItems(ts)| ==> !Blank(TrimmedItems(ts)[i])
  {
    if ts != [] {
      TrimmedItemsNotBlank(ts[1..]);
      TrimResult(ts[0]);
    }
  }

  lemma {:induction false} SplitSetValueNotBlank(value: Json, i: nat)
    requires i < |SplitSetValue(value)|
    ensures !Blank(SplitSetValue(value)[i])
  {
    match value {
      case Arr(es) => TrimmedItemsNotBlank(ScalarTexts(es));
      case Str(s) => TrimmedItemsNotBlank(Pieces(s));
      case Null =>
      case Obj(_) => TrimmedItemsNotBlank([Print(value)]);
      case _ => TrimmedItemsNotBlank([Stringify(value)]);
    }
  }

  ghost predicate AllFixed(vocabulary: Option<Vocabulary>, ds: seq<Text>) {
    forall t :: t in ds ==> NormalizeFieldTerm(vocabulary, t) == t
  }

  lemma {:induction false} FixedMembership(vocabulary: Option<Vocabulary>, ds: seq<Text>, vs: seq<Text>)
    requires AllFixed(vocabulary, ds)
    ensures (exists t :: t in ds && NormalizeFieldTerm(vocabulary, t) in vs)
       <==> exists i :: 0 <= i < |ds| && ds[i] in vs
  {
    if t :| t in ds && NormalizeFieldTerm(vocabulary, t) in vs {
      var i :| 0 <= i < |ds| && ds[i] == t;
    }
    if i :| 0 <= i < |ds| && ds[i] in vs {
      assert ds[i] in ds;
    }
  }

  lemma {:induction false} DeclaredAreFixed(vocabulary: Option<Vocabulary>, declared: Json)
    requires Idempotent(vocabulary)
    ensures AllFixed(vocabulary, NormalizeSet(vocabulary, declared))
  {
    forall t | t in NormalizeSet(vocabulary, declared) ensures NormalizeFieldTerm(vocabulary, t) == t {
      NormalizedIsFixed(vocabulary, declared, t);
    }
  }

  lemma {:induction false} ContainsIsMembership(vocabulary: Option<Vocabulary>, value: Json, declared: Json)
    requires Idempotent(vocabulary)
    ensures SomeContained(vocabulary, value, NormalizeSet(vocabulary, declared))
            <==> Overlaps(vocabulary, value, declared)
  {
    DeclaredAreFixed(vocabulary, declared);
    FixedMembership(vocabulary, NormalizeSet(vocabulary, declared), NormalizeSet(vocabulary, value));
  }

  /** Composed `overlaps` equals direct evaluation for every declared set, every value and
      every sound cache, each term read at its own moment, when normalizing twice is
      normalizing once. */
  lemma {:induction false} ComposedOverlapsIsDirect(g: Registry, seen: Reads, q: Query, declared: Json)
    requires Idempotent(g.vocabulary(q.field)) && AllSound(g, seen, q)
    ensures ComposedAnswer(g, seen, q, declared) <==> Overlaps(g.vocabulary(q.field), q.value, declared)
  {
    ComposedIsDisjunction(g, seen, q, declared);
    ContainsIsMembership(g.vocabulary(q.field), q.value, declared);
  }

  const NO_ROWS: Reads := _ => Snapshot([], 0)

  ghost predicate CompositionFaithful(g: Registry, field: Text) {
    forall q: Query, declared: Json | q.field == field ::
      ComposedAnswer(g, NO_ROWS, q, declared) <==> Overlaps(g.vocabulary(field), q.value, declared)
  }

  /** And only then: some spelling that normalizes differently the second time makes a
      one-element set fail to overlap itself. */
  lemma {:induction false} CompositionFaithfulIff(g: Registry, field: Text)
    ensures CompositionFaithful(g, field) <==> Idempotent(g.vocabulary(field))
  {
    if Idempotent(g.vocabulary(field)) {
      forall q: Query, declared: Json | q.field == field
        ensures ComposedAnswer(g, NO_ROWS, q, declared) <==> Overlaps(g.vocabulary(field), q.value, declared)
      {
        ComposedOverlapsIsDirect(g, NO_ROWS, q, declared);
      }
    } else {
      var v :| !Blank(v) && !Settled(g.vocabulary(field), v);
      UnsettledSpellingMisses(g, field, [], v);
    }
  }

  lemma {:induction false} NormalizeOfTrimmed(vocabulary: Option<Vocabulary>, v: Text)
    ensures NormalizeFieldTerm(vocabulary, Trim(v)) == NormalizeFieldTerm(vocabulary, v)
  {
    TrimResult(v);
  }

  function Singleton(v: Text): Json {
    Arr([Str(v)])
  }

  /** The set holding just `v`, as a value. */
  lemma {:induction false} SingletonSet(vocabulary: Option<Vocabulary>, v: Text)
    requires !Blank(v)
    ensures NormalizeSet(vocabulary, Singleton(v)) == [NormalizeFieldTerm(vocabulary, v)]
  {
    var es := [Str(v)];
    assert es[1..] == [];
    assert ScalarTexts(es) == [v];
    var t := Trim(v);
    assert [v][1..] == [];
    assert TrimmedItems([v]) == [t];
    NormalizeOfTrimmed(vocabulary, v);
    assert SplitSetValue(Arr(es)) == [t];
    assert NormalizeAll(vocabulary, [t]) == [NormalizeFieldTerm(vocabulary, t)];
  }

  /** The set of one unsettled spelling overlaps itself, but its composition says it does not. */
  lemma {:induction false} UnsettledSpellingMisses(g: Registry, field: Text, subject: Text, v: Text)
    requires !Blank(v) && !Settled(g.vocabulary(field), v)
    ensures Overlaps(g.vocabulary(field), Singleton(v), Singleton(v))
    ensures !ComposedAnswer(g, NO_ROWS, Query(subject, field, Singleton(v), 0), Singleton(v))
  {
    var q := Query(subject, field, Singleton(v), 0);
    var t := NormalizeFieldTerm(g.vocabulary(field), v);
    SingletonSet(g.vocabulary(field), v);
    assert Overlaps(g.vocabulary(field), Singleton(v), Singleton(v)) by { assert [t][0] in [t]; }
    ComposedIsDisjunction(g, NO_ROWS, q, Singleton(v));
    assert !Contains(g.vocabulary(field), q.value, t);
  }

  const P: Text := [112]
  const Q: Text := [113]
  const R: Text := [114]

  /** p also spelled q, and q also spelled r. */
  const CHAINED: Vocabulary := [TermEntry(P, [Q]), TermEntry(Q, [R])]

  lemma {:induction false} PlainLetter(t: Text)
    requires t == P || t == Q || t == R
    ensures NormalizeTermValue(t) == t && !Blank(t)
  {
    assert Lower(t) == t;
  }

  lemma {:induction false} ChainedTerms()
    ensures NormalizeFieldTerm(Some(CHAINED), R) == Q && NormalizeFieldTerm(Some(CHAINED), Q) == P
  {
    PlainLetter(P);
    PlainLetter(Q);
    PlainLetter(R);
    assert Spellings(CHAINED[0]) == [P, Q] && Spellings(CHAINED[1]) == [Q, R];
    assert Accepts(CHAINED[0], Q) by { assert NormalizeTermValue(Spellings(CHAINED[0])[1]) == Q; }
    assert !Accepts(CHAINED[0], R);
    assert Accepts(CHAINED[1], R) by { assert NormalizeTermValue(Spellings(CHAINED[1])[1]) == R; }
    assert CHAINED[1..] == [CHAINED[1]];
    assert Canonical(CHAINED[1..], R) == Some(Q);
    assert Canonical(CHAINED, R) == Some(Q);
  }

  /** A registry on which it fails: "r" normalizes to "q", and "q" to "p". */
  lemma {:induction false} ChainedVocabularyMisses(g: Registry, field: Text, subject: Text)
    requires g.vocabulary(field) == Some(CHAINED)
    ensures Overlaps(g.vocabulary(field), Singleton(R), Singleton(R))
    ensures !ComposedAnswer(g, NO_ROWS, Query(subject, field, Singleton(R), 0), Singleton(R))
  {
    ChainedTerms();
    PlainLetter(R);
    UnsettledSpellingMisses(g, field, subject, R);
  }

  // ---- Every posed predicate -------------------------------------------------------------

  /** The argument a row is filed under evaluates as the one that was posed. */
  ghost predicate SettledArg(g: Registry, field: Text, r: Request) {
    match r.kind
    case ContainsTerm => r.arg.Some? && r.arg.value.Str? ==> Settled(g.vocabulary(field), r.arg.value.text)
    case Gte => TrimsAlike(g, field, r.arg, true)
    case Lte => TrimsAlike(g, field, r.arg, false)
    case _ => true
  }

  ghost predicate TrimsAlike(g: Registry, field: Text, arg: Option<Json>, atLeast: bool) {
    arg.Some? ==>
      var filed := Some(Trimmed(arg.value));
      forall v :: Ordered(g, field, v, filed, atLeast) == Ordered(g, field, v, arg, atLeast)
  }

  lemma {:induction false} FiledArgEvaluatesAlike(g: Registry, field: Text, value: Json, r: Request)
    requires r.kind != OverlapsSet && SettledArg(g, field, r) && WellFormedArg(r.arg)
    requires NormalizeArg(g, field, r.kind, r.arg).Some?
    ensures var a := NormalizeArg(g, field, r.kind, r.arg).value;
            WellFormedArg(a) && Evaluate(g, field, value, r.kind, a) == Evaluate(g, field, value, r.kind, r.arg)
  {
    if r.arg.Some? && r.arg.value.Str? {
      TrimResult(r.arg.value.text);
    }
  }

  /** What the filed argument can answer on a value, the posed one answers too. */
  predicate FiledAnswers(g: Registry, field: Text, r: Request, filed: Option<Json>, value: Json) {
    var result := Evaluate(g, field, value, r.kind, filed);
    result.Some? ==> Evaluate(g, field, value, r.kind, r.arg) == result
  }

  ghost predicate FiledAlike(g: Registry, field: Text, r: Request) {
    var filed := NormalizeArg(g, field, r.kind, r.arg);
    filed.Some? ==> forall v :: FiledAnswers(g, field, r, filed.value, v)
  }

  /** Composed from faithful parts, or filed under an argument that answers alike. */
  ghost predicate AnswersFaithfully(g: Registry, field: Text, r: Request) {
    if r.kind == OverlapsSet then Idempotent(g.vocabulary(field)) else FiledAlike(g, field, r)
  }

  lemma {:induction false} SettledIsFiledAlike(g: Registry, field: Text, r: Request)
    requires r.kind != OverlapsSet && SettledArg(g, field, r) && WellFormedArg(r.arg)
    ensures FiledAlike(g, field, r)
  {
    var filed := NormalizeArg(g, field, r.kind, r.arg);
    if filed.Some? {
      forall v ensures FiledAnswers(g, field, r, filed.value, v) {
        FiledArgEvaluatesAlike(g, field, v, r);
      }
    }
  }

  lemma {:induction false} FiledArgIsWellFormed(g: Registry, field: Text, r: Request)
    requires WellFormedArg(r.arg) && NormalizeArg(g, field, r.kind, r.arg).Some?
    ensures WellFormedArg(NormalizeArg(g, field, r.kind, r.arg).value)
  {
    if r.arg.Some? && r.arg.value.Str? { TrimResult(r.arg.value.text); }
  }

  function PrimitiveResult(g: Registry, at: Snapshot, q: Query, r: Request): Option<bool> {
    var c := Primitive(g, at, q, r);
    if c.Some? then Some(c.value.result) else None
  }

  lemma {:induction false} FiledAlikeIsCurrent(g: Registry, at: Snapshot, q: Query, r: Request)
    requires SoundAt(g, at, q) && r.kind != OverlapsSet && WellFormedArg(r.arg) && FiledAlike(g, q.field, r)
    ensures PrimitiveResult(g, at, q, r) == Evaluate(g, q.field, q.value, r.kind, r.arg)
  {
    var filed := NormalizeArg(g, q.field, r.kind, r.arg);
    if filed.Some? {
      FiledArgIsWellFormed(g, q.field, r);
      CachedIsRight(g, at, q, r.kind, filed.value);
      assert FiledAnswers(g, q.field, r, filed.value, q.value);
    }
  }

  /** Whatever is posed over a sound cache, of whatever kind, cached or fresh: the answer is
      its evaluation on the value, and without one the field forbids it or it throws. */
  lemma {:induction false} PosedAnswerIsCurrent(g: Registry, seen: Reads, q: Query, r: Request)
    requires AllSound(g, seen, q) && WellFormedArg(r.arg) && AnswersFaithfully(g, q.field, r)
    ensures var a := Answer(g, seen, q, r);
            && (a.Some? ==> Evaluate(g, q.field, q.value, r.kind, r.arg) == Some(a.value.0.claim.result))
            && (a.None? <==> !Allowed(g, q.field, r) || Evaluate(g, q.field, q.value, r.kind, r.arg) == None)
  {
    if r.kind == OverlapsSet {
      if r.arg.Some? { ComposedOverlapsIsDirect(g, seen, q, r.arg.value); }
    } else {
      FiledAlikeIsCurrent(g, seen(0), q, r);
    }
  }

  /** A blank `contains` argument is settled too, unless the registry lists a blank spelling. */
  lemma {:induction false} BlankIsSettled(terms: Vocabulary, v: Text)
    requires Blank(v)
    requires forall i, j :: 0 <= i < |terms| && 0 <= j < |Spellings(terms[i])| ==> !Blank(Spellings(terms[i])[j])
    ensures Settled(Some(terms), v)
  {
    NormalizeTermValueIdempotent(v);
    if Canonical(terms, NormalizeTermValue(v)).Some? {
      var i, j := CanonicalHasListedSpelling(terms, NormalizeTermValue(v));
    }
  }

  /** Whatever sound cache is read: the answer is the evaluation of what was posed. */
  ghost predicate AlwaysCurrent(g: Registry, field: Text, r: Request) {
    forall at: Snapshot, q: Query | q.field == field && SoundAt(g, at, q) ::
      PrimitiveResult(g, at, q, r) == Evaluate(g, field, q.value, r.kind, r.arg)
  }

  /** For every posed predicate but `overlaps`, and every argument: it is answered rightly
      from every sound cache exactly when no value tells the argument it is filed under from
      the one that was posed. */
  lemma {:induction false} AlwaysCurrentIff(g: Registry, field: Text, r: Request)
    requires r.kind != OverlapsSet && WellFormedArg(r.arg)
    ensures AlwaysCurrent(g, field, r) <==> FiledAlike(g, field, r)
  {
    if FiledAlike(g, field, r) {
      forall at: Snapshot, q: Query | q.field == field && SoundAt(g, at, q)
        ensures PrimitiveResult(g, at, q, r) == Evaluate(g, field, q.value, r.kind, r.arg)
      {
        FiledAlikeIsCurrent(g, at, q, r);
      }
    } else {
      var filed := NormalizeArg(g, field, r.kind, r.arg).value;
      var v :| !FiledAnswers(g, field, r, filed, v);
      var at := FiledRowMisleads(g, Query([], field, v, 0), r, filed);
    }
  }

  /** The row that says, truly, what the filed argument evaluates to. */
  function FiledRow(g: Registry, q: Query, kind: Predicate, filed: Option<Json>, result: bool): Row {
    Row(q.subject, KeyFor(g, q, kind, filed), q.field, kind, filed, result, [], 0, 1, false)
  }

  lemma {:induction false} FiledRowIsSound(g: Registry, q: Query, kind: Predicate, filed: Option<Json>, result: bool)
    requires kind != OverlapsSet && WellFormedArg(filed)
    requires Evaluate(g, q.field, q.value, kind, filed) == Some(result)
    ensures SoundAt(g, Snapshot([FiledRow(g, q, kind, filed, result)], 0), q)
  {
    var row := FiledRow(g, q, kind, filed, result);
    forall r, p, a | r in [row] && p != OverlapsSet && WellFormedArg(a) && Matches(r, q.subject, KeyFor(g, q, p, a), 0)
      ensures Evaluate(g, q.field, q.value, p, a) == Some(r.result)
    {
      CacheKeyIdentifies(g.le, q.subject, q.field, kind, filed, q.subject, q.field, p, a);
      EvaluateRespectsSameArg(g, q.field, q.value, kind, filed, a);
    }
  }

  lemma {:induction false} FiledRowIsRead(g: Registry, q: Query, kind: Predicate, filed: Option<Json>, result: bool)
    ensures var c := Cached(g, Snapshot([FiledRow(g, q, kind, filed, result)], 0), q, kind, filed);
            c.Some? && c.value.result == result
  {
    var row := FiledRow(g, q, kind, filed, result);
    assert row in [row] && Matches(row, q.subject, KeyFor(g, q, kind, filed), 0);
    ReadCachedFinds([row], q.subject, KeyFor(g, q, kind, filed), 0);
  }

  lemma {:induction false} FiledRowMisleads(g: Registry, q: Query, r: Request, filed: Option<Json>)
    returns (at: Snapshot)
    requires r.kind != OverlapsSet && WellFormedArg(r.arg)
    requires NormalizeArg(g, q.field, r.kind, r.arg) == Some(filed) && !FiledAnswers(g, q.field, r, filed, q.value)
    ensures SoundAt(g, at, q) && PrimitiveResult(g, at, q, r) != Evaluate(g, q.field, q.value, r.kind, r.arg)
  {
    var result := Evaluate(g, q.field, q.value, r.kind, filed).value;
    at := Snapshot([FiledRow(g, q, r.kind, filed, result)], 0);
    FiledArgIsWellFormed(g, q.field, r);
    FiledRowIsSound(g, q, r.kind, filed, result);
    FiledRowIsRead(g, q, r.kind, filed, result);
  }

  function PosedContains(arg: Text): Request {
    Request(ContainsTerm, Some(Str(arg)))
  }

  /** Some item of a set can normalize to this term. */
  ghost predicate Spelled(vocabulary: Option<Vocabulary>, term: Text) {
    exists s :: !Blank(s) && NormalizeFieldTerm(vocabulary, s) == term
  }

  lemma {:induction false} ItemsAreSpelled(vocabulary: Option<Vocabulary>, value: Json, term: Text)
    requires term in NormalizeSet(vocabulary, value)
    ensures Spelled(vocabulary, term)
  {
    var i :| 0 <= i < |NormalizeSet(vocabulary, value)| && NormalizeSet(vocabulary, value)[i] == term;
    SplitSetValueNotBlank(value, i);
  }

  lemma {:induction false} SpelledTellsApart(g: Registry, field: Text, arg: Text, spelling: Text)
    requires !Blank(spelling) && !Settled(g.vocabulary(field), arg)
    requires var term := NormalizeFieldTerm(g.vocabulary(field), arg);
             || NormalizeFieldTerm(g.vocabulary(field), spelling) == term
             || NormalizeFieldTerm(g.vocabulary(field), spelling) == NormalizeFieldTerm(g.vocabulary(field), term)
    ensures !FiledAlike(g, field, PosedContains(arg))
  {
    var term := NormalizeFieldTerm(g.vocabulary(field), arg);
    SingletonSet(g.vocabulary(field), spelling);
    assert !FiledAnswers(g, field, PosedContains(arg), Some(Str(term)), Singleton(spelling));
  }

  /** For a posed `contains`, blank or not: exactly when normalizing its term again changes
      nothing, or no item of a set normalizes to the term or to what it would change to. */
  lemma {:induction false} ContainsAlwaysCurrentIff(g: Registry, field: Text, arg: Text)
    ensures var vocabulary := g.vocabulary(field);
            var term := NormalizeFieldTerm(vocabulary, arg);
            AlwaysCurrent(g, field, PosedContains(arg))
            <==> Settled(vocabulary, arg)
                 || (!Spelled(vocabulary, term) && !Spelled(vocabulary, NormalizeFieldTerm(vocabulary, term)))
  {
    var vocabulary := g.vocabulary(field);
    var term := NormalizeFieldTerm(vocabulary, arg);
    var again := NormalizeFieldTerm(vocabulary, term);
    AlwaysCurrentIff(g, field, PosedContains(arg));
    if !Settled(vocabulary, arg) {
      if s :| !Blank(s) && (NormalizeFieldTerm(vocabulary, s) == term || NormalizeFieldTerm(vocabulary, s) == again) {
        SpelledTellsApart(g, field, arg, s);
      } else {
        forall v ensures FiledAnswers(g, field, PosedContains(arg), Some(Str(term)), v) {
          if term in NormalizeSet(vocabulary, v) { ItemsAreSpelled(vocabulary, v, term); }
          if again in NormalizeSet(vocabulary, v) { ItemsAreSpelled(vocabulary, v, again); }
        }
      }
    }
  }

  /** So for an argument that is not blank: exactly when it is settled. */
  lemma {:induction false} NonBlankAlwaysCurrentIff(g: Registry, field: Text, arg: Text)
    requires !Blank(arg)
    ensures AlwaysCurrent(g, field, PosedContains(arg)) <==> Settled(g.vocabulary(field), arg)
  {
    ContainsAlwaysCurrentIff(g, field, arg);
    assert Spelled(g.vocabulary(field), NormalizeFieldTerm(g.vocabulary(field), arg));
  }

  // ---- What gets written --------------------------------------------------------------

  lemma {:induction false} FreshMembers(cs: seq<Claim>)
    ensures forall c :: c in FreshOnes(cs) <==> c in cs && !c.cached
  {
    if cs != [] {
      FreshMembers(cs[..|cs| - 1]);
      assert cs == cs[..|cs| - 1] + [cs[|cs| - 1]];
    }
  }

  ghost predicate Warm(g: Registry, at: Snapshot, q: Query, t: Text) {
    exists r :: r in at.rows && Matches(r, q.subject, KeyFor(g, q, ContainsTerm, Some(Str(t))), at.now)
  }

  lemma {:induction false} FreshIffCold(g: Registry, at: Snapshot, q: Query, t: Text)
    ensures ContainsPrimitive(g, at, q, t).cached <==> Warm(g, at, q, t)
    ensures !Warm(g, at, q, t) ==> ContainsPrimitive(g, at, q, t).arg == Some(Str(t))
  {
    ReadCachedFinds(at.rows, q.subject, KeyFor(g, q, ContainsTerm, Some(Str(t))), at.now);
  }

  ghost predicate DistinctArgs(cs: seq<Claim>) {
    forall i, j :: 0 <= i < j < |cs| ==> cs[i].arg != cs[j].arg
  }

  predicate ArgFrom(c: Claim, terms: seq<Text>) {
    c.arg.Some? && c.arg.value.Str? && c.arg.value.text in terms
  }

  ghost predicate ArgsFrom(cs: seq<Claim>, terms: seq<Text>) {
    forall k :: 0 <= k < |cs| ==> ArgFrom(cs[k], terms)
  }

  /** Fresh claims that carry distinct terms, each its own, stay distinct. */
  lemma {:induction false} FreshArgsDistinct(cs: seq<Claim>, terms: seq<Text>)
    requires |cs| == |terms| && (forall i, j :: 0 <= i < j < |terms| ==> terms[i] != terms[j])
    requires forall i :: 0 <= i < |cs| && !cs[i].cached ==> cs[i].arg == Some(Str(terms[i]))
    ensures DistinctArgs(FreshOnes(cs)) && ArgsFrom(FreshOnes(cs), terms)
  {
    if cs != [] {
      var n := |cs| - 1;
      FreshArgsDistinct(cs[..n], terms[..n]);
      assert terms == terms[..n] + [terms[n]];
      if cs[n].cached {
        assert FreshOnes(cs) == FreshOnes(cs[..n]);
      } else {
      }
    }
  }

  /** Resolving a declared set writes one row for each of its terms that is cold when it is
      read, and nothing else. */
  lemma {:induction false} WritesExactlyTheColdTerms(g: Registry, seen: Reads, q: Query, declared: Json, t: Text)
    ensures var terms := DeclaredTerms(g, q.field, Some(declared));
            var writes := FreshOnes(Inputs(g, seen, q, terms));
            && DistinctArgs(writes)
            && ((exists c :: c in writes && c.arg == Some(Str(t)))
                <==> exists i :: 0 <= i < |terms| && terms[i] == t && !Warm(g, seen(i), q, t))
    ensures var terms := DeclaredTerms(g, q.field, Some(declared));
            t in terms <==> t in NormalizeSet(g.vocabulary(q.field), declared)
  {
    var terms := DeclaredTerms(g, q.field, Some(declared));
    var inputs := Inputs(g, seen, q, terms);
    DistinctMembers(NormalizeSet(g.vocabulary(q.field), declared));
    forall i | 0 <= i < |terms| && !inputs[i].cached ensures inputs[i].arg == Some(Str(terms[i])) {
      FreshIffCold(g, seen(i), q, terms[i]);
    }
    FreshArgsDistinct(inputs, terms);
    WrittenIffCold(g, seen, q, terms, t);
  }

  lemma {:induction false} WrittenIffCold(g: Registry, seen: Reads, q: Query, terms: seq<Text>, t: Text)
    ensures (exists c :: c in FreshOnes(Inputs(g, seen, q, terms)) && c.arg == Some(Str(t)))
       <==> exists i :: 0 <= i < |terms| && terms[i] == t && !Warm(g, seen(i), q, t)
  {
    var inputs := Inputs(g, seen, q, terms);
    FreshMembers(inputs);
    if c :| c in FreshOnes(inputs) && c.arg == Some(Str(t)) {
      var i :| 0 <= i < |inputs| && inputs[i] == c;
      FreshIffCold(g, seen(i), q, terms[i]);
    }
    if i :| 0 <= i < |terms| && terms[i] == t && !Warm(g, seen(i), q, t) {
      FreshIffCold(g, seen(i), q, t);
      assert inputs[i] in inputs;
    }
  }

  function RowOf(q: Query, c: Claim): Row {
    Row(q.subject, c.cacheKey, c.field, c.kind, c.arg, c.result, c.hashed, c.issuedAt, c.expiresAt, false)
  }

  function RowsOf(q: Query, cs: seq<Claim>): seq<Row> {
    seq(|cs|, i requires 0 <= i < |cs| => RowOf(q, cs[i]))
  }

  lemma {:induction false} AllCachedNothingFresh(cs: seq<Claim>)
    requires forall i :: 0 <= i < |cs| ==> cs[i].cached
    ensures FreshOnes(cs) == []
  {
    if cs != [] { AllCachedNothingFresh(cs[..|cs| - 1]); }
  }

  /** The same reads, once `rows` have been stored. */
  function AfterStoring(seen: Reads, rows: seq<Row>): Reads {
    (i: nat) => Snapshot(seen(i).rows + rows, seen(i).now)
  }

  lemma {:induction false} StoredIsWarm(g: Registry, seen: Reads, q: Query, terms: seq<Text>, i: nat)
    requires i < |terms| && seen(i).now < q.now + CLAIM_TTL_MS
    ensures var stored := RowsOf(q, FreshOnes(Inputs(g, seen, q, terms)));
            Warm(g, AfterStoring(seen, stored)(i), q, terms[i])
  {
    var t := terms[i];
    var inputs := Inputs(g, seen, q, terms);
    var writes := FreshOnes(inputs);
    var rows := seen(i).rows + RowsOf(q, writes);
    if Warm(g, seen(i), q, t) {
      var r :| r in seen(i).rows && Matches(r, q.subject, KeyFor(g, q, ContainsTerm, Some(Str(t))), seen(i).now);
      assert r in rows;
    } else {
      var c := ContainsPrimitive(g, seen(i), q, t);
      FreshIffCold(g, seen(i), q, t);
      FreshMembers(inputs);
      assert inputs[i] == c;
      var k :| 0 <= k < |writes| && writes[k] == c;
      assert RowsOf(q, writes)[k] == RowOf(q, c);
      assert RowOf(q, c) in rows;
      ReadCachedFinds(seen(i).rows, q.subject, KeyFor(g, q, ContainsTerm, Some(Str(t))), seen(i).now);
    }
  }

  /** Once those rows are stored, resolving the same set again within the hour writes nothing. */
  lemma {:induction false} ResolvingAgainWritesNothing(g: Registry, seen: Reads, q: Query, declared: Json)
    requires forall i: nat :: seen(i).now < q.now + CLAIM_TTL_MS
    ensures var terms := DeclaredTerms(g, q.field, Some(declared));
            var stored := RowsOf(q, FreshOnes(Inputs(g, seen, q, terms)));
            FreshOnes(Inputs(g, AfterStoring(seen, stored), q, terms)) == []
  {
    var terms := DeclaredTerms(g, q.field, Some(declared));
    var later := AfterStoring(seen, RowsOf(q, FreshOnes(Inputs(g, seen, q, terms))));
    var again := Inputs(g, later, q, terms);
    forall i | 0 <= i < |again| ensures again[i].cached {
      StoredIsWarm(g, seen, q, terms, i);
      FreshIffCold(g, later(i), q, terms[i]);
    }
    AllCachedNothingFresh(again);
  }
}
