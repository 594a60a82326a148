/** Predicate claims: every posed predicate is answered from a cache of signed rows or
    evaluated afresh, and `overlaps` is composed from `contains` answers. The text a hash
    digests stands for the digest. */
module PredicateClaims {
  import opened Wrappers
  import opened JsonText
  import opened JsStrings
  import opened StableSort
  import opened CanonicalJson
  import opened TermVocabulary

  const CLAIM_TTL_MS := 60 * 60 * 1000

  const SEMICOLON: Unit := 59

  datatype Predicate = Eq | Gte | Lte | IsEmpty | ContainsTerm | OverlapsSet

  /** What resolution consults: the key comparison, each field's vocabulary and permitted
      predicates, and the ordering of two scalars (None: it throws). */
  datatype Registry = Registry(
    le: (Text, Text) -> bool,
    vocabulary: Text -> Option<Vocabulary>,
    permits: (Text, Predicate) -> bool,
    ordered: (Text, Json, Json, bool) -> Option<bool>)

  // ---- Direct evaluation --------------------------------------------------------------

  /** `split(/[;,]/)`. */
  function Pieces(s: Text): (ps: seq<Text>)
    ensures ps != []
  {
    if s == [] then [[]]
    else
      var rest := Pieces(s[1..]);
      if s[0] == SEMICOLON || s[0] == COMMA then [[]] + rest else [[s[0]] + rest[0]] + rest[1..]
  }

  function ScalarTexts(es: seq<Json>): seq<Text> {
    if es == [] then []
    else
      (match es[0]
       case Str(s) => [s]
       case Num(_) => [Stringify(es[0])]
       case Bool(_) => [Stringify(es[0])]
       case _ => [])
      + ScalarTexts(es[1..])
  }

  /** Trim every item and keep those that are not empty. */
  function TrimmedItems(ts: seq<Text>): seq<Text> {
    if ts == [] then [] else (if Trim(ts[0]) == [] then [] else [Trim(ts[0])]) + TrimmedItems(ts[1..])
  }

  function SplitSetValue(value: Json): seq<Text> {
    match value
    case Arr(es) => TrimmedItems(ScalarTexts(es))
    case Str(s) => TrimmedItems(Pieces(s))
    case Null => []
    case Obj(_) => TrimmedItems([Print(value)])
    case _ => TrimmedItems([Stringify(value)])
  }

  function NormalizeAll(vocabulary: Option<Vocabulary>, ts: seq<Text>): seq<Text> {
    seq(|ts|, i requires 0 <= i < |ts| => NormalizeFieldTerm(vocabulary, ts[i]))
  }

  function NormalizeSet(vocabulary: Option<Vocabulary>, value: Json): seq<Text> {
    NormalizeAll(vocabulary, SplitSetValue(value))
  }

  predicate Contains(vocabulary: Option<Vocabulary>, value: Json, arg: Text) {
    NormalizeFieldTerm(vocabulary, arg) in NormalizeSet(vocabulary, value)
  }

  predicate Overlaps(vocabulary: Option<Vocabulary>, value: Json, declared: Json) {
    var ds := NormalizeSet(vocabulary, declared);
    exists i :: 0 <= i < |ds| && ds[i] in NormalizeSet(vocabulary, value)
  }

  predicate IsScalar(j: Json) {
    !j.Arr? && !j.Obj?
  }

  /** normalizeScalar: strings are trimmed. */
  function Trimmed(j: Json): Json {
    if j.Str? then Str(Trim(j.text)) else j
  }

  /** `===` on the trimmed values; objects and arrays come from separate parses, so no two
      of them are one. */
  predicate SameScalar(a: Json, b: Json) {
    IsScalar(a) && IsScalar(b) && Trimmed(a) == Trimmed(b)
  }

  predicate IsEmptyValue(value: Json) {
    match value
    case Null => true
    case Str(s) => Trim(s) == []
    case Arr(es) => es == []
    case Obj(fs) => fs == []
    case _ => false
  }

  /** compareOrdered: only numbers and strings compare, and not all of those. */
  function Ordered(g: Registry, field: Text, value: Json, arg: Option<Json>, atLeast: bool): Option<bool> {
    if (value.Num? || value.Str?) && arg.Some? && (arg.value.Num? || arg.value.Str?)
    then g.ordered(field, value, arg.value, atLeast) else None
  }

  /** evaluatePredicate. None: it throws. A missing argument is None. */
  function Evaluate(g: Registry, field: Text, value: Json, kind: Predicate, arg: Option<Json>): Option<bool> {
    match kind
    case Eq => Some(arg.Some? && SameScalar(value, arg.value))
    case Gte => Ordered(g, field, value, arg, true)
    case Lte => Ordered(g, field, value, arg, false)
    case IsEmpty => Some(IsEmptyValue(value))
    case ContainsTerm =>
      if arg.Some? && arg.value.Str? then Some(Contains(g.vocabulary(field), value, arg.value.text)) else None
    case OverlapsSet => Some(arg.Some? && Overlaps(g.vocabulary(field), value, arg.value))
  }

  /** normalizePredicateArg, on what is not a set. None: it throws. */
  function NormalizeArg(g: Registry, field: Text, kind: Predicate, arg: Option<Json>): Option<Option<Json>> {
    if kind == ContainsTerm then
      if arg.Some? && arg.value.Str?
      then Some(Some(Str(NormalizeFieldTerm(g.vocabulary(field), arg.value.text))))
      else None
    else
      Some(if arg.Some? then Some(Trimmed(arg.value)) else None)
  }

  // ---- The cache ----------------------------------------------------------------------

  datatype Row = Row(subject: Text, cacheKey: Text, field: Text, kind: Predicate, arg: Option<Json>, result: bool,
                     hashed: Text, issuedAt: int, expiresAt: int, revoked: bool)

  const SUBJECT_KEY: Text := [115, 117, 98, 106, 101, 99, 116]
  const FIELD_KEY: Text := [102, 105, 101, 108, 100]
  const PREDICATE_KEY: Text := [112, 114, 101, 100, 105, 99, 97, 116, 101]
  const ARG_KEY: Text := [97, 114, 103]
  const UNDEFINED_TEXT: Text := [117, 110, 100, 101, 102, 105, 110, 101, 100]

  function PredicateName(p: Predicate): Text {
    match p
    case Eq => [101, 113]
    case Gte => [103, 116, 101]
    case Lte => [108, 116, 101]
    case IsEmpty => [105, 115, 95, 101, 109, 112, 116, 121]
    case ContainsTerm => [99, 111, 110, 116, 97, 105, 110, 115]
    case OverlapsSet => [111, 118, 101, 114, 108, 97, 112, 115]
  }

  /** The text of the argument inside a key; a missing one is interpolated as `undefined`. */
  function ArgText(le: (Text, Text) -> bool, arg: Option<Json>): Text {
    if arg.Some? then StableJson(le, arg.value) else UNDEFINED_TEXT
  }

  function KeyEntries(le: (Text, Text) -> bool, subject: Text, field: Text, p: Predicate, arg: Option<Json>)
    : seq<Entry<Text>>
  {
    [Entry(SUBJECT_KEY, Quote(subject)), Entry(FIELD_KEY, Quote(field)),
     Entry(PREDICATE_KEY, Quote(PredicateName(p))), Entry(ARG_KEY, ArgText(le, arg))]
  }

  /** What brokerPredicateCacheKey digests. */
  function CacheKey(le: (Text, Text) -> bool, subject: Text, field: Text, p: Predicate, arg: Option<Json>): Text {
    Brackets(OPEN_OBJECT, Join(Pairs(Sort(ByKey(le), KeyEntries(le, subject, field, p, arg)))), CLOSE_OBJECT)
  }

  function KeyFields(subject: Text, field: Text, p: Predicate, arg: Json): seq<Entry<Json>> {
    [Entry(SUBJECT_KEY, Str(subject)), Entry(FIELD_KEY, Str(field)),
     Entry(PREDICATE_KEY, Str(PredicateName(p))), Entry(ARG_KEY, arg)]
  }

  /** With an argument, that is `stableJson` of the four parameters. */
  lemma {:induction false} CacheKeyIsStableJson(
      le: (Text, Text) -> bool, subject: Text, field: Text, p: Predicate, arg: Json)
    ensures CacheKey(le, subject, field, p, Some(arg)) == StableJson(le, Obj(KeyFields(subject, field, p, arg)))
  {
    var fs, es := KeyFields(subject, field, p, arg), KeyEntries(le, subject, field, p, Some(arg));
    forall i | 0 <= i < 4 ensures es[i] == Entry(fs[i].key, StableJson(le, fs[i].value)) {
    }
    StableJsonFieldsAre(le, fs, es);
  }

  lemma {:induction false} StableJsonFieldsAre(le: (Text, Text) -> bool, fs: seq<Entry<Json>>, es: seq<Entry<Text>>)
    requires |fs| == |es| && forall i :: 0 <= i < |fs| ==> es[i] == Entry(fs[i].key, StableJson(le, fs[i].value))
    ensures StableJsonFields(le, fs) == es
  {
    if fs != [] {
      StableJsonFieldsAre(le, fs[1..], es[1..]);
      assert es == [es[0]] + es[1..];
    }
  }

  predicate Live(r: Row, now: int) {
    !r.revoked && r.expiresAt > now
  }

  predicate Matches(r: Row, subject: Text, key: Text, now: int) {
    r.subject == subject && r.cacheKey == key && Live(r, now)
  }

  /** What one cache read meets; a read that fails meets no rows. */
  datatype Snapshot = Snapshot(rows: seq<Row>, now: int)

  /** The latest issued live row under a key. */
  function ReadCached(rows: seq<Row>, subject: Text, key: Text, now: int): Option<Row> {
    if rows == [] then None
    else
      var r, rest := rows[0], ReadCached(rows[1..], subject, key, now);
      if Matches(r, subject, key, now) && (rest.None? || rest.value.issuedAt <= r.issuedAt) then Some(r) else rest
  }

  lemma {:induction false} ReadCachedFinds(rows: seq<Row>, subject: Text, key: Text, now: int)
    ensures var c := ReadCached(rows, subject, key, now);
            && (c.Some? ==> c.value in rows && Matches(c.value, subject, key, now))
            && (c.Some? ==> forall r :: r in rows && Matches(r, subject, key, now) ==> r.issuedAt <= c.value.issuedAt)
            && (c.None? ==> forall r :: r in rows ==> !Matches(r, subject, key, now))
  {
    if rows != [] {
      ReadCachedFinds(rows[1..], subject, key, now);
      assert rows == [rows[0]] + rows[1..];
    }
  }

  // ---- Resolution ---------------------------------------------------------------------

  /** `hashed` is the text that valueHash digests. */
  datatype Claim = Claim(field: Text, kind: Predicate, arg: Option<Json>, result: bool, hashed: Text, cacheKey: Text,
                         cached: bool, issuedAt: int, expiresAt: int)

  /** One resolution: the subject and field, the value it was handed and the time it began. */
  datatype Query = Query(subject: Text, field: Text, value: Json, now: int)

  datatype Request = Request(kind: Predicate, arg: Option<Json>)

  function FromRow(r: Row): Claim {
    Claim(r.field, r.kind, r.arg, r.result, r.hashed, r.cacheKey, true, r.issuedAt, r.expiresAt)
  }

  function KeyFor(g: Registry, q: Query, p: Predicate, arg: Option<Json>): Text {
    CacheKey(g.le, q.subject, q.field, p, arg)
  }

  function FreshClaim(g: Registry, q: Query, p: Predicate, arg: Option<Json>, result: bool): Claim {
    Claim(q.field, p, arg, result, StableJson(g.le, q.value), KeyFor(g, q, p, arg), false, q.now, q.now + CLAIM_TTL_MS)
  }

  function Cached(g: Registry, at: Snapshot, q: Query, p: Predicate, arg: Option<Json>): Option<Row> {
    ReadCached(at.rows, q.subject, KeyFor(g, q, p, arg), at.now)
  }

  /** resolveContainsPrimitive. */
  function ContainsPrimitive(g: Registry, at: Snapshot, q: Query, term: Text): Claim {
    var c := Cached(g, at, q, ContainsTerm, Some(Str(term)));
    if c.Some? then FromRow(c.value)
    else FreshClaim(g, q, ContainsTerm, Some(Str(term)), Contains(g.vocabulary(q.field), q.value, term))
  }

  /** `[...new Set(ts)]`: first occurrences, in order. */
  function Distinct(ts: seq<Text>): seq<Text> {
    if ts == [] then []
    else
      var front, last := Distinct(ts[..|ts| - 1]), ts[|ts| - 1];
      if last in front then front else front + [last]
  }

  /** The cache reads of one composition, each at its own moment: the loop awaits them. */
  type Reads = nat -> Snapshot

  function Inputs(g: Registry, seen: Reads, q: Query, terms: seq<Text>): seq<Claim> {
    seq(|terms|, i requires 0 <= i < |terms| => ContainsPrimitive(g, seen(i), q, terms[i]))
  }

  function FreshOnes(cs: seq<Claim>): seq<Claim> {
    if cs == [] then []
    else FreshOnes(cs[..|cs| - 1]) + if cs[|cs| - 1].cached then [] else [cs[|cs| - 1]]
  }

  predicate AnyTrue(cs: seq<Claim>) {
    exists i :: 0 <= i < |cs| && cs[i].result
  }

  function DeclaredTerms(g: Registry, field: Text, declared: Option<Json>): seq<Text> {
    if declared.Some? then Distinct(NormalizeSet(g.vocabulary(field), declared.value)) else []
  }

  datatype Resolved = Resolved(claim: Claim, composedFrom: seq<Text>)

  function KeysOf(cs: seq<Claim>): seq<Text> {
    seq(|cs|, i requires 0 <= i < |cs| => cs[i].cacheKey)
  }

  function TermsArray(ts: seq<Text>): Json {
    Arr(seq(|ts|, i requires 0 <= i < |ts| => Str(ts[i])))
  }

  /** The composed claim, and the fresh primitives beneath it to be cached. */
  function Compose(g: Registry, seen: Reads, q: Query, declared: Option<Json>): (Resolved, seq<Claim>) {
    var terms := DeclaredTerms(g, q.field, declared);
    var inputs := Inputs(g, seen, q, terms);
    (Resolved(FreshClaim(g, q, OverlapsSet, Some(TermsArray(terms)), AnyTrue(inputs)), KeysOf(inputs)),
     FreshOnes(inputs))
  }

  method ResolveOverlapsClaim(g: Registry, seen: Reads, q: Query, declared: Option<Json>)
    returns (claim: Resolved, cacheWrites: seq<Claim>)
    ensures (claim, cacheWrites) == Compose(g, seen, q, declared)
  {
    var declaredTerms := DeclaredTerms(g, q.field, declared);
    var inputs: seq<Claim> := [];
    cacheWrites := [];
    var any := false;
    for i := 0 to |declaredTerms|
      invariant inputs == Inputs(g, seen, q, declaredTerms[..i])
      invariant cacheWrites == FreshOnes(inputs)
      invariant any <==> AnyTrue(inputs)
    {
      var c := ContainsPrimitive(g, seen(i), q, declaredTerms[i]);
      InputsSnoc(g, seen, q, declaredTerms, i);
      ClaimsSnoc(inputs, c);
      inputs := inputs + [c];
      if !c.cached { cacheWrites := cacheWrites + [c]; }
      any := any || c.result;
    }
    assert declaredTerms[..|declaredTerms|] == declaredTerms;
    claim := Resolved(FreshClaim(g, q, OverlapsSet, Some(TermsArray(declaredTerms)), any), KeysOf(inputs));
  }

  lemma {:induction false} InputsSnoc(g: Registry, seen: Reads, q: Query, terms: seq<Text>, i: nat)
    requires i < |terms|
    ensures Inputs(g, seen, q, terms[..i + 1])
         == Inputs(g, seen, q, terms[..i]) + [ContainsPrimitive(g, seen(i), q, terms[i])]
  {
    var a, b := Inputs(g, seen, q, terms[..i + 1]), Inputs(g, seen, q, terms[..i]);
    assert |a| == i + 1 && |b| == i;
    assert a[i] == ContainsPrimitive(g, seen(i), q, terms[i]);
    forall k | 0 <= k < i ensures a[k] == b[k] {
      assert terms[..i + 1][k] == terms[k] == terms[..i][k];
    }
    assert a == b + [a[i]];
  }

  lemma {:induction false} ClaimsSnoc(cs: seq<Claim>, c: Claim)
    ensures FreshOnes(cs + [c]) == FreshOnes(cs) + if c.cached then [] else [c]
    ensures AnyTrue(cs + [c]) <==> AnyTrue(cs) || c.result
  {
    var all := cs + [c];
    assert all[..|all| - 1] == cs;
    assert all[|cs|] == c;
    assert forall k :: 0 <= k < |cs| ==> all[k] == cs[k];
  }

  /** A field that permits `overlaps` must permit the `contains` it is composed from. */
  predicate Allowed(g: Registry, field: Text, r: Request) {
    g.permits(field, r.kind) && (r.kind == OverlapsSet ==> g.permits(field, ContainsTerm))
  }

  /** A predicate answered on its own: from the cache if it can be, evaluated if not.
      None: its argument cannot be normalized, or the evaluation throws. */
  function Primitive(g: Registry, at: Snapshot, q: Query, r: Request): Option<Claim> {
    var arg := NormalizeArg(g, q.field, r.kind, r.arg);
    if arg.None? then None
    else
      var c := Cached(g, at, q, r.kind, arg.value);
      if c.Some? then Some(FromRow(c.value))
      else
        var result := Evaluate(g, q.field, q.value, r.kind, r.arg);
        if result.None? then None else Some(FreshClaim(g, q, r.kind, arg.value, result.value))
  }

  /** One posed predicate: its claim and what to cache. None: it throws. */
  function Answer(g: Registry, seen: Reads, q: Query, r: Request): Option<(Resolved, seq<Claim>)> {
    if !Allowed(g, q.field, r) then None
    else if r.kind == OverlapsSet then Some(Compose(g, seen, q, r.arg))
    else
      var c := Primitive(g, seen(0), q, r);
      if c.None? then None else Some((Resolved(c.value, []), if c.value.cached then [] else [c.value]))
  }

  method ResolveOne(g: Registry, seen: Reads, q: Query, r: Request) returns (answer: Option<(Resolved, seq<Claim>)>)
    ensures answer == Answer(g, seen, q, r)
  {
    if !Allowed(g, q.field, r) { return None; }
    if r.kind == OverlapsSet {
      var claim, writes := ResolveOverlapsClaim(g, seen, q, r.arg);
      return Some((claim, writes));
    }
    var arg := NormalizeArg(g, q.field, r.kind, r.arg);
    if arg.None? { return None; }
    var c := Cached(g, seen(0), q, r.kind, arg.value);
    if c.Some? { return Some((Resolved(FromRow(c.value), []), [])); }
    var result := Evaluate(g, q.field, q.value, r.kind, r.arg);
    if result.None? { return None; }
    var claim := FreshClaim(g, q, r.kind, arg.value, result.value);
    return Some((Resolved(claim, []), [claim]));
  }

  /** Claims and cache writes of all the answers, in order, unless one of them throws. */
  function Gather(answers: seq<Option<(Resolved, seq<Claim>)>>): Option<(seq<Resolved>, seq<Claim>)> {
    if answers == [] then Some(([], []))
    else
      var front, last := Gather(answers[..|answers| - 1]), answers[|answers| - 1];
      if front.None? || last.None? then None
      else Some((front.value.0 + [last.value.0], front.value.1 + last.value.1))
  }

  lemma {:induction false} GatherStopsAtFailure(answers: seq<Option<(Resolved, seq<Claim>)>>, i: nat)
    requires i < |answers| && answers[i].None?
    ensures Gather(answers).None?
  {
    if i < |answers| - 1 { GatherStopsAtFailure(answers[..|answers| - 1], i); }
  }

  lemma {:induction false} GatherSnoc(answers: seq<Option<(Resolved, seq<Claim>)>>, claims: seq<Resolved>,
                                      writes: seq<Claim>, i: nat)
    requires i < |answers| && answers[i].Some? && Gather(answers[..i]) == Some((claims, writes))
    ensures Gather(answers[..i + 1]) == Some((claims + [answers[i].value.0], writes + answers[i].value.1))
  {
    assert answers[..i + 1][..i] == answers[..i];
  }

  /** What was written came from one of the answers. */
  lemma {:induction false} GatheredFrom(answers: seq<Option<(Resolved, seq<Claim>)>>, c: Claim) returns (i: nat)
    requires Gather(answers).Some? && c in Gather(answers).value.1
    ensures i < |answers| && answers[i].Some? && c in answers[i].value.1
  {
    var n := |answers| - 1;
    if c in answers[n].value.1 {
      i := n;
    } else {
      i := GatheredFrom(answers[..n], c);
    }
  }

  /** The reads of a whole resolution, by predicate and then by term. */
  type AllReads = nat -> Reads

  function AnswersTo(g: Registry, seen: AllReads, q: Query, rs: seq<Request>): seq<Option<(Resolved, seq<Claim>)>> {
    seq(|rs|, i requires 0 <= i < |rs| => Answer(g, seen(i), q, rs[i]))
  }

  /** resolveBrokerPredicateClaimsForField. None: it throws. */
  method ResolveForField(g: Registry, seen: AllReads, q: Query, rs: seq<Request>)
    returns (r: Option<(seq<Resolved>, seq<Claim>)>)
    ensures r == Gather(AnswersTo(g, seen, q, rs))
  {
    ghost var answers := AnswersTo(g, seen, q, rs);
    var claims: seq<Resolved>, cacheWrites: seq<Claim> := [], [];
    for i := 0 to |rs|
      invariant Gather(answers[..i]) == Some((claims, cacheWrites))
    {
      var answer := ResolveOne(g, seen(i), q, rs[i]);
      assert answers[i] == answer;
      if answer.None? {
        GatherStopsAtFailure(answers, i);
        return None;
      }
      GatherSnoc(answers, claims, cacheWrites, i);
      claims := claims + [answer.value.0];
      cacheWrites := cacheWrites + answer.value.1;
    }
    assert answers[..|rs|] == answers;
    r := Some((claims, cacheWrites));
  }
}
