/** What one posed predicate is answered with: which row of the cache, which fresh claim, what
    is to be stored, and what the text says that a row is filed under. */
module PredicateAnswers {
  import opened Wrappers
  import opened JsonText
  import opened JsStrings
  import opened CanonicalJson
  import opened CanonicalMeaning
  import opened JsonReader
  import opened TermVocabulary
  import opened PredicateClaims
  import opened PredicateCacheTheorems
  import opened PredicateMeaning

  // ---- The cache ----------------------------------------------------------------------------

  /** A row that answers under this key now: of this subject, neither revoked nor expired. */
  predicate Counts(r: Row, subject: Text, key: Text, now: int) {
    r.subject == subject && r.cacheKey == key && !r.revoked && now < r.expiresAt
  }

  ghost predicate NoneCounts(rows: seq<Row>, subject: Text, key: Text, now: int) {
    forall r :: r in rows ==> !Counts(r, subject, key, now)
  }

  /** Of the rows that count, one issued last. */
  ghost predicate IsLatest(rows: seq<Row>, subject: Text, key: Text, now: int, r: Row) {
    && r in rows && Counts(r, subject, key, now)
    && forall other :: other in rows && Counts(other, subject, key, now) ==> other.issuedAt <= r.issuedAt
  }

  lemma {:induction false} ReadIs(rows: seq<Row>, subject: Text, key: Text, now: int)
    ensures var c := ReadCached(rows, subject, key, now);
            if c.Some? then IsLatest(rows, subject, key, now, c.value) else NoneCounts(rows, subject, key, now)
  {
    ReadCachedFinds(rows, subject, key, now);
    forall r | r in rows ensures Counts(r, subject, key, now) <==> Matches(r, subject, key, now) {
    }
  }

  function NameOf(p: Predicate): Text {
    match p
    case Eq => Ascii("eq")
    case Gte => Ascii("gte")
    case Lte => Ascii("lte")
    case IsEmpty => Ascii("is_empty")
    case ContainsTerm => Ascii("contains")
    case OverlapsSet => Ascii("overlaps")
  }

  lemma {:induction false} NamesAre(p: Predicate)
    ensures PredicateName(p) == NameOf(p)
  {
  }

  lemma {:induction false} KeysAre()
    ensures SUBJECT_KEY == Ascii("subject") && FIELD_KEY == Ascii("field")
    ensures PREDICATE_KEY == Ascii("predicate") && ARG_KEY == Ascii("arg")
  {
  }

  /** A missing argument is filed as the bare word. */
  lemma {:induction false} MissingArgIs(le: (Text, Text) -> bool)
    ensures ArgText(le, None) == Ascii("undefined")
  {
  }

  /** What a row is filed under, as a value. */
  function FiledUnder(subject: Text, field: Text, p: Predicate, arg: Json): Json {
    Obj([Entry(Ascii("subject"), Str(subject)), Entry(Ascii("field"), Str(field)),
         Entry(Ascii("predicate"), Str(NameOf(p))), Entry(Ascii("arg"), arg)])
  }

  lemma {:induction false} FiledIsWellFormed(subject: Text, field: Text, p: Predicate, arg: Json)
    requires WellFormed(arg)
    ensures FiledUnder(subject, field, p, arg) == Obj(KeyFields(subject, field, p, arg))
    ensures WellFormed(FiledUnder(subject, field, p, arg))
  {
    KeysAre();
    NamesAre(p);
    var fs := KeyFields(subject, field, p, arg);
    assert |SUBJECT_KEY| == 7 && |FIELD_KEY| == 5 && |PREDICATE_KEY| == 9 && |ARG_KEY| == 3;
    assert DistinctKeys(fs);
  }

  /** Read by the JSON grammar, the key text names the subject, the field, the predicate and
      the argument. */
  lemma {:induction false} KeyReads(le: (Text, Text) -> bool, subject: Text, field: Text, p: Predicate, arg: Json)
    requires WellFormed(arg)
    ensures var r := ReadValue(CacheKey(le, subject, field, p, Some(arg)));
            r.Got? && r.rest == [] && SameValue(r.value, FiledUnder(subject, field, p, arg))
  {
    var key, j := CacheKey(le, subject, field, p, Some(arg)), FiledUnder(subject, field, p, arg);
    FiledIsWellFormed(subject, field, p, arg);
    CacheKeyIsStableJson(le, subject, field, p, arg);
    CanonicalizersAgree(le, j);
    CanonicalTextReads(le, j, []);
    assert key + [] == key;
  }

  // ---- Claims -------------------------------------------------------------------------------

  const ONE_HOUR_MS := 3_600_000

  /** A claim made now, on the value at hand, filed under its own key, good for an hour. */
  predicate IsFresh(g: Registry, q: Query, kind: Predicate, arg: Option<Json>, c: Claim) {
    && !c.cached && c.field == q.field && c.kind == kind && c.arg == arg
    && c.hashed == StableJson(g.le, q.value) && c.cacheKey == CacheKey(g.le, q.subject, q.field, kind, arg)
    && c.issuedAt == q.now && c.expiresAt - q.now == ONE_HOUR_MS
  }

  /** A claim as it was stored. */
  predicate IsStored(r: Row, c: Claim) {
    && c.cached && c.field == r.field && c.kind == r.kind && c.arg == r.arg && c.result == r.result
    && c.hashed == r.hashed && c.cacheKey == r.cacheKey && c.issuedAt == r.issuedAt && c.expiresAt == r.expiresAt
  }

  /** How a posed argument is filed: a term by what it stands for, other strings trimmed. */
  predicate FiledAs(g: Registry, field: Text, r: Request, filed: Option<Json>) {
    if r.kind == ContainsTerm then
      r.arg.Some? && r.arg.value.Str? && filed == Some(Str(NormalizeFieldTerm(g.vocabulary(field), r.arg.value.text)))
    else if r.arg.Some? && r.arg.value.Str? then filed == Some(Str(Trim(r.arg.value.text)))
    else filed == r.arg
  }

  ghost predicate Unfiled(g: Registry, field: Text, r: Request) {
    r.kind == ContainsTerm && (r.arg.None? || !r.arg.value.Str?)
  }

  predicate Permitted(g: Registry, field: Text, r: Request) {
    g.permits(field, r.kind) && (r.kind == OverlapsSet ==> g.permits(field, ContainsTerm))
  }

  /** Answered by a row that counts, if there is one; else by evaluating the value. */
  ghost predicate AnsweredFrom(g: Registry, at: Snapshot, q: Query, kind: Predicate, filed: Option<Json>,
                               evaluated: Option<bool>, c: Claim) {
    var key := CacheKey(g.le, q.subject, q.field, kind, filed);
    if NoneCounts(at.rows, q.subject, key, at.now)
    then evaluated.Some? && IsFresh(g, q, kind, filed, c) && c.result == evaluated.value
    else exists r :: IsLatest(at.rows, q.subject, key, at.now, r) && IsStored(r, c)
  }

  /** The answer to a predicate other than `overlaps`. None: it is forbidden or throws. */
  lemma {:induction false} AnswerIs(g: Registry, seen: Reads, q: Query, r: Request, filed: Option<Json>)
    requires r.kind != OverlapsSet
    ensures var a := Answer(g, seen, q, r);
            && (!Permitted(g, q.field, r) || Unfiled(g, q.field, r) ==> a == None)
            && (Permitted(g, q.field, r) && FiledAs(g, q.field, r, filed) ==>
                  var key := CacheKey(g.le, q.subject, q.field, r.kind, filed);
                  var evaluated := Evaluate(g, q.field, q.value, r.kind, r.arg);
                  && (a.None? <==> NoneCounts(seen(0).rows, q.subject, key, seen(0).now) && evaluated.None?)
                  && (a.Some? ==>
                        && AnsweredFrom(g, seen(0), q, r.kind, filed, evaluated, a.value.0.claim)
                        && a.value.0.composedFrom == []
                        && a.value.1 == if a.value.0.claim.cached then [] else [a.value.0.claim]))
  {
    if Permitted(g, q.field, r) && FiledAs(g, q.field, r, filed) {
      ReadIs(seen(0).rows, q.subject, CacheKey(g.le, q.subject, q.field, r.kind, filed), seen(0).now);
    }
  }

  // ---- Compositions -------------------------------------------------------------------------

  /** Each term some item of the declared set stands for, once. */
  ghost predicate TermsOf(g: Registry, field: Text, declared: Option<Json>, terms: seq<Text>) {
    && (forall i, j :: 0 <= i < j < |terms| ==> terms[i] != terms[j])
    && (forall t :: t in terms <==>
          declared.Some? && exists item :: HasItem(declared.value, item)
                                           && NormalizeFieldTerm(g.vocabulary(field), item) == t)
  }

  /** One primitive beneath a composition: the claim that the value has this term. */
  ghost predicate InputIs(g: Registry, at: Snapshot, q: Query, t: Text, c: Claim) {
    exists evaluated: bool :: (evaluated <==> HasTerm(g.vocabulary(q.field), q.value, t))
      && AnsweredFrom(g, at, q, ContainsTerm, Some(Str(t)), Some(evaluated), c)
  }

  ghost predicate InputsAre(g: Registry, seen: Reads, q: Query, terms: seq<Text>, inputs: seq<Claim>) {
    |inputs| == |terms| && forall i :: 0 <= i < |terms| ==> InputIs(g, seen(i), q, terms[i], inputs[i])
  }

  /** True exactly if one of its primitives is; it names their keys in order, and is made
      now; only its fresh primitives are to be stored. */
  ghost predicate ComposedOf(g: Registry, q: Query, terms: seq<Text>, inputs: seq<Claim>, a: (Resolved, seq<Claim>)) {
    && IsFresh(g, q, OverlapsSet, Some(Arr(seq(|terms|, i requires 0 <= i < |terms| => Str(terms[i])))), a.0.claim)
    && (a.0.claim.result <==> exists i :: 0 <= i < |inputs| && inputs[i].result)
    && |a.0.composedFrom| == |inputs|
    && (forall i :: 0 <= i < |inputs| ==> a.0.composedFrom[i] == inputs[i].cacheKey)
    && (forall c :: c in a.1 <==> c in inputs && !c.cached)
  }

  lemma {:induction false} TermsAre(g: Registry, field: Text, declared: Option<Json>)
    ensures TermsOf(g, field, declared, DeclaredTerms(g, field, declared))
  {
    if declared.Some? {
      var items := NormalizeSet(g.vocabulary(field), declared.value);
      DistinctMembers(items);
      forall t ensures t in items <==>
        exists item :: HasItem(declared.value, item) && NormalizeFieldTerm(g.vocabulary(field), item) == t
      {
        NormalizedItems(g.vocabulary(field), declared.value, t);
      }
    }
  }

  lemma {:induction false} NormalizedItems(vocabulary: Option<Vocabulary>, value: Json, t: Text)
    ensures t in NormalizeSet(vocabulary, value) <==>
              exists item :: HasItem(value, item) && NormalizeFieldTerm(vocabulary, item) == t
  {
    var items := SplitSetValue(value);
    if t in NormalizeSet(vocabulary, value) {
      var i :| 0 <= i < |items| && NormalizeSet(vocabulary, value)[i] == t;
      ItemsAre(value, items[i]);
    }
    if item :| HasItem(value, item) && NormalizeFieldTerm(vocabulary, item) == t {
      ItemsAre(value, item);
      var i :| 0 <= i < |items| && items[i] == item;
      assert NormalizeSet(vocabulary, value)[i] == t;
    }
  }

  lemma {:induction false} PrimitiveIs(g: Registry, at: Snapshot, q: Query, t: Text)
    ensures InputIs(g, at, q, t, ContainsPrimitive(g, at, q, t))
  {
    ReadIs(at.rows, q.subject, CacheKey(g.le, q.subject, q.field, ContainsTerm, Some(Str(t))), at.now);
    ContainsMeans(g.vocabulary(q.field), q.value, t);
    assert AnsweredFrom(g, at, q, ContainsTerm, Some(Str(t)), Some(Contains(g.vocabulary(q.field), q.value, t)),
                        ContainsPrimitive(g, at, q, t));
  }

  /** The answer to an `overlaps`: composed, if the field permits both it and `contains`. */
  lemma {:induction false} CompositionIs(g: Registry, seen: Reads, q: Query, r: Request)
    requires r.kind == OverlapsSet
    ensures var a := Answer(g, seen, q, r);
            && (a.None? <==> !Permitted(g, q.field, r))
            && (a.Some? ==>
                  exists terms, inputs :: TermsOf(g, q.field, r.arg, terms) && InputsAre(g, seen, q, terms, inputs)
                                          && ComposedOf(g, q, terms, inputs, a.value))
  {
    if Permitted(g, q.field, r) {
      var terms := DeclaredTerms(g, q.field, r.arg);
      var inputs := Inputs(g, seen, q, terms);
      TermsAre(g, q.field, r.arg);
      forall i | 0 <= i < |terms| ensures InputIs(g, seen(i), q, terms[i], inputs[i]) {
        PrimitiveIs(g, seen(i), q, terms[i]);
      }
      FreshMembers(inputs);
      assert ComposedOf(g, q, terms, inputs, Compose(g, seen, q, r.arg));
    }
  }
}
