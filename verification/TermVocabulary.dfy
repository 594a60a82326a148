/** Term normalization against a registry of canonical terms and their aliases. */
module TermVocabulary {
  import opened Wrappers
  import opened JsonText
  import opened JsStrings

  datatype TermEntry = TermEntry(term: Text, aliases: seq<Text>)

  type Vocabulary = seq<TermEntry>

  const HYPHEN: Unit := 45
  const SPACE: Unit := 32
  const UNDERSCORE: Unit := 95

  function NormalizeTermValue(value: Text): Text {
    ReplaceAll(ReplaceAll(Lower(Trim(value)), HYPHEN, UNDERSCORE), SPACE, UNDERSCORE)
  }

  function Spellings(e: TermEntry): seq<Text> {
    [e.term] + e.aliases
  }

  predicate Accepts(e: TermEntry, normalized: Text) {
    exists j :: 0 <= j < |Spellings(e)| && NormalizeTermValue(Spellings(e)[j]) == normalized
  }

  /** The canonical term of the first entry that accepts the normalized spelling. */
  function Canonical(terms: Vocabulary, normalized: Text): Option<Text> {
    if terms == [] then None
    else if Accepts(terms[0], normalized) then Some(terms[0].term)
    else Canonical(terms[1..], normalized)
  }

  /** `normalizeBrokerTerm`: a search through the entries with an early return. */
  method NormalizeBrokerTerm(vocabulary: Option<Vocabulary>, value: Text) returns (r: Option<Text>)
    ensures r == if vocabulary.None? then None else Canonical(vocabulary.value, NormalizeTermValue(value))
  {
    if vocabulary.None? { return None; }
    var terms := vocabulary.value;
    var normalizedValue := NormalizeTermValue(value);
    assert terms[0..] == terms;
    for i := 0 to |terms|
      invariant Canonical(terms, normalizedValue) == Canonical(terms[i..], normalizedValue)
    {
      assert terms[i..][1..] == terms[i + 1..];
      if Accepts(terms[i], normalizedValue) { return Some(terms[i].term); }
    }
    return None;
  }

  /** The term a field's value or a declared argument is compared by: the registry's
      canonical term if it has one, the normalized spelling otherwise. */
  function NormalizeFieldTerm(vocabulary: Option<Vocabulary>, value: Text): Text {
    var normalized := NormalizeTermValue(value);
    if vocabulary.None? then normalized
    else
      var found := Canonical(vocabulary.value, normalized);
      if found.Some? then found.value else normalized
  }

  // ---- Idempotence --------------------------------------------------------------------

  lemma NormalizeTermValueIdempotent(value: Text)
    ensures NormalizeTermValue(NormalizeTermValue(value)) == NormalizeTermValue(value)
  {
    var t := Trim(value);
    var n := NormalizeTermValue(value);
    TrimResult(value);
    forall i | 0 <= i < |n| ensures NormalizeTermValue(n)[i] == n[i] {
      assert Trim(n) == n;
    }
  }

  /** Set members are trimmed and blank ones dropped, so blank strings never come up. */
  predicate Blank(v: Text) {
    Trim(v) == []
  }

  /** Normalizing this spelling twice is normalizing it once. */
  predicate Settled(vocabulary: Option<Vocabulary>, spelling: Text) {
    NormalizeFieldTerm(vocabulary, NormalizeFieldTerm(vocabulary, spelling)) == NormalizeFieldTerm(vocabulary, spelling)
  }

  ghost predicate Idempotent(vocabulary: Option<Vocabulary>) {
    forall v | !Blank(v) :: Settled(vocabulary, v)
  }

  /** Each non-blank spelling listed in the registry resolves to a term that resolves to itself. */
  predicate ListedSpellingsSettle(terms: Vocabulary) {
    forall i, j :: 0 <= i < |terms| && 0 <= j < |Spellings(terms[i])| ==>
      !Blank(Spellings(terms[i])[j]) ==> Settles(terms, Spellings(terms[i])[j])
  }

  predicate Settles(terms: Vocabulary, spelling: Text) {
    var c := Canonical(terms, NormalizeTermValue(spelling));
    c.Some? ==> Canonical(terms, NormalizeTermValue(c.value)) == c
  }

  lemma {:induction false} CanonicalHasListedSpelling(terms: Vocabulary, normalized: Text) returns (i: nat, j: nat)
    requires Canonical(terms, normalized).Some?
    ensures i < |terms| && j < |Spellings(terms[i])| && NormalizeTermValue(Spellings(terms[i])[j]) == normalized
  {
    if Accepts(terms[0], normalized) {
      i := 0;
      j :| 0 <= j < |Spellings(terms[0])| && NormalizeTermValue(Spellings(terms[0])[j]) == normalized;
    } else {
      var k, l := CanonicalHasListedSpelling(terms[1..], normalized);
      i, j := k + 1, l;
    }
  }

  lemma {:induction false} ListedSpellingIsAccepted(terms: Vocabulary, i: nat, normalized: Text)
    requires i < |terms| && Accepts(terms[i], normalized)
    ensures Canonical(terms, normalized).Some?
  {
    if i > 0 { ListedSpellingIsAccepted(terms[1..], i - 1, normalized); }
  }

  /** Normalizing twice is normalizing once, for every string there is, exactly when the
      finitely many spellings in the registry settle. */
  lemma IdempotentIffListedSpellingsSettle(terms: Vocabulary)
    ensures Idempotent(Some(terms)) <==> ListedSpellingsSettle(terms)
  {
    if ListedSpellingsSettle(terms) {
      forall v | !Blank(v)
        ensures Settled(Some(terms), v)
      {
        SettledIsIdempotentAt(terms, v);
      }
    }
    if Idempotent(Some(terms)) {
      forall i, j | 0 <= i < |terms| && 0 <= j < |Spellings(terms[i])| && !Blank(Spellings(terms[i])[j])
        ensures Settles(terms, Spellings(terms[i])[j])
      {
        IdempotentSettlesAt(terms, Spellings(terms[i])[j]);
      }
    }
  }

  lemma SettledIsIdempotentAt(terms: Vocabulary, v: Text)
    requires ListedSpellingsSettle(terms) && !Blank(v)
    ensures Settled(Some(terms), v)
  {
    NormalizeTermValueIdempotent(v);
    var n := NormalizeTermValue(v);
    if Canonical(terms, n).Some? {
      var i, j := CanonicalHasListedSpelling(terms, n);
      assert |n| == |Trim(v)| && |NormalizeTermValue(Spellings(terms[i])[j])| == |Trim(Spellings(terms[i])[j])|;
      assert Settles(terms, Spellings(terms[i])[j]);
    }
  }

  lemma TermIsAccepted(e: TermEntry)
    ensures Accepts(e, NormalizeTermValue(e.term))
  {
    assert Spellings(e)[0] == e.term;
  }

  lemma IdempotentSettlesAt(terms: Vocabulary, spelling: Text)
    requires Idempotent(Some(terms)) && !Blank(spelling)
    ensures Settles(terms, spelling)
  {
    var c := Canonical(terms, NormalizeTermValue(spelling));
    if c.Some? {
      assert NormalizeFieldTerm(Some(terms), spelling) == c.value;
      assert NormalizeFieldTerm(Some(terms), c.value) == c.value;
      CanonicalIsSomeTerm(terms, NormalizeTermValue(spelling));
      var k :| 0 <= k < |terms| && terms[k].term == c.value;
      TermIsAccepted(terms[k]);
      ListedSpellingIsAccepted(terms, k, NormalizeTermValue(c.value));
    }
  }

  lemma {:induction false} CanonicalIsSomeTerm(terms: Vocabulary, normalized: Text)
    ensures Canonical(terms, normalized).Some? ==>
              exists k :: 0 <= k < |terms| && terms[k].term == Canonical(terms, normalized).value
  {
    if terms != [] && !Accepts(terms[0], normalized) {
      CanonicalIsSomeTerm(terms[1..], normalized);
      if Canonical(terms, normalized).Some? {
        var k :| 0 <= k < |terms[1..]| && terms[1..][k].term == Canonical(terms, normalized).value;
        assert terms[k + 1].term == Canonical(terms, normalized).value;
      }
    }
  }

  lemma NoVocabularyIsIdempotent()
    ensures Idempotent(None)
  {
    forall v ensures Settled(None, v) {
      NormalizeTermValueIdempotent(v);
    }
  }

  /** A registry kept tidy settles: no spelling is accepted by two entries. (The
      registry's terms need not even be written in normalized form.) */
  lemma DisjointSpellingsSettle(terms: Vocabulary)
    requires forall i, k, n :: 0 <= i < k < |terms| && Accepts(terms[i], n) ==> !Accepts(terms[k], n)
    ensures ListedSpellingsSettle(terms)
  {
    forall i, j | 0 <= i < |terms| && 0 <= j < |Spellings(terms[i])| ensures Settles(terms, Spellings(terms[i])[j]) {
      assert Accepts(terms[i], NormalizeTermValue(Spellings(terms[i])[j]));
      TermIsAccepted(terms[i]);
      OnlyAcceptor(terms, i, NormalizeTermValue(Spellings(terms[i])[j]));
      OnlyAcceptor(terms, i, NormalizeTermValue(terms[i].term));
    }
  }

  lemma {:induction false} OnlyAcceptor(terms: Vocabulary, i: nat, n: Text)
    requires forall i, k, n :: 0 <= i < k < |terms| && Accepts(terms[i], n) ==> !Accepts(terms[k], n)
    requires i < |terms| && Accepts(terms[i], n)
    ensures Canonical(terms, n) == Some(terms[i].term)
  {
    if i > 0 {
      assert !Accepts(terms[0], n);
      forall a, k, m | 0 <= a < k < |terms[1..]| && Accepts(terms[1..][a], m) ensures !Accepts(terms[1..][k], m) {
        assert Accepts(terms[a + 1], m);
      }
      OnlyAcceptor(terms[1..], i - 1, n);
    }
  }

  // ---- Purpose fields -----------------------------------------------------------------

  function Kept(fields: seq<string>, keep: set<string>): seq<string> {
    if fields == [] then []
    else (if fields[0] in keep then [fields[0]] else []) + Kept(fields[1..], keep)
  }

  function Dropped(fields: seq<string>, keep: set<string>): seq<string> {
    if fields == [] then []
    else (if fields[0] in keep then [] else [fields[0]]) + Dropped(fields[1..], keep)
  }

  function FieldsFor(purposes: map<string, seq<string>>, purpose: string): set<string> {
    if purpose in purposes then set f | f in purposes[purpose] else {}
  }

  /** `validateBrokerPurposeFields`, over any purpose and field tables: the fields that
      are both allowed for the purpose and known, and the rest, each in input order. */
  method ValidateBrokerPurposeFields(purposes: map<string, seq<string>>, knownFields: set<string>,
                                     purpose: string, fields: seq<string>)
    returns (valid: seq<string>, invalid: seq<string>)
    ensures valid == Kept(fields, FieldsFor(purposes, purpose) * knownFields)
    ensures invalid == Dropped(fields, FieldsFor(purposes, purpose) * knownFields)
  {
    var allowedFields := FieldsFor(purposes, purpose);
    ghost var allowed := allowedFields * knownFields;
    valid, invalid := [], [];
    assert fields[0..] == fields;
    for i := 0 to |fields|
      invariant Kept(fields, allowed) == valid + Kept(fields[i..], allowed)
      invariant Dropped(fields, allowed) == invalid + Dropped(fields[i..], allowed)
    {
      assert fields[i..][1..] == fields[i + 1..];
      if fields[i] in allowedFields && fields[i] in knownFields {
        valid := valid + [fields[i]];
      } else {
        invalid := invalid + [fields[i]];
      }
    }
  }

  /** Validation only sorts the fields apart: none is lost or invented. */
  lemma {:induction false} ValidationPartitions(fields: seq<string>, keep: set<string>)
    ensures multiset(Kept(fields, keep)) + multiset(Dropped(fields, keep)) == multiset(fields)
    ensures forall f :: f in Kept(fields, keep) <==> f in fields && f in keep
    ensures forall f :: f in Dropped(fields, keep) <==> f in fields && f !in keep
  {
    if fields != [] {
      ValidationPartitions(fields[1..], keep);
      assert fields == [fields[0]] + fields[1..];
    }
  }

  /** Valid are exactly the fields that are known and that the purpose's entry allows; an
      unknown purpose allows none. */
  lemma {:induction false} ValidFieldsAre(purposes: map<string, seq<string>>, knownFields: set<string>,
                                          purpose: string, fields: seq<string>, f: string)
    ensures f in Kept(fields, FieldsFor(purposes, purpose) * knownFields) <==>
              f in fields && purpose in purposes && f in purposes[purpose] && f in knownFields
    ensures f in Dropped(fields, FieldsFor(purposes, purpose) * knownFields) <==>
              f in fields && !(purpose in purposes && f in purposes[purpose] && f in knownFields)
  {
    ValidationPartitions(fields, FieldsFor(purposes, purpose) * knownFields);
  }
}
