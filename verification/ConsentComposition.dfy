/** How a subject's consent grants for one request are put in order and composed. */
module ConsentComposition {
  import opened Wrappers
  import opened StableSort

  datatype Mode = Attestation | Raw

  datatype EnvelopeMode = Uniform(mode: Mode) | Mixed

  datatype ConsentEntry = ConsentEntry(allowedFields: seq<string>, mode: Mode, consentRef: string)

  datatype FieldGrant = FieldGrant(field: string, mode: Mode, consentReference: string)

  datatype ResolvedConsent = ResolvedConsent(allowedFields: seq<string>, mode: EnvelopeMode, consentRef: string,
                                             fieldGrants: map<string, FieldGrant>)

  // ---- The closed form ----------------------------------------------------------------

  predicate Grants(e: ConsentEntry, field: string) {
    field in e.allowedFields
  }

  predicate SomeGrant(entries: seq<ConsentEntry>, field: string) {
    exists i :: 0 <= i < |entries| && Grants(entries[i], field)
  }

  predicate SomeAttests(entries: seq<ConsentEntry>, field: string) {
    exists i :: 0 <= i < |entries| && Grants(entries[i], field) && entries[i].mode == Attestation
  }

  /** The private mode wins. */
  function ModeOf(entries: seq<ConsentEntry>, field: string): Mode {
    if SomeAttests(entries, field) then Attestation else Raw
  }

  /** The reference of the first entry granting the field in this mode. */
  function FirstRef(entries: seq<ConsentEntry>, field: string, mode: Mode): string {
    if entries == [] then ""
    else if Grants(entries[0], field) && entries[0].mode == mode then entries[0].consentRef
    else FirstRef(entries[1..], field, mode)
  }

  function GrantOf(entries: seq<ConsentEntry>, field: string): FieldGrant {
    FieldGrant(field, ModeOf(entries, field), FirstRef(entries, field, ModeOf(entries, field)))
  }

  /** Add each of `fs` that is not there yet: a JavaScript Set, in insertion order. */
  function AddAll(to: seq<string>, fs: seq<string>): seq<string> {
    if fs == [] then to
    else
      var front, last := AddAll(to, fs[..|fs| - 1]), fs[|fs| - 1];
      if last in front then front else front + [last]
  }

  function UnionOf(entries: seq<ConsentEntry>): seq<string> {
    if entries == [] then [] else AddAll(UnionOf(entries[..|entries| - 1]), entries[|entries| - 1].allowedFields)
  }

  function PrimaryRef(entries: seq<ConsentEntry>): string {
    if entries == [] then ""
    else if entries[0].consentRef != "" then entries[0].consentRef
    else PrimaryRef(entries[1..])
  }

  function Summarize(entries: seq<ConsentEntry>, fields: seq<string>): EnvelopeMode {
    if fields != [] && forall i :: 0 <= i < |fields| ==> ModeOf(entries, fields[i]) == ModeOf(entries, fields[0])
    then Uniform(ModeOf(entries, fields[0]))
    else Mixed
  }

  function GrantMap(entries: seq<ConsentEntry>): map<string, FieldGrant> {
    map f | f in UnionOf(entries) :: GrantOf(entries, f)
  }

  function Composed(entries: seq<ConsentEntry>): Option<ResolvedConsent> {
    var fields := UnionOf(entries);
    if fields == [] then None
    else Some(ResolvedConsent(fields, Summarize(entries, fields), PrimaryRef(entries), GrantMap(entries)))
  }

  // ---- Growing the list of entries ------------------------------------------------------

  lemma {:induction false} InAddAll(to: seq<string>, fs: seq<string>, f: string)
    ensures f in AddAll(to, fs) <==> f in to || f in fs
  {
    if fs != [] {
      InAddAll(to, fs[..|fs| - 1], f);
      assert fs == fs[..|fs| - 1] + [fs[|fs| - 1]];
    }
  }

  lemma {:induction false} InUnion(entries: seq<ConsentEntry>, f: string)
    ensures f in UnionOf(entries) <==> SomeGrant(entries, f)
  {
    if entries != [] {
      var front, last := entries[..|entries| - 1], entries[|entries| - 1];
      InUnion(front, f);
      InAddAll(UnionOf(front), last.allowedFields, f);
      SomeSnoc(front, last, f);
      assert entries == front + [last];
    }
  }

  lemma SomeSnoc(front: seq<ConsentEntry>, e: ConsentEntry, f: string)
    ensures SomeGrant(front + [e], f) <==> SomeGrant(front, f) || Grants(e, f)
    ensures SomeAttests(front + [e], f) <==> SomeAttests(front, f) || (Grants(e, f) && e.mode == Attestation)
  {
    var all := front + [e];
    assert all[|front|] == e;
    assert forall i :: 0 <= i < |front| ==> all[i] == front[i];
  }

  lemma {:induction false} FirstRefSnoc(front: seq<ConsentEntry>, e: ConsentEntry, f: string, mode: Mode)
    ensures FirstRef(front + [e], f, mode) ==
            if (exists i :: 0 <= i < |front| && Grants(front[i], f) && front[i].mode == mode)
            then FirstRef(front, f, mode)
            else if Grants(e, f) && e.mode == mode then e.consentRef else ""
  {
    if front == [] {
      assert front + [e] == [e];
      assert [e][1..] == [];
    } else {
      assert (front + [e])[1..] == front[1..] + [e];
      FirstRefSnoc(front[1..], e, f, mode);
      assert forall i :: 1 <= i < |front| ==> front[i] == front[1..][i - 1];
    }
  }

  lemma {:induction false} PrimaryRefSnoc(front: seq<ConsentEntry>, e: ConsentEntry)
    ensures PrimaryRef(front + [e]) == if PrimaryRef(front) != "" then PrimaryRef(front) else e.consentRef
  {
    if front == [] {
      assert front + [e] == [e];
      assert [e][1..] == [];
    } else {
      assert (front + [e])[1..] == front[1..] + [e];
      PrimaryRefSnoc(front[1..], e);
    }
  }

  // ---- The composition, as it runs ------------------------------------------------------

  function ComposeFieldGrant(existing: Option<FieldGrant>, field: string, e: ConsentEntry): FieldGrant {
    if existing.None? then FieldGrant(field, e.mode, e.consentRef)
    else if existing.value.mode == Attestation || e.mode == Attestation then
      FieldGrant(field, Attestation,
                 if existing.value.mode == Attestation then existing.value.consentReference else e.consentRef)
    else existing.value
  }

  /** Entry `e` as seen after its first `j` fields. */
  function Upto(e: ConsentEntry, j: nat): ConsentEntry
    requires j <= |e.allowedFields|
  {
    e.(allowedFields := e.allowedFields[..j])
  }

  lemma ComposeKeepsClosedForm(front: seq<ConsentEntry>, e: ConsentEntry, j: nat)
    requires j < |e.allowedFields|
    ensures var f := e.allowedFields[j];
            var before, after := front + [Upto(e, j)], front + [Upto(e, j + 1)];
            var existing := if SomeGrant(before, f) then Some(GrantOf(before, f)) else None;
            GrantOf(after, f) == ComposeFieldGrant(existing, f, e)
  {
    var f := e.allowedFields[j];
    var x, y := Upto(e, j), Upto(e, j + 1);
    assert Grants(y, f) by { assert y.allowedFields[j] == f; }
    SomeSnoc(front, x, f);
    SomeSnoc(front, y, f);
    FirstRefSnoc(front, x, f, Attestation);
    FirstRefSnoc(front, y, f, Attestation);
    FirstRefSnoc(front, x, f, Raw);
    FirstRefSnoc(front, y, f, Raw);
  }

  lemma OtherFieldsKeep(front: seq<ConsentEntry>, e: ConsentEntry, j: nat, g: string)
    requires j < |e.allowedFields| && g != e.allowedFields[j]
    ensures var before, after := front + [Upto(e, j)], front + [Upto(e, j + 1)];
            GrantOf(after, g) == GrantOf(before, g) && (SomeGrant(after, g) <==> SomeGrant(before, g))
  {
    var x, y := Upto(e, j), Upto(e, j + 1);
    assert y.allowedFields == x.allowedFields + [e.allowedFields[j]];
    assert Grants(x, g) <==> Grants(y, g);
    SomeSnoc(front, x, g);
    SomeSnoc(front, y, g);
    FirstRefSnoc(front, x, g, ModeOf(front + [x], g));
    FirstRefSnoc(front, y, g, ModeOf(front + [x], g));
  }

  lemma UnionStep(front: seq<ConsentEntry>, e: ConsentEntry, j: nat)
    requires j < |e.allowedFields|
    ensures var before, after := UnionOf(front + [Upto(e, j)]), UnionOf(front + [Upto(e, j + 1)]);
            after == if e.allowedFields[j] in before then before else before + [e.allowedFields[j]]
  {
    var x, y := Upto(e, j), Upto(e, j + 1);
    assert (front + [x])[..|front|] == front && (front + [y])[..|front|] == front;
    assert y.allowedFields[..j] == x.allowedFields;
  }

  lemma UnionStart(front: seq<ConsentEntry>, e: ConsentEntry, f: string)
    ensures UnionOf(front + [Upto(e, 0)]) == UnionOf(front)
    ensures GrantOf(front + [Upto(e, 0)], f) == GrantOf(front, f)
  {
    var x := Upto(e, 0);
    assert (front + [x])[..|front|] == front;
    SomeSnoc(front, x, f);
    FirstRefSnoc(front, x, f, ModeOf(front, f));
    if !(exists i :: 0 <= i < |front| && Grants(front[i], f) && front[i].mode == ModeOf(front, f)) {
      NoFirstRef(front, f, ModeOf(front, f));
    }
  }

  lemma {:induction false} NoFirstRef(entries: seq<ConsentEntry>, f: string, mode: Mode)
    requires forall i :: 0 <= i < |entries| ==> !(Grants(entries[i], f) && entries[i].mode == mode)
    ensures FirstRef(entries, f, mode) == ""
  {
    if entries != [] { NoFirstRef(entries[1..], f, mode); }
  }

  lemma GrantMapStep(front: seq<ConsentEntry>, e: ConsentEntry, j: nat)
    requires j < |e.allowedFields|
    ensures var f := e.allowedFields[j];
            var before, after := GrantMap(front + [Upto(e, j)]), GrantMap(front + [Upto(e, j + 1)]);
            after == before[f := ComposeFieldGrant(if f in before then Some(before[f]) else None, f, e)]
  {
    var f := e.allowedFields[j];
    var b, a := front + [Upto(e, j)], front + [Upto(e, j + 1)];
    UnionStep(front, e, j);
    InUnion(b, f);
    ComposeKeepsClosedForm(front, e, j);
    forall g | g in UnionOf(b) && g != f ensures GrantOf(a, g) == GrantOf(b, g) { OtherFieldsKeep(front, e, j, g); }
  }

  predicate OneMode(fields: seq<string>, fieldGrants: map<string, FieldGrant>, mode: Mode)
    requires forall f :: f in fields ==> f in fieldGrants
  {
    forall i :: 0 <= i < |fields| ==> fieldGrants[fields[i]].mode == mode
  }

  /** summarizeMode: one mode for all fields, or mixed. */
  method SummarizeMode(fields: seq<string>, fieldGrants: map<string, FieldGrant>) returns (mode: EnvelopeMode)
    requires forall f :: f in fields ==> f in fieldGrants
    ensures mode == if fields != [] && OneMode(fields, fieldGrants, fieldGrants[fields[0]].mode)
                    then Uniform(fieldGrants[fields[0]].mode) else Mixed
  {
    var modes: set<Mode> := {};
    for i := 0 to |fields|
      invariant forall m :: m in modes <==> exists k :: 0 <= k < i && fieldGrants[fields[k]].mode == m
    {
      modes := modes + {fieldGrants[fields[i]].mode};
    }
    if fields == [] {
      mode := Mixed;
    } else {
      var first := fieldGrants[fields[0]].mode;
      mode := if modes == {first} then Uniform(first) else Mixed;
      if modes == {first} {
        forall i | 0 <= i < |fields|
          ensures fieldGrants[fields[i]].mode == first
        {
          assert fieldGrants[fields[i]].mode in modes;
        }
      }
    }
  }

  /** One entry's fields, added to what the entries in `front` composed to. */
  method AddEntry(ghost front: seq<ConsentEntry>, e: ConsentEntry,
                  union0: seq<string>, grants0: map<string, FieldGrant>)
    returns (unionFields: seq<string>, fieldGrants: map<string, FieldGrant>)
    requires union0 == UnionOf(front) && grants0 == GrantMap(front)
    ensures unionFields == UnionOf(front + [e]) && fieldGrants == GrantMap(front + [e])
  {
    unionFields, fieldGrants := union0, grants0;
    GrantMapStart(front, e);
    for j := 0 to |e.allowedFields|
      invariant unionFields == UnionOf(front + [Upto(e, j)])
      invariant fieldGrants == GrantMap(front + [Upto(e, j)])
    {
      var f := e.allowedFields[j];
      UnionStep(front, e, j);
      GrantMapStep(front, e, j);
      if f !in unionFields { unionFields := unionFields + [f]; }
      fieldGrants := fieldGrants[f := ComposeFieldGrant(if f in fieldGrants then Some(fieldGrants[f]) else None, f, e)];
    }
    assert Upto(e, |e.allowedFields|) == e;
  }

  lemma GrantMapStart(front: seq<ConsentEntry>, e: ConsentEntry)
    ensures UnionOf(front + [Upto(e, 0)]) == UnionOf(front)
    ensures GrantMap(front + [Upto(e, 0)]) == GrantMap(front)
  {
    UnionStart(front, e, "");
    forall f ensures GrantOf(front + [Upto(e, 0)], f) == GrantOf(front, f) { UnionStart(front, e, f); }
  }

  /** composeEntries, proved to compute the closed form. */
  method ComposeEntries(entries: seq<ConsentEntry>) returns (resolved: Option<ResolvedConsent>)
    ensures resolved == Composed(entries)
  {
    var unionFields: seq<string> := [];
    var primaryRef := "";
    var fieldGrants: map<string, FieldGrant> := map[];
    for i := 0 to |entries|
      invariant unionFields == UnionOf(entries[..i]) && fieldGrants == GrantMap(entries[..i])
      invariant primaryRef == PrimaryRef(entries[..i])
    {
      assert entries[..i + 1] == entries[..i] + [entries[i]];
      unionFields, fieldGrants := AddEntry(entries[..i], entries[i], unionFields, fieldGrants);
      PrimaryRefSnoc(entries[..i], entries[i]);
      if primaryRef == "" { primaryRef := entries[i].consentRef; }
    }
    assert entries[..|entries|] == entries;
    if unionFields == [] { return None; }
    var mode := SummarizeMode(unionFields, fieldGrants);
    resolved := Some(ResolvedConsent(unionFields, mode, primaryRef, fieldGrants));
  }

  // ---- What the closed form means -------------------------------------------------------

  predicate AllRaw(entries: seq<ConsentEntry>, field: string) {
    forall i :: 0 <= i < |entries| && Grants(entries[i], field) ==> entries[i].mode == Raw
  }

  /** A field is granted when some entry grants it, and is raw when every entry granting it is raw. */
  lemma GrantedAndRawIff(entries: seq<ConsentEntry>, f: string)
    ensures f in GrantMap(entries) <==> SomeGrant(entries, f)
    ensures f in GrantMap(entries) ==>
              (GrantMap(entries)[f].mode == Raw <==> AllRaw(entries, f))
    ensures Composed(entries).None? <==> forall i :: 0 <= i < |entries| ==> entries[i].allowedFields == []
  {
    InUnion(entries, f);
    if Composed(entries).Some? {
      var g := UnionOf(entries)[0];
      InUnion(entries, g);
    }
    if i :| 0 <= i < |entries| && entries[i].allowedFields != [] {
      InUnion(entries, entries[i].allowedFields[0]);
    }
  }

  /** A field's reference is that of the first entry that grants it in the winning mode. */
  lemma {:induction false} ReferenceIsFirstOfWinningMode(entries: seq<ConsentEntry>, f: string, i: nat)
    requires i < |entries| && Grants(entries[i], f) && entries[i].mode == ModeOf(entries, f)
    requires forall k :: 0 <= k < i && Grants(entries[k], f) ==> entries[k].mode != ModeOf(entries, f)
    ensures f in GrantMap(entries) && GrantMap(entries)[f].consentReference == entries[i].consentRef
  {
    InUnion(entries, f);
    FirstRefAt(entries, f, ModeOf(entries, f), i);
  }

  lemma {:induction false} FirstRefAt(entries: seq<ConsentEntry>, f: string, mode: Mode, i: nat)
    requires i < |entries| && Grants(entries[i], f) && entries[i].mode == mode
    requires forall k :: 0 <= k < i && Grants(entries[k], f) ==> entries[k].mode != mode
    ensures FirstRef(entries, f, mode) == entries[i].consentRef
  {
    if i > 0 { FirstRefAt(entries[1..], f, mode, i - 1); }
  }

  /** Every entry of `fewer` is among `more`. */
  ghost predicate Among(fewer: seq<ConsentEntry>, more: seq<ConsentEntry>) {
    forall e :: e in fewer ==> e in more
  }

  /** Adding entries never drops a field and never turns attestation into raw. */
  lemma AddingEntriesIsMonotone(fewer: seq<ConsentEntry>, more: seq<ConsentEntry>, f: string)
    requires Among(fewer, more) && f in GrantMap(fewer)
    ensures f in GrantMap(more)
    ensures GrantMap(fewer)[f].mode == Attestation ==> GrantMap(more)[f].mode == Attestation
  {
    InUnion(fewer, f);
    InUnion(more, f);
    forall i | 0 <= i < |fewer| && Grants(fewer[i], f)
      ensures exists k :: 0 <= k < |more| && Grants(more[k], f) && more[k].mode == fewer[i].mode
    {
      assert fewer[i] in more;
      var k :| 0 <= k < |more| && more[k] == fewer[i];
    }
  }

  /** Granted fields, their modes and the summary do not depend on the order of entries. */
  lemma OrderDoesNotMatter(a: seq<ConsentEntry>, b: seq<ConsentEntry>)
    requires multiset(a) == multiset(b)
    ensures GrantMap(a).Keys == GrantMap(b).Keys
    ensures forall f :: f in GrantMap(a) ==> GrantMap(a)[f].mode == GrantMap(b)[f].mode
    ensures Composed(a).Some? <==> Composed(b).Some?
    ensures Composed(a).Some? ==> Composed(a).value.mode == Composed(b).value.mode
  {
    assert Among(a, b) by { forall e | e in a ensures e in b { assert e in multiset(a); } }
    assert Among(b, a) by { forall e | e in b ensures e in a { assert e in multiset(b); } }
    forall f ensures f in GrantMap(a) <==> f in GrantMap(b) {
      if f in GrantMap(a) { AddingEntriesIsMonotone(a, b, f); }
      if f in GrantMap(b) { AddingEntriesIsMonotone(b, a, f); }
    }
    forall f | f in GrantMap(a) ensures GrantMap(a)[f].mode == GrantMap(b)[f].mode {
      AddingEntriesIsMonotone(a, b, f);
      AddingEntriesIsMonotone(b, a, f);
    }
    SameFields(a, b);
    if UnionOf(a) != [] { SummaryIff(a); SummaryIff(b); SameSummary(a, b); }
  }

  lemma SameFields(a: seq<ConsentEntry>, b: seq<ConsentEntry>)
    requires GrantMap(a).Keys == GrantMap(b).Keys
    ensures UnionOf(a) == [] <==> UnionOf(b) == []
  {
    if UnionOf(a) != [] { assert UnionOf(a)[0] in GrantMap(a).Keys; }
    if UnionOf(b) != [] { assert UnionOf(b)[0] in GrantMap(b).Keys; }
  }

  lemma {:induction false} SameSummary(a: seq<ConsentEntry>, b: seq<ConsentEntry>)
    requires GrantMap(a).Keys == GrantMap(b).Keys && UnionOf(a) != [] && UnionOf(b) != []
    requires forall f :: f in GrantMap(a) ==> GrantMap(a)[f].mode == GrantMap(b)[f].mode
    ensures Composed(a).value.mode == Composed(b).value.mode
  {
    SummaryIff(a);
    SummaryIff(b);
    var f := UnionOf(a)[0];
    assert f in GrantMap(a) && f in GrantMap(b);
    assert AllInMode(a, Raw) <==> AllInMode(b, Raw);
    assert AllInMode(a, Attestation) <==> AllInMode(b, Attestation);
  }

  ghost predicate AllInMode(entries: seq<ConsentEntry>, mode: Mode) {
    forall f :: f in GrantMap(entries) ==> GrantMap(entries)[f].mode == mode
  }

  /** The summary names a mode exactly when every granted field has it. */
  lemma SummaryIff(entries: seq<ConsentEntry>)
    requires Composed(entries).Some?
    ensures Composed(entries).value.mode == Uniform(Raw) <==> AllInMode(entries, Raw)
    ensures Composed(entries).value.mode == Uniform(Attestation) <==> AllInMode(entries, Attestation)
  {
    var fields := UnionOf(entries);
    assert forall i :: 0 <= i < |fields| ==> fields[i] in fields;
    assert fields[0] in GrantMap(entries);
    forall mode: Mode
      ensures AllInMode(entries, mode) <==> forall i :: 0 <= i < |fields| ==> ModeOf(entries, fields[i]) == mode
    {
      if forall i :: 0 <= i < |fields| ==> ModeOf(entries, fields[i]) == mode {
        forall f | f in GrantMap(entries) ensures GrantMap(entries)[f].mode == mode {
          var i :| 0 <= i < |fields| && fields[i] == f;
        }
      }
      if AllInMode(entries, mode) {
        forall i | 0 <= i < |fields| ensures ModeOf(entries, fields[i]) == mode {
          assert fields[i] in GrantMap(entries);
        }
      }
    }
  }

  // ---- The order entries come in --------------------------------------------------------

  datatype GrantRow = GrantRow(grantedTo: string, purpose: string, allowedFields: seq<string>, mode: string,
                               consentRef: string)

  function Specificity(row: GrantRow): nat {
    match (row.grantedTo == "*", row.purpose == "*")
    case (false, false) => 0
    case (true, false) => 1
    case (false, true) => 2
    case (true, true) => 3
  }

  function ToConsentEntry(row: GrantRow): ConsentEntry {
    ConsentEntry(row.allowedFields, if row.mode == "raw" then Raw else Attestation, row.consentRef)
  }

  predicate AtLeastAsSpecific(a: GrantRow, b: GrantRow) {
    Specificity(a) <= Specificity(b)
  }

  function OrderedRows(rows: seq<GrantRow>): seq<GrantRow> {
    Sort(AtLeastAsSpecific, rows)
  }

  function EntriesOf(rows: seq<GrantRow>): seq<ConsentEntry> {
    seq(|rows|, i requires 0 <= i < |rows| => ToConsentEntry(rows[i]))
  }

  lemma {:induction false} PrimaryRefAt(entries: seq<ConsentEntry>, i: nat)
    requires i < |entries| && entries[i].consentRef != ""
    requires forall k :: 0 <= k < i ==> entries[k].consentRef == ""
    ensures PrimaryRef(entries) == entries[i].consentRef
  {
    if i > 0 { PrimaryRefAt(entries[1..], i - 1); }
  }

  lemma {:induction false} PrimaryRefFound(entries: seq<ConsentEntry>) returns (i: nat)
    requires PrimaryRef(entries) != ""
    ensures i < |entries| && entries[i].consentRef == PrimaryRef(entries)
    ensures forall k :: 0 <= k < i ==> entries[k].consentRef == ""
  {
    if entries[0].consentRef != "" { i := 0; }
    else {
      var j := PrimaryRefFound(entries[1..]);
      i := j + 1;
    }
  }

  /** The most specific match: the first in order, which no row is more specific than and
      no earlier row is as specific as. */
  lemma MostSpecificComesFirst(rows: seq<GrantRow>, other: GrantRow)
    requires other in rows
    ensures var sorted := OrderedRows(rows);
            && sorted != [] && sorted[0] in rows && Specificity(sorted[0]) <= Specificity(other)
            && [sorted[0]] <= Ties(AtLeastAsSpecific, sorted[0], rows)
  {
    var sorted := OrderedRows(rows);
    SortKeepsMembers(AtLeastAsSpecific, rows);
    SortIsSorted(AtLeastAsSpecific, rows);
    assert other in sorted;
    var n :| 0 <= n < |sorted| && sorted[n] == other;
    assert sorted[0] in sorted;
    assert n > 0 ==> AtLeastAsSpecific(sorted[0], sorted[n]);
    SortIsStable(AtLeastAsSpecific, sorted[0], rows);
    assert [sorted[0]] <= Ties(AtLeastAsSpecific, sorted[0], sorted);
  }

  ghost predicate AllUnreferenced(rows: seq<GrantRow>) {
    forall row :: row in rows ==> row.consentRef == ""
  }

  /** Composing per-DID grants names as primary the reference of the most specific match
      exactly when that match carries one, or no row does. */
  lemma PrimaryIsMostSpecificIff(rows: seq<GrantRow>)
    requires rows != []
    ensures OrderedRows(rows) != []
    ensures var first := OrderedRows(rows)[0].consentRef;
            PrimaryRef(EntriesOf(OrderedRows(rows))) == first <==> first != "" || AllUnreferenced(rows)
  {
    MostSpecificComesFirst(rows, rows[0]);
    var sorted := OrderedRows(rows);
    var entries := EntriesOf(sorted);
    SortKeepsMembers(AtLeastAsSpecific, rows);
    assert entries[0].consentRef == sorted[0].consentRef;
    if sorted[0].consentRef == "" {
      if PrimaryRef(entries) == "" {
        forall row | row in rows ensures row.consentRef == "" {
          assert row in sorted;
          var n :| 0 <= n < |sorted| && sorted[n] == row;
          NoReferenceMeansAllEmpty(entries, n);
          assert entries[n].consentRef == row.consentRef;
        }
      } else {
        var k := PrimaryRefFound(entries);
        assert sorted[k] in sorted && sorted[k].consentRef == entries[k].consentRef;
      }
    }
  }

  /** A grant to exactly this requester without a reference, beside a wildcard grant with one:
      the composition names the wildcard's. */
  lemma UnreferencedMatchIsPassedOver(requester: string, purpose: string, fields: seq<string>, reference: string)
    requires requester != "*" && purpose != "*" && reference != ""
    ensures var exact := GrantRow(requester, purpose, fields, "raw", "");
            var wild := GrantRow("*", purpose, fields, "raw", reference);
            && OrderedRows([wild, exact]) == [exact, wild]
            && PrimaryRef(EntriesOf(OrderedRows([wild, exact]))) == reference != exact.consentRef
  {
    var exact := GrantRow(requester, purpose, fields, "raw", "");
    var wild := GrantRow("*", purpose, fields, "raw", reference);
    var both, one := [wild, exact], [exact];
    assert both[0] == wild && both[1..] == one && one[0] == exact && one[1..] == [];
    assert Specificity(wild) == 1 && Specificity(exact) == 0;
    assert Sort(AtLeastAsSpecific, one) == Insert(AtLeastAsSpecific, exact, []) == one;
    assert Insert(AtLeastAsSpecific, wild, one) == [exact] + Insert(AtLeastAsSpecific, wild, one[1..]);
    assert Sort(AtLeastAsSpecific, both) == Insert(AtLeastAsSpecific, wild, one) == [exact, wild];
    var entries := EntriesOf([exact, wild]);
    assert entries == [ToConsentEntry(exact), ToConsentEntry(wild)];
    assert entries[1..] == [ToConsentEntry(wild)];
  }

  /** Composing per-DID grants names as primary a row that carries a reference and that no
      row carrying one is more specific than. (A row with an empty reference is passed
      over, however specific.) */
  lemma PrimaryIsMostSpecificReferenced(rows: seq<GrantRow>, other: GrantRow) returns (row: GrantRow)
    requires other in rows && other.consentRef != ""
    ensures row in rows && row.consentRef != "" && row.consentRef == PrimaryRef(EntriesOf(OrderedRows(rows)))
    ensures Specificity(row) <= Specificity(other)
  {
    SortKeepsMembers(AtLeastAsSpecific, rows);
    SortIsSorted(AtLeastAsSpecific, rows);
    row := PrimaryOfSorted(OrderedRows(rows), other);
  }

  lemma PrimaryOfSorted(sorted: seq<GrantRow>, other: GrantRow) returns (row: GrantRow)
    requires Sorted(AtLeastAsSpecific, sorted) && other in sorted && other.consentRef != ""
    ensures row in sorted && row.consentRef != "" && row.consentRef == PrimaryRef(EntriesOf(sorted))
    ensures Specificity(row) <= Specificity(other)
  {
    var entries := EntriesOf(sorted);
    var n :| 0 <= n < |sorted| && sorted[n] == other;
    if PrimaryRef(entries) == "" { NoReferenceMeansAllEmpty(entries, n); }
    var i := PrimaryRefFound(entries);
    row := sorted[i];
    assert entries[n].consentRef == other.consentRef;
    assert i <= n;
    assert i < n ==> AtLeastAsSpecific(sorted[i], sorted[n]);
  }

  lemma {:induction false} NoReferenceMeansAllEmpty(entries: seq<ConsentEntry>, n: nat)
    requires PrimaryRef(entries) == "" && n < |entries|
    ensures entries[n].consentRef == ""
  {
    if n > 0 { NoReferenceMeansAllEmpty(entries[1..], n - 1); }
  }
}
