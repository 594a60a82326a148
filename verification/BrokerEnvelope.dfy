/** What a release of the default chain says beside its data: its envelope, in terms of the
    request and the grants alone. */
module BrokerEnvelope {
  import opened Wrappers
  import opened ConsentComposition
  import opened Broker
  import opened BrokerTheorems
  import opened BrokerReactors

  predicate SomeEntryLists(entries: seq<ConsentEntry>, field: string) {
    exists i :: 0 <= i < |entries| && field in entries[i].allowedFields
  }

  /** The private mode of a field: some entry that lists it attests. */
  predicate SomeEntryAttests(entries: seq<ConsentEntry>, field: string) {
    exists i :: 0 <= i < |entries| && field in entries[i].allowedFields && entries[i].mode == Attestation
  }

  ghost predicate EveryFieldHas(entries: seq<ConsentEntry>, mode: Mode) {
    forall f :: SomeEntryLists(entries, f) ==> (mode == Attestation <==> SomeEntryAttests(entries, f))
  }

  predicate ListsIn(e: ConsentEntry, field: string, mode: Mode) {
    field in e.allowedFields && e.mode == mode
  }

  /** The first entry that lists the field in this mode. */
  predicate FirstToList(entries: seq<ConsentEntry>, field: string, mode: Mode, i: nat) {
    && i < |entries| && ListsIn(entries[i], field, mode)
    && forall k :: 0 <= k < i ==> !ListsIn(entries[k], field, mode)
  }

  /** The first entry that carries a reference. */
  predicate FirstReferenced(entries: seq<ConsentEntry>, i: nat) {
    i < |entries| && entries[i].consentRef != "" && forall k :: 0 <= k < i ==> entries[k].consentRef == ""
  }

  predicate Unreferenced(entries: seq<ConsentEntry>) {
    forall k :: 0 <= k < |entries| ==> entries[k].consentRef == ""
  }

  /** What was released, to whom it answers, and when. */
  predicate Heads(e: Envelope, request: Request, releaseId: string, now: string) {
    && e.releaseId == (if request.preview then "preview" else releaseId)
    && e.scopeId == request.scope && e.purpose == request.purpose && e.issuedAt == now
  }

  /** One mode for everything granted, or mixed; and the first reference there is. */
  ghost predicate NamesGrants(e: Envelope, entries: seq<ConsentEntry>) {
    && (forall m :: e.mode == Uniform(m) <==> EveryFieldHas(entries, m))
    && (Unreferenced(entries) ==> e.consentReference == "preview")
    && (!Unreferenced(entries) ==>
          exists i: nat :: FirstReferenced(entries, i) && e.consentReference == entries[i].consentRef)
  }

  /** For each released field, its mode and the reference it was granted under. */
  ghost predicate AnswersFor(e: Envelope, entries: seq<ConsentEntry>, field: string)
    requires field in e.fieldModes && field in e.consentReferences
  {
    && (e.fieldModes[field] == Attestation <==> SomeEntryAttests(entries, field))
    && exists i: nat :: FirstToList(entries, field, e.fieldModes[field], i)
                        && e.consentReferences[field] == entries[i].consentRef
  }

  ghost predicate Says(e: Envelope, request: Request, entries: seq<ConsentEntry>, releaseId: string, now: string,
                       data: map<string, Released>) {
    && Heads(e, request, releaseId, now) && NamesGrants(e, entries)
    && e.fieldModes.Keys == data.Keys && e.consentReferences.Keys == data.Keys
    && forall f :: f in data ==> AnswersFor(e, entries, f)
  }

  lemma {:induction false} FirstRefIsFirst(entries: seq<ConsentEntry>, field: string, mode: Mode) returns (i: nat)
    requires exists k :: 0 <= k < |entries| && ListsIn(entries[k], field, mode)
    ensures FirstToList(entries, field, mode, i) && FirstRef(entries, field, mode) == entries[i].consentRef
  {
    if ListsIn(entries[0], field, mode) {
      i := 0;
    } else {
      var rest := entries[1..];
      var k :| 0 <= k < |entries| && ListsIn(entries[k], field, mode);
      assert rest[k - 1] == entries[k];
      var n := FirstRefIsFirst(rest, field, mode);
      i := n + 1;
      assert forall k :: 1 <= k < |entries| ==> entries[k] == rest[k - 1];
    }
  }

  lemma {:induction false} PrimaryRefIsFirst(entries: seq<ConsentEntry>)
    ensures Unreferenced(entries) <==> PrimaryRef(entries) == ""
    ensures PrimaryRef(entries) != "" ==>
              exists i: nat :: FirstReferenced(entries, i) && PrimaryRef(entries) == entries[i].consentRef
  {
    if PrimaryRef(entries) != "" {
      var i := PrimaryRefFound(entries);
      assert FirstReferenced(entries, i);
    } else {
      forall n | 0 <= n < |entries| ensures entries[n].consentRef == "" { NoReferenceMeansAllEmpty(entries, n); }
    }
  }

  lemma {:induction false} SummaryNames(entries: seq<ConsentEntry>, m: Mode)
    requires Composed(entries).Some?
    ensures Composed(entries).value.mode == Uniform(m) <==> EveryFieldHas(entries, m)
  {
    SummaryIff(entries);
    forall f ensures f in GrantMap(entries) <==> SomeEntryLists(entries, f) {
      InUnion(entries, f);
      assert forall i :: 0 <= i < |entries| ==> (Grants(entries[i], f) <==> f in entries[i].allowedFields);
    }
    forall f | f in GrantMap(entries)
      ensures GrantMap(entries)[f].mode == m <==> (m == Attestation <==> SomeEntryAttests(entries, f))
    {
      AttestsAlike(entries, f);
    }
  }

  lemma {:induction false} AttestsAlike(entries: seq<ConsentEntry>, f: string)
    ensures SomeAttests(entries, f) <==> SomeEntryAttests(entries, f)
    ensures SomeGrant(entries, f) <==> SomeEntryLists(entries, f)
  {
    assert forall i :: 0 <= i < |entries| ==> (Grants(entries[i], f) <==> f in entries[i].allowedFields);
  }

  /** What a state that holds the composed grants says of a granted field. */
  lemma {:induction false} FieldSays(entries: seq<ConsentEntry>, state: Pipeline, f: string, otherwise: string)
    requires state.fieldGrants == GrantMap(entries) && SomeGrant(entries, f)
    ensures ReleaseMode(state, f) == Attestation <==> SomeEntryAttests(entries, f)
    ensures exists i: nat :: FirstToList(entries, f, ReleaseMode(state, f), i)
                             && GrantReference(state, f, otherwise) == entries[i].consentRef
  {
    InUnion(entries, f);
    AttestsAlike(entries, f);
    var mode := ReleaseMode(state, f);
    assert mode == ModeOf(entries, f);
    var k :| 0 <= k < |entries| && Grants(entries[k], f) && (mode == Attestation ==> entries[k].mode == Attestation);
    assert ListsIn(entries[k], f, mode);
    var i := FirstRefIsFirst(entries, f, mode);
  }

  lemma {:induction false} FieldsSay(entries: seq<ConsentEntry>, state: Pipeline, data: map<string, Released>,
                                     e: Envelope, otherwise: string)
    requires state.fieldGrants == GrantMap(entries) && forall f :: f in data ==> SomeGrant(entries, f)
    requires e.fieldModes == map f | f in data :: ReleaseMode(state, f)
    requires e.consentReferences == map f | f in data :: GrantReference(state, f, otherwise)
    ensures e.fieldModes.Keys == data.Keys && e.consentReferences.Keys == data.Keys
    ensures forall f :: f in data ==> AnswersFor(e, entries, f)
  {
    forall f | f in data ensures AnswersFor(e, entries, f) {
      FieldSays(entries, state, f, otherwise);
    }
  }

  lemma {:induction false} GrantsSay(entries: seq<ConsentEntry>, e: Envelope)
    requires Composed(entries).Some? && e.mode == Composed(entries).value.mode
    requires e.consentReference == if PrimaryRef(entries) != "" then PrimaryRef(entries) else "preview"
    ensures NamesGrants(e, entries)
  {
    PrimaryRefIsFirst(entries);
    forall m ensures e.mode == Uniform(m) <==> EveryFieldHas(entries, m) { SummaryNames(entries, m); }
  }

  lemma {:induction false} PermittedIsGranted(request: Request, entries: seq<ConsentEntry>, pose: string -> Posed)
    ensures forall f :: f in Permitted(request, entries, pose) ==> SomeGrant(entries, f)
  {
  }

  lemma {:induction false} ReleaseSays(
      request: Request, entries: seq<ConsentEntry>, pose: string -> Posed, releaseId: string, faults: AuditFaults,
      now: string)
    requires !request.preview
    ensures var run := RunOf(DefaultChain(entries, pose, releaseId, now), request, faults, now);
            Releases(run) ==> Says(run.result.value.envelope, request, entries, releaseId, now, run.result.value.data)
  {
    var chain := DefaultChain(entries, pose, releaseId, now);
    DefaultChainReleasesIff(request, entries, pose, releaseId, faults, now);
    if Releases(RunOf(chain, request, faults, now)) {
      ConsentAndScope(request, entries, pose, releaseId, now);
      var state := After(chain, request, 2).state;
      ReleaseAndAudit(request, entries, pose, releaseId, now, state);
      var e := After(chain, request, 4).state.envelope.value;
      PermittedIsGranted(request, entries, pose);
      FieldsSay(entries, state, state.filteredData.value, e, "");
      GrantsSay(entries, e);
    }
  }

  lemma {:induction false} PreviewSays(
      request: Request, entries: seq<ConsentEntry>, pose: string -> Posed, releaseId: string, faults: AuditFaults,
      now: string)
    requires request.preview
    ensures var run := RunOf(DefaultChain(entries, pose, releaseId, now), request, faults, now);
            Releases(run) ==> Says(run.result.value.envelope, request, entries, releaseId, now, run.result.value.data)
  {
    var chain := DefaultChain(entries, pose, releaseId, now);
    DefaultChainPreviewsIff(request, entries, pose, releaseId, faults, now);
    if Releases(RunOf(chain, request, faults, now)) {
      ConsentAndScope(request, entries, pose, releaseId, now);
      var state := After(chain, request, 2).state;
      assert After(chain, request, 3) == Going(state) && After(chain, request, 4) == Going(state);
      var e := PreviewEnvelope(request, state, state.filteredData.value, now);
      PermittedIsGranted(request, entries, pose);
      FieldsSay(entries, state, state.filteredData.value, e, "preview");
      GrantsSay(entries, e);
    }
  }

  /** Every release of the default chain, real or previewed, names the request's scope and
      purpose and the time; one mode exactly when everything granted has it; the first
      reference the grants carry; and for each released field, and no other, the private
      mode if some grant of it is, and the reference of the first grant of it in its mode. */
  lemma {:induction false} EnvelopeSays(
      request: Request, entries: seq<ConsentEntry>, pose: string -> Posed, releaseId: string, faults: AuditFaults,
      now: string)
    ensures var run := RunOf(DefaultChain(entries, pose, releaseId, now), request, faults, now);
            Releases(run) ==> Says(run.result.value.envelope, request, entries, releaseId, now, run.result.value.data)
  {
    if request.preview {
      PreviewSays(request, entries, pose, releaseId, faults, now);
    } else {
      ReleaseSays(request, entries, pose, releaseId, faults, now);
    }
  }
}
