/** The built-in reactors in their default chain, and what that chain lets out: from the
    subject's grants to the released fields. */
module BrokerReactors {
  import opened Wrappers
  import opened ConsentComposition
  import opened Broker
  import opened BrokerTheorems

  /** What resolving the predicates posed on a field comes to. */
  datatype Posed = NotPosed | Fails(error: string) | Answers(claims: seq<string>)

  // ---- The reactors ---------------------------------------------------------------------

  function NoConsent(request: Request, details: string): Reply {
    Rejects(Rejection("no_consent", request.fields, details, None))
  }

  function ConsentReactor(entries: seq<ConsentEntry>, state: Pipeline): Reply {
    var request := state.request;
    match Composed(entries)
    case None =>
      NoConsent(request, "No consent found for subject=" + request.subject
                         + ", requester=" + request.requester + ", purpose=" + request.purpose)
    case Some(r) =>
      Next(state.(allowedFields := Some(r.allowedFields), mode := Some(r.mode),
                  consentReference := Some(r.consentRef), fieldGrants := r.fieldGrants))
  }

  /** The requested fields that are consented, as requested. */
  function Intersection(fields: seq<string>, allowed: seq<string>): seq<string> {
    if fields == [] then []
    else
      var last := fields[|fields| - 1];
      Intersection(fields[..|fields| - 1], allowed) + if last in allowed then [last] else []
  }

  /** A field that is present, is not released raw, and whose predicates cannot be resolved. */
  predicate Failing(state: Pipeline, pose: string -> Posed, field: string) {
    field in state.request.data && ReleaseMode(state, field) == Attestation && pose(field).Fails?
  }

  function FirstFailing(state: Pipeline, pose: string -> Posed, fields: seq<string>): Option<string> {
    if fields == [] then None
    else if Failing(state, pose, fields[0]) then Some(fields[0])
    else FirstFailing(state, pose, fields[1..])
  }

  function ReleasedAs(state: Pipeline, pose: string -> Posed, field: string): Released
    requires field in state.request.data
  {
    if ReleaseMode(state, field) == Raw then RawValue(state.request.data[field])
    else match pose(field) case Answers(claims) => Claims(claims) case _ => Attested
  }

  function Filtered(state: Pipeline, pose: string -> Posed, fields: seq<string>): map<string, Released> {
    map f | f in fields && f in state.request.data :: ReleasedAs(state, pose, f)
  }

  function JoinWithCommas(parts: seq<string>): string {
    if parts == [] then "" else if |parts| == 1 then parts[0] else parts[0] + ", " + JoinWithCommas(parts[1..])
  }

  function FailedPredicate(field: string, error: string): Reply {
    Rejects(Rejection("requester_unauthorized", [field],
                      "Predicate evaluation failed for " + field + ": " + error, None))
  }

  function ScopeReactor(pose: string -> Posed, state: Pipeline): Reply {
    if state.allowedFields.None? then NoConsent(state.request, "Consent not resolved before scope reactor")
    else
      var fields := Intersection(state.request.fields, state.allowedFields.value);
      if fields == [] then
        NoConsent(state.request, "None of the requested fields are consented. Allowed: ["
                                 + JoinWithCommas(state.allowedFields.value) + "]")
      else
        var failing := FirstFailing(state, pose, fields);
        if failing.Some? && pose(failing.value).Fails? then FailedPredicate(failing.value, pose(failing.value).error)
        else Next(state.(filteredData := Some(Filtered(state, pose, fields))))
  }

  lemma {:induction false} FirstFailingSnoc(state: Pipeline, pose: string -> Posed, fields: seq<string>, n: nat)
    requires n < |fields| && FirstFailing(state, pose, fields[..n]).None?
    ensures Failing(state, pose, fields[n]) ==> FirstFailing(state, pose, fields) == Some(fields[n])
    ensures !Failing(state, pose, fields[n]) ==> FirstFailing(state, pose, fields[..n + 1]).None?
  {
    if n > 0 {
      assert fields[1..][..n - 1] == fields[..n][1..];
      assert fields[1..][..n] == fields[..n + 1][1..];
      FirstFailingSnoc(state, pose, fields[1..], n - 1);
    }
  }

  /** The field loop of the scope reactor: it gives up at the first field it cannot resolve. */
  method ResolveFields(state: Pipeline, pose: string -> Posed, fields: seq<string>) returns (reply: Reply)
    ensures reply ==
      match FirstFailing(state, pose, fields)
      case Some(f) => FailedPredicate(f, if pose(f).Fails? then pose(f).error else "")
      case None => Next(state.(filteredData := Some(Filtered(state, pose, fields))))
  {
    var filteredData: map<string, Released> := map[];
    for n := 0 to |fields|
      invariant FirstFailing(state, pose, fields[..n]).None?
      invariant filteredData == Filtered(state, pose, fields[..n])
    {
      var f := fields[n];
      FirstFailingSnoc(state, pose, fields, n);
      if f !in state.request.data { continue; }
      var released: Released;
      if ReleaseMode(state, f) == Raw {
        released := RawValue(state.request.data[f]);
      } else {
        match pose(f) {
          case NotPosed => released := Attested;
          case Answers(claims) => released := Claims(claims);
          case Fails(error) => return FailedPredicate(f, error);
        }
      }
      filteredData := filteredData[f := released];
    }
    assert fields[..|fields|] == fields;
    reply := Next(state.(filteredData := Some(filteredData)));
  }

  function ReleaseReactor(releaseId: string, now: string, state: Pipeline): Reply {
    if state.filteredData.None? then Throws("Error: Release reactor: filteredData missing")
    else if state.mode.None? || state.consentReference.None? || state.consentReference.value == "" then
      Throws("Error: Release reactor: consent metadata missing")
    else
      var data := state.filteredData.value;
      Next(state.(envelope := Some(Envelope(releaseId, state.request.scope, state.request.purpose, now,
             state.consentReference.value, state.mode.value,
             map f | f in data :: ReleaseMode(state, f),
             map f | f in data :: GrantReference(state, f, "")))))
  }

  function AuditReactor(state: Pipeline): Reply {
    if !state.request.preview && state.envelope.None? then Throws("Error: Audit reactor: envelope missing")
    else Next(state)
  }

  /** consent, scope, release, audit; the grants, predicate answers, identifier and time
      are what the world supplies to the call. */
  function DefaultChain(entries: seq<ConsentEntry>, pose: string -> Posed, releaseId: string, now: string)
    : seq<ChainStep>
  {
    [ChainStep("consent", (_, state) => ConsentReactor(entries, state)),
     ChainStep("scope", (_, state) => ScopeReactor(pose, state)),
     ChainStep("release", (_, state) => ReleaseReactor(releaseId, now, state)),
     ChainStep("audit", (_, state) => AuditReactor(state))]
  }

  // ---- What the chain lets out ----------------------------------------------------------

  lemma {:induction false} InIntersection(fields: seq<string>, allowed: seq<string>, f: string)
    ensures f in Intersection(fields, allowed) <==> f in fields && f in allowed
  {
    if fields != [] {
      InIntersection(fields[..|fields| - 1], allowed, f);
      assert fields == fields[..|fields| - 1] + [fields[|fields| - 1]];
    }
  }

  lemma {:induction false} FirstFailingFails(state: Pipeline, pose: string -> Posed, fields: seq<string>)
    ensures var f := FirstFailing(state, pose, fields); f.Some? ==> Failing(state, pose, f.value)
    ensures FirstFailing(state, pose, fields).None? <==> forall f :: f in fields ==> !Failing(state, pose, f)
  {
    if fields != [] {
      FirstFailingFails(state, pose, fields[1..]);
      assert fields == [fields[0]] + fields[1..];
    }
  }

  /** Asked for and granted. */
  predicate Consented(request: Request, entries: seq<ConsentEntry>, field: string) {
    field in request.fields && SomeGrant(entries, field)
  }

  /** A consented field that is present, attested by some grant, and whose predicates
      cannot be resolved. */
  predicate Unanswerable(request: Request, entries: seq<ConsentEntry>, pose: string -> Posed, field: string) {
    Consented(request, entries, field) && field in request.data && SomeAttests(entries, field) && pose(field).Fails?
  }

  ghost predicate Answerable(request: Request, entries: seq<ConsentEntry>, pose: string -> Posed) {
    && (exists f :: Consented(request, entries, f))
    && (forall f :: !Unanswerable(request, entries, pose, f))
  }

  /** What the subject's grants let out of the request. */
  function Permitted(request: Request, entries: seq<ConsentEntry>, pose: string -> Posed): map<string, Released> {
    map f | f in request.fields && SomeGrant(entries, f) && f in request.data ::
      if !SomeAttests(entries, f) then RawValue(request.data[f])
      else match pose(f) case Answers(claims) => Claims(claims) case _ => Attested
  }

  lemma {:induction false} ConsentedModes(request: Request, entries: seq<ConsentEntry>, state: Pipeline, f: string)
    requires Composed(entries).Some? && ConsentReactor(entries, Initial(request)) == Next(state)
            && SomeGrant(entries, f)
    ensures f in state.fieldGrants && (ReleaseMode(state, f) == Attestation <==> SomeAttests(entries, f))
  {
    InUnion(entries, f);
  }

  /** The state the chain reaches after consent and scope, when it gets that far. */
  lemma {:induction false} ConsentAndScope(request: Request, entries: seq<ConsentEntry>, pose: string -> Posed,
                                           releaseId: string, now: string)
    ensures var p := After(DefaultChain(entries, pose, releaseId, now), request, 2);
            && (p.Going? <==> Answerable(request, entries, pose))
            && (p.Going? ==>
                  && p.state.request == request && p.state.envelope.None? && p.state.mode.Some?
                  && Composed(entries).Some? && p.state.mode == Some(Composed(entries).value.mode)
                  && p.state.consentReference == Some(PrimaryRef(entries))
                  && p.state.fieldGrants == GrantMap(entries)
                  && p.state.filteredData == Some(Permitted(request, entries, pose)))
  {
    var chain := DefaultChain(entries, pose, releaseId, now);
    var start := After(chain, request, 0);
    var first := ConsentReactor(entries, Initial(request));
    assert After(chain, request, 1) == Progressed(0, first);
    assert forall f :: Consented(request, entries, f) ==> SomeGrant(entries, f);
    if Composed(entries).None? {
      forall f ensures !SomeGrant(entries, f) { InUnion(entries, f); }
      assert After(chain, request, 2) == After(chain, request, 1);
    } else {
      var state := first.state;
      assert After(chain, request, 2) == Progressed(1, ScopeReactor(pose, state));
      ScopeOutcome(request, entries, pose, state);
    }
  }

  lemma {:induction false} ScopeOutcome(request: Request, entries: seq<ConsentEntry>, pose: string -> Posed,
                                        state: Pipeline)
    requires Composed(entries).Some? && ConsentReactor(entries, Initial(request)) == Next(state)
    ensures var reply := ScopeReactor(pose, state);
            && !reply.Throws?
            && (reply.Next? <==> Answerable(request, entries, pose))
            && (reply.Next? ==> reply.state == state.(filteredData := Some(Permitted(request, entries, pose))))
  {
    var fields := Intersection(request.fields, UnionOf(entries));
    forall f ensures f in fields <==> Consented(request, entries, f) {
      InIntersection(request.fields, UnionOf(entries), f);
      InUnion(entries, f);
    }
    if fields == [] {
      assert forall f :: Consented(request, entries, f) ==> f in fields;
    } else {
      assert fields[0] in fields;
      FirstFailingFails(state, pose, fields);
      forall f | f in fields ensures Failing(state, pose, f) <==> Unanswerable(request, entries, pose, f) {
        ConsentedModes(request, entries, state, f);
      }
      forall f ensures Unanswerable(request, entries, pose, f) ==> f in fields { }
      FilteredIsPermitted(request, entries, pose, state, fields);
    }
  }

  lemma {:induction false} FilteredIsPermitted(
      request: Request, entries: seq<ConsentEntry>, pose: string -> Posed, state: Pipeline, fields: seq<string>)
    requires Composed(entries).Some? && ConsentReactor(entries, Initial(request)) == Next(state)
    requires forall f :: f in fields <==> Consented(request, entries, f)
    ensures Filtered(state, pose, fields) == Permitted(request, entries, pose)
  {
    var a, b := Filtered(state, pose, fields), Permitted(request, entries, pose);
    assert forall f :: f in a <==> f in b;
    forall f | f in a ensures a[f] == b[f] { ConsentedModes(request, entries, state, f); }
  }

  /** What release and audit make of that state outside preview. */
  lemma {:induction false} ReleaseAndAudit(request: Request, entries: seq<ConsentEntry>, pose: string -> Posed,
                                           releaseId: string, now: string, state: Pipeline)
    requires !request.preview && After(DefaultChain(entries, pose, releaseId, now), request, 2) == Going(state)
    requires state.request == request && state.filteredData.Some? && state.mode.Some? && state.consentReference.Some?
    ensures var p := After(DefaultChain(entries, pose, releaseId, now), request, 4);
            && (p.Going? <==> state.consentReference.value != "")
            && (p.Going? ==>
                  && p.state.envelope.Some? && p.state.filteredData == state.filteredData
                  && ReleaseReactor(releaseId, now, state) == Next(state.(envelope := p.state.envelope)))
  {
    var chain := DefaultChain(entries, pose, releaseId, now);
    var third := ReleaseReactor(releaseId, now, state);
    assert After(chain, request, 3) == Progressed(2, third);
    if third.Next? {
      assert After(chain, request, 4) == Progressed(3, AuditReactor(third.state));
    } else {
      StoppedStays(chain, request, 3, 4);
    }
  }

  /** Outside preview, the default chain releases exactly when something requested is
      granted, every posed predicate can be answered, and the grants name a reference;
      what it releases is exactly what the grants permit. */
  lemma {:induction false} DefaultChainReleasesIff(
      request: Request, entries: seq<ConsentEntry>, pose: string -> Posed, releaseId: string, faults: AuditFaults,
      now: string)
    requires !request.preview
    ensures var result := RunOf(DefaultChain(entries, pose, releaseId, now), request, faults, now).result;
            && (result.Some? && result.value.Release?
                <==> Answerable(request, entries, pose) && PrimaryRef(entries) != "")
            && (result.Some? && result.value.Release? ==> result.value.data == Permitted(request, entries, pose))
  {
    FinalProgress(request, entries, pose, releaseId, now);
    ReleasedIffGoing(DefaultChain(entries, pose, releaseId, now), request, faults, now);
  }

  lemma {:induction false} FinalProgress(request: Request, entries: seq<ConsentEntry>, pose: string -> Posed,
                                         releaseId: string, now: string)
    requires !request.preview
    ensures var p := After(DefaultChain(entries, pose, releaseId, now), request, 4);
            && (p.Going? <==> Answerable(request, entries, pose) && PrimaryRef(entries) != "")
            && (p.Going? ==> p.state.envelope.Some? && p.state.filteredData == Some(Permitted(request, entries, pose)))
  {
    var chain := DefaultChain(entries, pose, releaseId, now);
    ConsentAndScope(request, entries, pose, releaseId, now);
    var p := After(chain, request, 2);
    if p.Going? {
      ReleaseAndAudit(request, entries, pose, releaseId, now, p.state);
    } else {
      StoppedStays(chain, request, 2, 4);
    }
  }

  /** In preview it does so whether or not there is a reference. */
  lemma {:induction false} DefaultChainPreviewsIff(
      request: Request, entries: seq<ConsentEntry>, pose: string -> Posed, releaseId: string, faults: AuditFaults,
      now: string)
    requires request.preview
    ensures var result := RunOf(DefaultChain(entries, pose, releaseId, now), request, faults, now).result;
            && (result.Some? && result.value.Release? <==> Answerable(request, entries, pose))
            && (result.Some? && result.value.Release? ==> result.value.data == Permitted(request, entries, pose))
  {
    var chain := DefaultChain(entries, pose, releaseId, now);
    ConsentAndScope(request, entries, pose, releaseId, now);
    var p := After(chain, request, 2);
    if p.Going? {
      assert After(chain, request, 3) == p;
      assert After(chain, request, 4) == p;
    } else {
      StoppedStays(chain, request, 2, 4);
    }
  }

  predicate Releases(run: Run) {
    run.result.Some? && run.result.value.Release?
  }

  /** A preview that releases predicts the real release, data and all, exactly when the
      grants name a consent reference; with none, the real run refuses. */
  lemma {:induction false} PreviewPredictsReleaseIff(
      request: Request, entries: seq<ConsentEntry>, pose: string -> Posed, releaseId: string, faults: AuditFaults,
      now: string)
    ensures var chain := DefaultChain(entries, pose, releaseId, now);
            var preview := RunOf(chain, request.(preview := true), faults, now);
            var actual := RunOf(chain, request.(preview := false), faults, now);
            && (Releases(actual) <==> Releases(preview) && PrimaryRef(entries) != "")
            && (Releases(actual) ==> actual.result.value.data == preview.result.value.data)
  {
    DefaultChainPreviewsIff(request.(preview := true), entries, pose, releaseId, faults, now);
    DefaultChainReleasesIff(request.(preview := false), entries, pose, releaseId, faults, now);
    SameQuestion(request, entries, pose);
  }

  /** One field, asked for, present and granted raw, by a grant without a reference. */
  const UNREFERENCED := [ConsentEntry(["name"], Raw, "")]

  function AskForName(preview: bool): Request {
    Request("requester", "subject", ["name"], "purpose", "scope", map["name" := "A"], preview, false)
  }

  lemma {:induction false} NameIsGranted(preview: bool, pose: string -> Posed)
    ensures Answerable(AskForName(preview), UNREFERENCED, pose)
    ensures Permitted(AskForName(preview), UNREFERENCED, pose) == map["name" := RawValue("A")]
    ensures PrimaryRef(UNREFERENCED) == ""
  {
    var request := AskForName(preview);
    assert Grants(UNREFERENCED[0], "name") by { assert UNREFERENCED[0].allowedFields[0] == "name"; }
    assert "name" in request.fields by { assert request.fields[0] == "name"; }
    assert Consented(request, UNREFERENCED, "name");
    assert UNREFERENCED[1..] == [];
  }

  /** A request whose preview releases what the real run refuses. */
  lemma {:induction false} PreviewMisleads(pose: string -> Posed, releaseId: string, faults: AuditFaults, now: string)
    ensures var chain := DefaultChain(UNREFERENCED, pose, releaseId, now);
            && Releases(RunOf(chain, AskForName(true), faults, now))
            && RunOf(chain, AskForName(true), faults, now).result.value.data == map["name" := RawValue("A")]
            && !Releases(RunOf(chain, AskForName(false), faults, now))
  {
    NameIsGranted(true, pose);
    DefaultChainPreviewsIff(AskForName(true), UNREFERENCED, pose, releaseId, faults, now);
    DefaultChainReleasesIff(AskForName(false), UNREFERENCED, pose, releaseId, faults, now);
  }

  lemma {:induction false} SameQuestion(request: Request, entries: seq<ConsentEntry>, pose: string -> Posed)
    ensures var a, b := request.(preview := true), request.(preview := false);
            && (Answerable(a, entries, pose) <==> Answerable(b, entries, pose))
            && Permitted(a, entries, pose) == Permitted(b, entries, pose)
  {
    var a, b := request.(preview := true), request.(preview := false);
    assert forall f :: Consented(a, entries, f) <==> Consented(b, entries, f);
    assert forall f :: Unanswerable(a, entries, pose, f) <==> Unanswerable(b, entries, pose, f);
  }

  /** Whatever the mode, nothing leaves that the subject did not grant: every released
      field was asked for and granted by some entry, and its value leaves only if every
      entry granting it is raw. */
  lemma {:induction false} NothingBeyondConsent(
      request: Request, entries: seq<ConsentEntry>, pose: string -> Posed, releaseId: string, faults: AuditFaults,
      now: string, f: string)
    requires var run := RunOf(DefaultChain(entries, pose, releaseId, now), request, faults, now);
             Releases(run) && f in run.result.value.data
    ensures var run := RunOf(DefaultChain(entries, pose, releaseId, now), request, faults, now);
            var released := run.result.value.data[f];
            && Consented(request, entries, f) && f in request.data
            && (released.RawValue? <==> AllRaw(entries, f))
            && (released.RawValue? ==> released.value == request.data[f])
  {
    if request.preview {
      DefaultChainPreviewsIff(request, entries, pose, releaseId, faults, now);
    } else {
      DefaultChainReleasesIff(request, entries, pose, releaseId, faults, now);
    }
  }

  // ---- Shadow and enforce ---------------------------------------------------------------

  lemma {:induction false} ShadedFirstFailing(state: Pipeline, pose: string -> Posed, fields: seq<string>, shadow: bool)
    ensures FirstFailing(Shade(state, shadow), pose, fields) == FirstFailing(state, pose, fields)
  {
    if fields != [] { ShadedFirstFailing(state, pose, fields[1..], shadow); }
  }

  lemma {:induction false} ShadedFiltered(state: Pipeline, pose: string -> Posed, fields: seq<string>, shadow: bool)
    ensures Filtered(Shade(state, shadow), pose, fields) == Filtered(state, pose, fields)
  {
  }

  lemma {:induction false} ScopeIgnoresMode(pose: string -> Posed, s: Pipeline, shadow: bool)
    ensures ShadeReply(ScopeReactor(pose, Shade(s, shadow)), true) == ShadeReply(ScopeReactor(pose, s), true)
  {
    if s.allowedFields.Some? {
      var fields := Intersection(s.request.fields, s.allowedFields.value);
      ShadedFirstFailing(s, pose, fields, shadow);
      ShadedFiltered(s, pose, fields, shadow);
    }
  }

  lemma {:induction false} ReleaseIgnoresMode(releaseId: string, now: string, s: Pipeline, shadow: bool)
    ensures ShadeReply(ReleaseReactor(releaseId, now, Shade(s, shadow)), true)
         == ShadeReply(ReleaseReactor(releaseId, now, s), true)
  {
    if s.filteredData.Some? {
      var data, t := s.filteredData.value, Shade(s, shadow);
      assert (map f | f in data :: ReleaseMode(t, f)) == (map f | f in data :: ReleaseMode(s, f));
      assert (map f | f in data :: GrantReference(t, f, "")) == (map f | f in data :: GrantReference(s, f, ""));
    }
  }

  ghost predicate StepIgnoresMode(step: ChainStep) {
    forall i, s, shadow ::
      ShadeReply(step.reactor(i, Shade(s, shadow)), true) == ShadeReply(step.reactor(i, s), true)
  }

  lemma {:induction false} ConsentStepIgnoresMode(entries: seq<ConsentEntry>, pose: string -> Posed,
                                                  releaseId: string, now: string)
    ensures StepIgnoresMode(DefaultChain(entries, pose, releaseId, now)[0])
  {
  }

  lemma {:induction false} ScopeStepIgnoresMode(entries: seq<ConsentEntry>, pose: string -> Posed,
                                                releaseId: string, now: string)
    ensures StepIgnoresMode(DefaultChain(entries, pose, releaseId, now)[1])
  {
    forall s, shadow
      ensures ShadeReply(ScopeReactor(pose, Shade(s, shadow)), true) == ShadeReply(ScopeReactor(pose, s), true)
    {
      ScopeIgnoresMode(pose, s, shadow);
    }
  }

  lemma {:induction false} ReleaseStepIgnoresMode(entries: seq<ConsentEntry>, pose: string -> Posed,
                                                  releaseId: string, now: string)
    ensures StepIgnoresMode(DefaultChain(entries, pose, releaseId, now)[2])
  {
    forall s, shadow
      ensures ShadeReply(ReleaseReactor(releaseId, now, Shade(s, shadow)), true)
           == ShadeReply(ReleaseReactor(releaseId, now, s), true)
    {
      ReleaseIgnoresMode(releaseId, now, s, shadow);
    }
  }

  lemma {:induction false} AuditStepIgnoresMode(entries: seq<ConsentEntry>, pose: string -> Posed,
                                                releaseId: string, now: string)
    ensures StepIgnoresMode(DefaultChain(entries, pose, releaseId, now)[3])
  {
  }

  lemma {:induction false} FourStepsIgnoreMode(chain: seq<ChainStep>)
    requires |chain| == 4 && StepIgnoresMode(chain[0]) && StepIgnoresMode(chain[1])
    requires StepIgnoresMode(chain[2]) && StepIgnoresMode(chain[3])
    ensures IgnoresMode(chain)
  {
    forall i, s, shadow | 0 <= i < |chain|
      ensures ShadeReply(chain[i].reactor(i, Shade(s, shadow)), true) == ShadeReply(chain[i].reactor(i, s), true)
    {
      assert StepIgnoresMode(chain[i]);
    }
  }

  /** No reactor of the default chain reads the mode. */
  lemma {:induction false} DefaultChainIgnoresMode(entries: seq<ConsentEntry>, pose: string -> Posed,
                                                   releaseId: string, now: string)
    ensures IgnoresMode(DefaultChain(entries, pose, releaseId, now))
  {
    ConsentStepIgnoresMode(entries, pose, releaseId, now);
    ScopeStepIgnoresMode(entries, pose, releaseId, now);
    ReleaseStepIgnoresMode(entries, pose, releaseId, now);
    AuditStepIgnoresMode(entries, pose, releaseId, now);
    FourStepsIgnoreMode(DefaultChain(entries, pose, releaseId, now));
  }

  /** So a shadow run of the default chain says what the enforced run would do. */
  lemma {:induction false} DefaultShadowPredicts(
      request: Request, entries: seq<ConsentEntry>, pose: string -> Posed, releaseId: string, faults: AuditFaults,
      now: string)
    ensures WithoutEnforced(RunOf(DefaultChain(entries, pose, releaseId, now), request.(shadow := true), faults, now))
         == WithoutEnforced(RunOf(DefaultChain(entries, pose, releaseId, now), request.(shadow := false), faults, now))
  {
    DefaultChainIgnoresMode(entries, pose, releaseId, now);
    ShadowDiffersOnlyInEnforced(DefaultChain(entries, pose, releaseId, now), request, faults, now);
  }
}
