/** What a broker call answers: what each refusal says and why, and what a preview says of
    the state it ends in, over any chain; and the refusals of the default chain. */
module BrokerOutcomes {
  import opened Wrappers
  import opened ChainConfig
  import opened ConsentComposition
  import opened Broker
  import Publish
  import opened BrokerTheorems
  import opened BrokerReactors
  import opened BrokerEnvelope

  /** The refusal the broker itself makes, in the name of the whole request. */
  predicate RefusesAll(result: Option<BrokerResult>, request: Request, details: string) {
    result == Some(Refused(Rejection("requester_unauthorized", request.fields, details, Some(!request.shadow))))
  }

  ghost predicate AuditsSucceed(faults: AuditFaults) {
    forall n :: faults(n).None?
  }

  /** A reactor's rejection is returned as it is, with the flag; a throw is named with its
      reactor; an accepting run without data, or without envelope unless it is a preview, is
      refused as incomplete; and any other run releases. */
  lemma {:induction false} AnswerSays(chain: seq<ChainStep>, request: Request, faults: AuditFaults, now: string)
    requires AuditsSucceed(faults)
    ensures var result := RunOf(chain, request, faults, now).result;
            match After(chain, request, |chain|)
            case Rejected(at, r) =>
              result == Some(Refused(Rejection(r.reason, r.fields, r.details, Some(!request.shadow))))
            case Threw(at, error) => RefusesAll(result, request, "Reactor " + chain[at].kind + " threw: " + error)
            case Going(s) =>
              if s.filteredData.None? then
                RefusesAll(result, request, "Pipeline completed but release data is incomplete")
              else if !request.preview && s.envelope.None? then
                RefusesAll(result, request, "Pipeline completed but envelope is missing")
              else result.Some? && result.value.Release? && result.value.data == s.filteredData.value
  {
  }

  // ---- What runs ----------------------------------------------------------------------------

  /** A preview calls no reactor that would issue or record a release. */
  predicate Previewable(kind: string) {
    kind != "release" && kind != "audit"
  }

  lemma {:induction false} DueAre(chain: seq<ChainStep>, request: Request, n: nat)
    requires n <= |chain|
    ensures var due := Due(chain, request, n);
            && (forall i :: i in due <==> 0 <= i < n && (request.preview ==> Previewable(chain[i].kind)))
            && (forall j, k :: 0 <= j < k < |due| ==> due[j] < due[k])
  {
    if n > 0 {
      var front := Due(chain, request, n - 1);
      DueAre(chain, request, n - 1);
      assert forall k :: 0 <= k < |front| ==> front[k] in front;
    }
  }

  /** The reactors called, once each and in order: all up to the one that rejected or threw,
      but in a preview none that releases or audits. */
  lemma {:induction false} RunCalls(chain: seq<ChainStep>, request: Request, faults: AuditFaults, now: string)
    ensures var ran, p := RunOf(chain, request, faults, now).ran, After(chain, request, |chain|);
            && (forall i :: i in ran <==>
                  && 0 <= i < |chain| && (p.Going? || i <= p.at)
                  && (request.preview ==> Previewable(chain[i].kind)))
            && (forall j, k :: 0 <= j < k < |ran| ==> ran[j] < ran[k])
  {
    var p := After(chain, request, |chain|);
    NothingRunsAfterTheStop(chain, request, faults, now);
    DueAre(chain, request, if p.Going? then |chain| else p.at + 1);
  }

  lemma {:induction false} AllAreKnown(rs: seq<ReactorConfig>, registry: map<string, Reactor>)
    requires forall r :: r in rs && r.enabled ==> r.kind in registry
    ensures AllKnown(rs, registry)
  {
    forall i | 0 <= i < |rs| && rs[i].enabled ensures rs[i].kind in registry { assert rs[i] in rs; }
  }

  lemma {:induction false} NoneEnabled(rs: seq<ReactorConfig>)
    ensures Publish.EnabledUpTo(rs, |rs|) == [] <==> forall r :: r in rs ==> !r.enabled
  {
    var at := Publish.EnabledUpTo(rs, |rs|);
    Publish.EnabledUpToIsOrdered(rs, |rs|);
    if at != [] { assert at[0] in at && rs[at[0]] in rs; }
    forall i | 0 <= i < |rs| && rs[i].enabled ensures i in at {
    }
  }

  /** The chain of a configuration whose enabled reactors are all registered: those, each
      under its name and in order; or the default one if there are none. */
  lemma {:induction false} ChainIs(config: Chain, registry: map<string, Reactor>, defaultChain: seq<ChainStep>)
    requires forall r :: r in config.reactors && r.enabled ==> r.kind in registry
    ensures AllKnown(config.reactors, registry)
    ensures ChainFor(None, registry, defaultChain) == defaultChain
    ensures var rs, chain := config.reactors, ChainFor(Some(config), registry, defaultChain);
            var at := Publish.EnabledUpTo(rs, |rs|);
            if forall r :: r in rs ==> !r.enabled then chain == defaultChain
            else |chain| == |at| && forall k :: 0 <= k < |at| ==> IsStepFor(chain[k], rs, registry, at[k])
  {
    AllAreKnown(config.reactors, registry);
    EnabledStepsAre(config.reactors, registry);
    NoneEnabled(config.reactors);
  }

  // ---- Previews -----------------------------------------------------------------------------

  /** A field is shown raw if its grant is, or, without a grant, if everything is. */
  predicate ShownRaw(s: Pipeline, field: string) {
    if field in s.fieldGrants then s.fieldGrants[field].mode == Raw else s.mode == Some(Uniform(Raw))
  }

  /** The reference of a field's grant, or of the consent, or none yet. */
  predicate ShownUnder(s: Pipeline, field: string, reference: string) {
    if field in s.fieldGrants then reference == s.fieldGrants[field].consentReference
    else if s.consentReference.Some? then reference == s.consentReference.value
    else reference == "preview"
  }

  predicate Previews(e: Envelope, request: Request, s: Pipeline, now: string)
    requires s.filteredData.Some?
  {
    && Heads(e, request, "", now)
    && e.mode == (if s.mode.Some? then s.mode.value else Uniform(Attestation))
    && (e.consentReference == "preview" || s.consentReference == Some(e.consentReference))
    && (e.consentReference == "preview" <==>
          s.consentReference == None || s.consentReference == Some("") || s.consentReference == Some("preview"))
    && e.fieldModes.Keys == s.filteredData.value.Keys && e.consentReferences.Keys == s.filteredData.value.Keys
    && (forall f :: f in s.filteredData.value ==>
          (e.fieldModes[f] == Raw <==> ShownRaw(s, f)) && ShownUnder(s, f, e.consentReferences[f]))
  }

  /** Whatever chain ran: a preview shows the state it ended in, with no more than the
      placeholder where that has no reference. */
  lemma {:induction false} PreviewShows(chain: seq<ChainStep>, request: Request, faults: AuditFaults, now: string)
    requires request.preview
    ensures var run := RunOf(chain, request, faults, now);
            var p := After(chain, request, |chain|);
            p.Going? && p.state.filteredData.Some? ==>
              Releases(run) && run.result.value.preview && Previews(run.result.value.envelope, request, p.state, now)
  {
  }

  // ---- The default chain --------------------------------------------------------------------

  lemma {:induction false} IntersectionCons(f: string, rest: seq<string>, allowed: seq<string>)
    ensures Intersection([f] + rest, allowed)
         == (if f in allowed then [f] else []) + Intersection(rest, allowed)
  {
    if rest == [] {
      assert [f] + rest == [f] && [f][..0] == [];
    } else {
      var front, last := rest[..|rest| - 1], rest[|rest| - 1];
      IntersectionCons(f, front, allowed);
      assert ([f] + rest)[..|rest|] == [f] + front;
    }
  }

  /** Of these fields, one that cannot be answered, none before it being such. */
  predicate FirstUnanswerableIn(request: Request, entries: seq<ConsentEntry>, pose: string -> Posed,
                                fields: seq<string>, i: nat) {
    && i < |fields| && Unanswerable(request, entries, pose, fields[i])
    && forall k :: 0 <= k < i ==> !Unanswerable(request, entries, pose, fields[k])
  }

  lemma {:induction false} FailingCons(state: Pipeline, pose: string -> Posed, f: string, rest: seq<string>)
    ensures FirstFailing(state, pose, [f] + rest)
         == if Failing(state, pose, f) then Some(f) else FirstFailing(state, pose, rest)
    ensures [] + rest == rest
  {
    assert ([f] + rest)[1..] == rest;
  }

  /** Among the requested fields that are granted, the first that cannot be resolved. */
  lemma {:induction false} FirstFailingAmong(request: Request, entries: seq<ConsentEntry>, pose: string -> Posed,
                                             state: Pipeline, fields: seq<string>, allowed: seq<string>)
    requires forall f :: Unanswerable(request, entries, pose, f) ==> f in allowed
    requires forall f :: f in allowed && f in fields ==>
               (Failing(state, pose, f) <==> Unanswerable(request, entries, pose, f))
    ensures var found := FirstFailing(state, pose, Intersection(fields, allowed));
            if found.Some? then
              exists i: nat :: FirstUnanswerableIn(request, entries, pose, fields, i) && fields[i] == found.value
            else forall k :: 0 <= k < |fields| ==> !Unanswerable(request, entries, pose, fields[k])
  {
    if fields != [] {
      var f, rest := fields[0], fields[1..];
      assert fields == [f] + rest;
      IntersectionCons(f, rest, allowed);
      FirstFailingAmong(request, entries, pose, state, rest, allowed);
      FailingCons(state, pose, f, Intersection(rest, allowed));
      var found := FirstFailing(state, pose, Intersection(rest, allowed));
      if Unanswerable(request, entries, pose, f) {
        assert FirstUnanswerableIn(request, entries, pose, fields, 0);
      } else if found.Some? {
        var i: nat :| FirstUnanswerableIn(request, entries, pose, rest, i) && rest[i] == found.value;
        assert forall k :: 1 <= k < |fields| ==> fields[k] == rest[k - 1];
        assert FirstUnanswerableIn(request, entries, pose, fields, i + 1);
      } else {
        assert forall k :: 1 <= k < |fields| ==> fields[k] == rest[k - 1];
      }
    }
  }

  /** The refusal names the first requested field that cannot be answered, and why. */
  ghost predicate NamesFirst(request: Request, entries: seq<ConsentEntry>, pose: string -> Posed, r: Rejection) {
    exists i: nat :: FirstUnanswerableIn(request, entries, pose, request.fields, i)
                     && SaysOf(pose, request.fields[i], r)
  }

  predicate SaysOf(pose: string -> Posed, f: string, r: Rejection) {
    r.reason == "requester_unauthorized" && r.fields == [f] && pose(f).Fails?
    && r.details == "Predicate evaluation failed for " + f + ": " + pose(f).error
  }

  /** `parts.join(', ')`. */
  function CommaList(parts: seq<string>): string {
    if |parts| == 0 then ""
    else if |parts| == 1 then parts[0]
    else CommaList(parts[..|parts| - 1]) + ", " + parts[|parts| - 1]
  }

  lemma {:induction false} JoinedSnoc(front: seq<string>, last: string)
    requires front != []
    ensures JoinWithCommas(front + [last]) == JoinWithCommas(front) + ", " + last
  {
    var all := front + [last];
    if |front| == 1 {
      assert all[1..] == [last];
    } else {
      assert all[1..] == front[1..] + [last];
      JoinedSnoc(front[1..], last);
    }
  }

  lemma {:induction false} JoinIsList(parts: seq<string>)
    ensures JoinWithCommas(parts) == CommaList(parts)
  {
    if |parts| > 1 {
      var front, last := parts[..|parts| - 1], parts[|parts| - 1];
      JoinIsList(front);
      JoinedSnoc(front, last);
      assert parts == front + [last];
    }
  }

  /** Nothing was granted at all, or nothing of what was requested; then what is granted is
      named. */
  predicate LacksConsent(request: Request, entries: seq<ConsentEntry>, r: Rejection) {
    && r.reason == "no_consent" && r.fields == request.fields
    && r.details == (if forall i :: 0 <= i < |entries| ==> entries[i].allowedFields == []
                     then "No consent found for subject=" + request.subject + ", requester=" + request.requester
                          + ", purpose=" + request.purpose
                     else "None of the requested fields are consented. Allowed: [" + CommaList(UnionOf(entries)) + "]")
  }

  lemma {:induction false} GrantedFields(request: Request, entries: seq<ConsentEntry>)
    ensures forall f :: f in UnionOf(entries) <==> SomeGrant(entries, f)
    ensures forall f :: f in Intersection(request.fields, UnionOf(entries)) <==> Consented(request, entries, f)
  {
    forall f
      ensures f in UnionOf(entries) <==> SomeGrant(entries, f)
      ensures f in Intersection(request.fields, UnionOf(entries)) <==> Consented(request, entries, f)
    {
      InUnion(entries, f);
      InIntersection(request.fields, UnionOf(entries), f);
    }
  }

  /** What the scope reactor says of the first field it cannot resolve. */
  lemma {:induction false} ScopeNamesFirst(request: Request, entries: seq<ConsentEntry>, pose: string -> Posed,
                                           state: Pipeline, f: string)
    requires Composed(entries).Some? && ConsentReactor(entries, Initial(request)) == Next(state)
    requires Unanswerable(request, entries, pose, f)
    ensures var reply := ScopeReactor(pose, state);
            reply.Rejects? && NamesFirst(request, entries, pose, reply.rejection)
  {
    var allowed := UnionOf(entries);
    GrantedFields(request, entries);
    forall g | g in allowed && g in request.fields
      ensures Failing(state, pose, g) <==> Unanswerable(request, entries, pose, g)
    {
      ConsentedModes(request, entries, state, g);
    }
    FirstFailingAmong(request, entries, pose, state, request.fields, allowed);
    var fields := Intersection(request.fields, allowed);
    assert f in fields;
    var found := FirstFailing(state, pose, fields);
    var n :| 0 <= n < |request.fields| && request.fields[n] == f;
    var i: nat :| FirstUnanswerableIn(request, entries, pose, request.fields, i) && request.fields[i] == found.value;
    assert SaysOf(pose, request.fields[i], ScopeReactor(pose, state).rejection);
  }

  lemma {:induction false} NoMembers(fields: seq<string>)
    ensures fields == [] <==> forall f :: f !in fields
  {
    if fields != [] { assert fields[0] in fields; }
  }

  /** What consent and scope say when nothing requested is granted. */
  lemma {:induction false} NothingGranted(request: Request, entries: seq<ConsentEntry>, pose: string -> Posed,
                                          state: Pipeline)
    requires ConsentReactor(entries, Initial(request)) == Next(state)
    requires forall f :: !Consented(request, entries, f)
    ensures var reply := ScopeReactor(pose, state); reply.Rejects? && LacksConsent(request, entries, reply.rejection)
  {
    GrantedFields(request, entries);
    NoMembers(Intersection(request.fields, UnionOf(entries)));
    JoinIsList(UnionOf(entries));
    GrantedAndRawIff(entries, "");
  }

  /** The default chain stopped at consent or scope. */
  ghost predicate StopsFor(request: Request, entries: seq<ConsentEntry>, pose: string -> Posed, p: Progress) {
    p.Rejected? && if forall f :: !Consented(request, entries, f) then LacksConsent(request, entries, p.rejection)
                   else NamesFirst(request, entries, pose, p.rejection)
  }

  lemma {:induction false} StopsAtScope(request: Request, entries: seq<ConsentEntry>, pose: string -> Posed,
                                        releaseId: string, now: string)
    requires !Answerable(request, entries, pose)
    ensures StopsFor(request, entries, pose, After(DefaultChain(entries, pose, releaseId, now), request, 2))
  {
    var chain, first := DefaultChain(entries, pose, releaseId, now), ConsentReactor(entries, Initial(request));
    var start := After(chain, request, 0);
    assert After(chain, request, 1) == Progressed(0, first);
    if Composed(entries).None? {
      GrantedFields(request, entries);
      GrantedAndRawIff(entries, "");
      assert After(chain, request, 2) == After(chain, request, 1);
    } else {
      assert After(chain, request, 2) == Progressed(1, ScopeReactor(pose, first.state));
      if f :| Consented(request, entries, f) {
        var g :| Unanswerable(request, entries, pose, g);
        ScopeNamesFirst(request, entries, pose, first.state, g);
      } else {
        NothingGranted(request, entries, pose, first.state);
      }
    }
  }

  lemma {:induction false} ReferencelessRelease(request: Request, entries: seq<ConsentEntry>, pose: string -> Posed,
                                                releaseId: string, now: string)
    requires !request.preview && Answerable(request, entries, pose) && PrimaryRef(entries) == ""
    ensures After(DefaultChain(entries, pose, releaseId, now), request, 4)
         == Threw(2, "Error: Release reactor: consent metadata missing")
  {
    var chain := DefaultChain(entries, pose, releaseId, now);
    ConsentAndScope(request, entries, pose, releaseId, now);
    var state := After(chain, request, 2).state;
    assert After(chain, request, 3) == Progressed(2, ReleaseReactor(releaseId, now, state));
    StoppedStays(chain, request, 3, 4);
  }

  /** The reactors of the default chain, by name. */
  lemma {:induction false} DefaultChainNames(entries: seq<ConsentEntry>, pose: string -> Posed, releaseId: string,
                                             now: string)
    ensures var chain := DefaultChain(entries, pose, releaseId, now);
            && |chain| == 4 && chain[0].kind == "consent" && chain[1].kind == "scope"
            && chain[2].kind == "release" && chain[3].kind == "audit"
  {
  }

  /** The audit reactor passes on what it is given, but lets no real release pass without
      its envelope. */
  lemma {:induction false} AuditPasses(state: Pipeline)
    ensures var reply := AuditReactor(state);
            && (reply.Next? ==> reply.state == state)
            && (reply.Next? <==> state.request.preview || state.envelope.Some?) && !reply.Rejects?
  {
  }

  ghost predicate Refuses(result: Option<BrokerResult>) {
    result.Some? && result.value.Refused?
  }

  const NO_REFERENCE := "Reactor " + "release" + " threw: " + "Error: Release reactor: consent metadata missing"

  /** Why the default chain refuses: for lack of consent when nothing requested is granted;
      else in the name of the first field whose predicates cannot be answered; else, outside
      preview and with no reference in any grant, in the name of the whole request. Where
      none of these holds it releases. */
  ghost predicate DefaultSays(request: Request, entries: seq<ConsentEntry>, pose: string -> Posed,
                              result: Option<BrokerResult>) {
    if forall f :: !Consented(request, entries, f) then
      Refuses(result) && LacksConsent(request, entries, result.value.rejection)
    else if exists f :: Unanswerable(request, entries, pose, f) then
      Refuses(result) && NamesFirst(request, entries, pose, result.value.rejection)
    else if !request.preview && Unreferenced(entries) then
      RefusesAll(result, request, NO_REFERENCE)
    else result.Some? && result.value.Release?
  }

  lemma {:induction false} SaysAtScope(
      request: Request, entries: seq<ConsentEntry>, pose: string -> Posed, releaseId: string, faults: AuditFaults,
      now: string)
    requires AuditsSucceed(faults) && !Answerable(request, entries, pose)
    ensures DefaultSays(request, entries, pose,
                        RunOf(DefaultChain(entries, pose, releaseId, now), request, faults, now).result)
  {
    var chain := DefaultChain(entries, pose, releaseId, now);
    AnswerSays(chain, request, faults, now);
    StopsAtScope(request, entries, pose, releaseId, now);
    StoppedStays(chain, request, 2, 4);
    var r, s := After(chain, request, 2).rejection, RunOf(chain, request, faults, now).result.value.rejection;
    SameNames(request, entries, pose, r, s);
  }

  lemma {:induction false} SameNames(request: Request, entries: seq<ConsentEntry>, pose: string -> Posed, r: Rejection,
                                     s: Rejection)
    requires s.reason == r.reason && s.fields == r.fields && s.details == r.details
    ensures NamesFirst(request, entries, pose, r) ==> NamesFirst(request, entries, pose, s)
    ensures LacksConsent(request, entries, r) ==> LacksConsent(request, entries, s)
  {
    if NamesFirst(request, entries, pose, r) {
      var i: nat :| FirstUnanswerableIn(request, entries, pose, request.fields, i)
                    && SaysOf(pose, request.fields[i], r);
      assert SaysOf(pose, request.fields[i], s);
    }
  }

  lemma {:induction false} SaysAtRelease(
      request: Request, entries: seq<ConsentEntry>, pose: string -> Posed, releaseId: string, faults: AuditFaults,
      now: string)
    requires AuditsSucceed(faults) && Answerable(request, entries, pose)
    requires !request.preview && PrimaryRef(entries) == ""
    ensures RefusesAll(RunOf(DefaultChain(entries, pose, releaseId, now), request, faults, now).result, request,
                       NO_REFERENCE)
  {
    AnswerSays(DefaultChain(entries, pose, releaseId, now), request, faults, now);
    DefaultChainNames(entries, pose, releaseId, now);
    ReferencelessRelease(request, entries, pose, releaseId, now);
  }

  lemma {:induction false} DefaultRefusals(
      request: Request, entries: seq<ConsentEntry>, pose: string -> Posed, releaseId: string, faults: AuditFaults,
      now: string)
    requires AuditsSucceed(faults)
    ensures DefaultSays(request, entries, pose,
                        RunOf(DefaultChain(entries, pose, releaseId, now), request, faults, now).result)
  {
    PrimaryRefIsFirst(entries);
    if !Answerable(request, entries, pose) {
      SaysAtScope(request, entries, pose, releaseId, faults, now);
    } else if request.preview {
      DefaultChainPreviewsIff(request, entries, pose, releaseId, faults, now);
    } else {
      DefaultChainReleasesIff(request, entries, pose, releaseId, faults, now);
      if PrimaryRef(entries) == "" { SaysAtRelease(request, entries, pose, releaseId, faults, now); }
    }
  }
}
