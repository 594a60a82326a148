/** The broker: a chain of reactors run in order over a pipeline state, stopping at the
    first rejection or throw, and releasing only what the finished state holds. */
module Broker {
  import opened Wrappers
  import opened ChainConfig
  import opened ConsentComposition
  import Publish

  /** What stands for a field's value in a release: the value itself, the bare fact that
      it exists, or the claims that answer the predicates posed on it. */
  datatype Released = RawValue(value: string) | Attested | Claims(claims: seq<string>)

  datatype Request = Request(requester: string, subject: string, fields: seq<string>, purpose: string, scope: string,
                             data: map<string, string>, preview: bool, shadow: bool)

  datatype Envelope = Envelope(
    releaseId: string, scopeId: string, purpose: string, issuedAt: string, consentReference: string,
    mode: EnvelopeMode, fieldModes: map<string, Mode>, consentReferences: map<string, string>)

  datatype Pipeline = Pipeline(request: Request, allowedFields: Option<seq<string>>, mode: Option<EnvelopeMode>,
                               consentReference: Option<string>, fieldGrants: map<string, FieldGrant>,
                               filteredData: Option<map<string, Released>>, envelope: Option<Envelope>)

  datatype Rejection = Rejection(reason: string, fields: seq<string>, details: string, enforced: Option<bool>)

  datatype Reply = Next(state: Pipeline) | Rejects(rejection: Rejection) | Throws(error: string)

  /** A reactor may answer differently at each place it has in the chain. */
  type Reactor = (nat, Pipeline) -> Reply

  datatype ChainStep = ChainStep(kind: string, reactor: Reactor)

  datatype BrokerResult =
    | Release(data: map<string, Released>, envelope: Envelope, preview: bool, enforced: bool)
    | Refused(rejection: Rejection)

  /** `failed`: the broker call itself throws. `ran`: the chain positions whose reactors
      were called; `audits`: the rejections handed to the audit; `notifier`: the reason
      the consent-request notifier was called with, if it was. */
  datatype Run = Run(result: Option<BrokerResult>, ran: seq<nat>, audits: seq<Rejection>, notifier: Option<string>)

  // ---- The chain ----------------------------------------------------------------------

  function EnabledSteps(rs: seq<ReactorConfig>, registry: map<string, Reactor>): seq<ChainStep>
    requires forall i :: 0 <= i < |rs| && rs[i].enabled ==> rs[i].kind in registry
  {
    if rs == [] then []
    else
      var r := rs[|rs| - 1];
      EnabledSteps(rs[..|rs| - 1], registry) + if r.enabled then [ChainStep(r.kind, registry[r.kind])] else []
  }

  predicate AllKnown(rs: seq<ReactorConfig>, registry: map<string, Reactor>) {
    forall i :: 0 <= i < |rs| && rs[i].enabled ==> rs[i].kind in registry
  }

  predicate IsUnknown(r: ReactorConfig, registry: map<string, Reactor>) {
    r.enabled && r.kind !in registry
  }

  ghost predicate IsStepFor(step: ChainStep, rs: seq<ReactorConfig>, registry: map<string, Reactor>, i: nat) {
    i < |rs| && rs[i].enabled && rs[i].kind in registry && step == ChainStep(rs[i].kind, registry[rs[i].kind])
  }

  /** The step list is the enabled reactors, each registered under its name, in order. */
  lemma {:induction false} EnabledStepsAre(rs: seq<ReactorConfig>, registry: map<string, Reactor>)
    requires AllKnown(rs, registry)
    ensures var at := Publish.EnabledUpTo(rs, |rs|);
            && |EnabledSteps(rs, registry)| == |at|
            && (forall k :: 0 <= k < |at| ==> IsStepFor(EnabledSteps(rs, registry)[k], rs, registry, at[k]))
  {
    if rs != [] {
      var front := rs[..|rs| - 1];
      EnabledStepsAre(front, registry);
      EnabledPrefix(rs, |front|, |front|);
    }
  }

  lemma {:induction false} EnabledPrefix(rs: seq<ReactorConfig>, m: nat, n: nat)
    requires n <= m <= |rs|
    ensures Publish.EnabledUpTo(rs[..m], n) == Publish.EnabledUpTo(rs, n)
  {
    if n > 0 { EnabledPrefix(rs, m, n - 1); }
  }

  function ChainFor(config: Option<Chain>, registry: map<string, Reactor>, defaultChain: seq<ChainStep>): seq<ChainStep>
    requires config.Some? ==> AllKnown(config.value.reactors, registry)
  {
    if config.None? || EnabledSteps(config.value.reactors, registry) == [] then defaultChain
    else EnabledSteps(config.value.reactors, registry)
  }

  /** None: an enabled reactor is not registered, and resolution throws. A missing, empty
      or wholly disabled configuration falls back to the default chain. */
  method ResolveBrokerChain(config: Option<Chain>, registry: map<string, Reactor>, defaultChain: seq<ChainStep>)
    returns (chain: Option<seq<ChainStep>>)
    ensures chain.None? <==>
              config.Some? && exists i :: 0 <= i < |config.value.reactors|
                                          && IsUnknown(config.value.reactors[i], registry)
    ensures chain.Some? ==> chain.value == ChainFor(config, registry, defaultChain)
    ensures chain.Some? && defaultChain != [] ==> chain.value != []
  {
    if config.None? || |config.value.reactors| == 0 { return Some(defaultChain); }
    var rs := config.value.reactors;
    var missing := Publish.FindMissing(rs, registry.Keys);
    Publish.UnknownKindsIff(rs, registry.Keys);
    if |missing| > 0 { return None; }
    assert AllKnown(rs, registry);
    var steps: seq<ChainStep> := [];
    for i := 0 to |rs|
      invariant steps == EnabledSteps(rs[..i], registry)
    {
      assert rs[..i + 1][..i] == rs[..i];
      if !rs[i].enabled { continue; }
      steps := steps + [ChainStep(rs[i].kind, registry[rs[i].kind])];
    }
    assert rs[..|rs|] == rs;
    chain := if steps == [] then Some(defaultChain) else Some(steps);
  }

  // ---- The pipeline -------------------------------------------------------------------

  predicate SkippedInPreview(kind: string) {
    kind == "release" || kind == "audit"
  }

  predicate Skipped(request: Request, step: ChainStep) {
    request.preview && SkippedInPreview(step.kind)
  }

  function Initial(request: Request): Pipeline {
    Pipeline(request, None, None, None, map[], None, None)
  }

  /** How far the chain got: still going, or stopped at a position. */
  datatype Progress = Going(state: Pipeline) | Rejected(at: nat, rejection: Rejection) | Threw(at: nat, error: string)

  /** One reactor's reply, as progress. */
  function Progressed(i: nat, reply: Reply): Progress {
    match reply
    case Next(state) => Going(state)
    case Rejects(r) => Rejected(i, r)
    case Throws(e) => Threw(i, e)
  }

  function After(chain: seq<ChainStep>, request: Request, n: nat): (p: Progress)
    requires n <= |chain|
    ensures p.Going? || p.at < n
  {
    if n == 0 then Going(Initial(request))
    else
      var p := After(chain, request, n - 1);
      if !p.Going? || Skipped(request, chain[n - 1]) then p
      else Progressed(n - 1, chain[n - 1].reactor(n - 1, p.state))
  }

  /** The positions whose reactors are called. */
  function RanUpTo(chain: seq<ChainStep>, request: Request, n: nat): seq<nat>
    requires n <= |chain|
  {
    if n == 0 then []
    else
      RanUpTo(chain, request, n - 1)
      + if After(chain, request, n - 1).Going? && !Skipped(request, chain[n - 1]) then [n - 1] else []
  }

  function ThrewRejection(request: Request, kind: string, error: string): Rejection {
    Rejection("requester_unauthorized", request.fields, "Reactor " + kind + " threw: " + error, Some(!request.shadow))
  }

  function Incomplete(request: Request, details: string): Rejection {
    Rejection("requester_unauthorized", request.fields, details, Some(!request.shadow))
  }

  /** What the release result would be in preview, from the finished state. */
  function PreviewEnvelope(request: Request, state: Pipeline, data: map<string, Released>, now: string): Envelope {
    Envelope("preview", request.scope, request.purpose, now,
             if state.consentReference.Some? && state.consentReference.value != ""
             then state.consentReference.value else "preview",
             if state.mode.Some? then state.mode.value else Uniform(Attestation),
             map f | f in data :: ReleaseMode(state, f),
             map f | f in data :: GrantReference(state, f, "preview"))
  }

  /** The form a field is released in. */
  function ReleaseMode(state: Pipeline, field: string): Mode {
    if field in state.fieldGrants then state.fieldGrants[field].mode
    else if state.mode == Some(Uniform(Raw)) then Raw else Attestation
  }

  function GrantReference(state: Pipeline, field: string, otherwise: string): string {
    if field in state.fieldGrants then state.fieldGrants[field].consentReference
    else if state.consentReference.Some? then state.consentReference.value else otherwise
  }

  /** By attempt, an error the awaited audit would throw. As written it throws none: both of
      its writes are started and their failures caught. The broker's own `try` and `catch`
      are modelled for any audit. A preview is not audited. */
  type AuditFaults = nat -> Option<string>

  method AuditRejection(request: Request, faults: AuditFaults, audits: seq<Rejection>, r: Rejection)
    returns (after: seq<Rejection>, error: Option<string>)
    ensures request.preview ==> after == audits && error == None
    ensures !request.preview ==> after == audits + [r] && error == faults(|audits|)
  {
    if request.preview { return audits, None; }
    return audits + [r], faults(|audits|);
  }

  /** Refuse with `r`, unless its audit throws. */
  function RefuseWith(request: Request, faults: AuditFaults, ran: seq<nat>, audits: seq<Rejection>, r: Rejection): Run {
    if request.preview then Run(Some(Refused(r)), ran, audits, None)
    else if faults(|audits|).None? then Run(Some(Refused(r)), ran, audits + [r], None)
    else Run(None, ran, audits + [r], None)
  }

  /** How a broker call ends, given how its chain went. A rejection is audited inside the
      same `try` as the reactor: if that audit throws, the error is treated as the
      reactor's own and audited in turn. */
  function Conclude(chain: seq<ChainStep>, request: Request, faults: AuditFaults, now: string, p: Progress,
                    ran: seq<nat>): Run
    requires p.Going? || p.at < |chain|
  {
    match p
    case Threw(at, error) => RefuseWith(request, faults, ran, [], ThrewRejection(request, chain[at].kind, error))
    case Rejected(at, r) =>
      if request.preview || faults(0).None? then
        Run(Some(Refused(r.(enforced := Some(!request.shadow)))), ran,
            if request.preview then [] else [r], Some(r.reason))
      else RefuseWith(request, faults, ran, [r], ThrewRejection(request, chain[at].kind, faults(0).value))
    case Going(state) =>
      if state.filteredData.None? then
        RefuseWith(request, faults, ran, [], Incomplete(request, "Pipeline completed but release data is incomplete"))
      else if request.preview then
        var data := state.filteredData.value;
        Run(Some(Release(data, PreviewEnvelope(request, state, data, now), true, !request.shadow)), ran, [], None)
      else if state.envelope.None? then
        RefuseWith(request, faults, ran, [], Incomplete(request, "Pipeline completed but envelope is missing"))
      else
        Run(Some(Release(state.filteredData.value, state.envelope.value, false, !request.shadow)), ran, [], None)
  }

  lemma {:induction false} StoppedStays(chain: seq<ChainStep>, request: Request, i: nat, n: nat)
    requires i <= n <= |chain| && !After(chain, request, i).Going?
    ensures After(chain, request, n) == After(chain, request, i)
            && RanUpTo(chain, request, n) == RanUpTo(chain, request, i)
    decreases n
  {
    if i < n { StoppedStays(chain, request, i, n - 1); }
  }

  function RunOf(chain: seq<ChainStep>, request: Request, faults: AuditFaults, now: string): Run {
    Conclude(chain, request, faults, now, After(chain, request, |chain|), RanUpTo(chain, request, |chain|))
  }

  /** Refuse, once the audit of the refusal has gone through. */
  method Refuse(request: Request, faults: AuditFaults, ran: seq<nat>, audits: seq<Rejection>, r: Rejection)
    returns (run: Run)
    ensures run == RefuseWith(request, faults, ran, audits, r)
  {
    var after, failure := AuditRejection(request, faults, audits, r);
    run := Run(if failure.Some? then None else Some(Refused(r)), ran, after, None);
  }

  /** A reactor rejected: audit, notify, refuse. */
  method OnRejection(chain: seq<ChainStep>, request: Request, faults: AuditFaults, now: string, at: nat, r: Rejection,
                     ran: seq<nat>)
    returns (run: Run)
    requires at < |chain|
    ensures run == Conclude(chain, request, faults, now, Rejected(at, r), ran)
  {
    var audits, failure := AuditRejection(request, faults, [], r);
    if failure.Some? {
      run := Refuse(request, faults, ran, audits, ThrewRejection(request, chain[at].kind, failure.value));
      return;
    }
    run := Run(Some(Refused(r.(enforced := Some(!request.shadow)))), ran, audits, Some(r.reason));
  }

  /** Every reactor accepted: release what the last state holds. */
  method OnAccepted(chain: seq<ChainStep>, request: Request, faults: AuditFaults, now: string, state: Pipeline,
                    ran: seq<nat>)
    returns (run: Run)
    ensures run == Conclude(chain, request, faults, now, Going(state), ran)
  {
    if state.filteredData.None? {
      run := Refuse(request, faults, ran, [], Incomplete(request, "Pipeline completed but release data is incomplete"));
      return;
    }
    var data := state.filteredData.value;
    if request.preview {
      return Run(Some(Release(data, PreviewEnvelope(request, state, data, now), true, !request.shadow)), ran, [], None);
    }
    if state.envelope.None? {
      run := Refuse(request, faults, ran, [], Incomplete(request, "Pipeline completed but envelope is missing"));
      return;
    }
    run := Run(Some(Release(data, state.envelope.value, false, !request.shadow)), ran, [], None);
  }

  /** The pipeline of the broker on a resolved chain. */
  method RunChain(chain: seq<ChainStep>, request: Request, faults: AuditFaults, now: string) returns (run: Run)
    ensures run == RunOf(chain, request, faults, now)
  {
    var state := Initial(request);
    var ran: seq<nat> := [];
    for i := 0 to |chain|
      invariant After(chain, request, i) == Going(state)
      invariant ran == RanUpTo(chain, request, i)
    {
      if Skipped(request, chain[i]) { continue; }
      ran := ran + [i];
      var reply := chain[i].reactor(i, state);
      if !reply.Next? { StoppedStays(chain, request, i + 1, |chain|); }
      match reply {
        case Next(next) => state := next;
        case Rejects(r) =>
          run := OnRejection(chain, request, faults, now, i, r, ran);
          return;
        case Throws(error) =>
          run := Refuse(request, faults, ran, [], ThrewRejection(request, chain[i].kind, error));
          return;
      }
    }
    run := OnAccepted(chain, request, faults, now, state, ran);
  }

  /** broker. None: no chain could be resolved, so it throws with nothing run. */
  method BrokerCall(request: Request, config: Option<Chain>, registry: map<string, Reactor>,
                    defaultChain: seq<ChainStep>, faults: AuditFaults, now: string)
    returns (run: Option<Run>)
    ensures run.None? <==> config.Some? && !AllKnown(config.value.reactors, registry)
    ensures run.Some? ==> run.value == RunOf(ChainFor(config, registry, defaultChain), request, faults, now)
  {
    var chain := ResolveBrokerChain(config, registry, defaultChain);
    if chain.None? { return None; }
    var r := RunChain(chain.value, request, faults, now);
    run := Some(r);
  }
}
