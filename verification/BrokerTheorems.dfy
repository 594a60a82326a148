/** What a broker call can and cannot do, for every chain, request and reactor behaviour. */
module BrokerTheorems {
  import opened Wrappers
  import opened ConsentComposition
  import opened Broker

  // ---- Release --------------------------------------------------------------------------

  /** `states` is an accepting run: each reactor that is not skipped accepts the state it
      is given and hands on the next one. */
  ghost predicate Accepts(chain: seq<ChainStep>, request: Request, states: seq<Pipeline>) {
    && |states| == |chain| + 1
    && states[0] == Initial(request)
    && (forall i :: 0 <= i < |chain| ==> Hands(chain[i], request, i, states[i], states[i + 1]))
  }

  ghost predicate Hands(step: ChainStep, request: Request, i: nat, before: Pipeline, after: Pipeline) {
    if Skipped(request, step) then after == before else step.reactor(i, before) == Next(after)
  }

  function StatesUpTo(chain: seq<ChainStep>, request: Request, n: nat): (states: seq<Pipeline>)
    requires n <= |chain| && After(chain, request, n).Going?
    ensures |states| == n + 1 && states[n] == After(chain, request, n).state
  {
    if n == 0 then [Initial(request)]
    else
      StatesUpTo(chain, request, n - 1) + [After(chain, request, n).state]
  }

  lemma {:induction false} StatesHand(chain: seq<ChainStep>, request: Request, n: nat)
    requires n <= |chain| && After(chain, request, n).Going?
    ensures StatesUpTo(chain, request, n)[0] == Initial(request)
    ensures var states := StatesUpTo(chain, request, n);
            forall i :: 0 <= i < n ==> Hands(chain[i], request, i, states[i], states[i + 1])
  {
    if n > 0 {
      StatesHand(chain, request, n - 1);
      var before := StatesUpTo(chain, request, n - 1);
      var all := StatesUpTo(chain, request, n);
      assert forall i :: 0 <= i < n ==> all[i] == before[i];
    }
  }

  lemma {:induction false} AcceptingRunIsAfter(chain: seq<ChainStep>, request: Request, states: seq<Pipeline>, n: nat)
    requires Accepts(chain, request, states) && n <= |chain|
    ensures After(chain, request, n) == Going(states[n])
  {
    if n > 0 {
      AcceptingRunIsAfter(chain, request, states, n - 1);
      assert Hands(chain[n - 1], request, n - 1, states[n - 1], states[n]);
    }
  }

  ghost predicate Releasable(request: Request, state: Pipeline) {
    state.filteredData.Some? && (request.preview || state.envelope.Some?)
  }

  lemma ReleasedIffGoing(chain: seq<ChainStep>, request: Request, faults: AuditFaults, now: string)
    ensures var result := RunOf(chain, request, faults, now).result;
            var p := After(chain, request, |chain|);
            && (result.Some? && result.value.Release? <==> p.Going? && Releasable(request, p.state))
            && (result.Some? && result.value.Release? ==> result.value.data == p.state.filteredData.value)
  {
  }

  /** Data is released exactly when every reactor that is not skipped accepted, in order,
      and the last state has filtered data and, outside preview, an envelope. */
  lemma ReleasedIff(chain: seq<ChainStep>, request: Request, faults: AuditFaults, now: string)
    ensures var run := RunOf(chain, request, faults, now);
            (run.result.Some? && run.result.value.Release?)
            <==> exists states :: Accepts(chain, request, states) && Releasable(request, states[|chain|])
  {
    var run := RunOf(chain, request, faults, now);
    if run.result.Some? && run.result.value.Release? {
      StatesHand(chain, request, |chain|);
      var states := StatesUpTo(chain, request, |chain|);
      assert Accepts(chain, request, states) && Releasable(request, states[|chain|]);
    }
    if states :| Accepts(chain, request, states) && Releasable(request, states[|chain|]) {
      AcceptingRunIsAfter(chain, request, states, |chain|);
    }
  }

  /** And what is released is what the last state holds. */
  lemma ReleaseIsTheLastState(chain: seq<ChainStep>, request: Request, faults: AuditFaults, now: string,
                              states: seq<Pipeline>)
    requires Accepts(chain, request, states) && Releasable(request, states[|chain|])
    ensures var run := RunOf(chain, request, faults, now); run.result.Some? && run.result.value.Release?
    ensures var result := RunOf(chain, request, faults, now).result.value;
            var last := states[|chain|];
            && result.data == last.filteredData.value
            && (!request.preview ==> result.envelope == last.envelope.value)
            && (request.preview ==> result.envelope == PreviewEnvelope(request, last, result.data, now))
            && result.preview == request.preview && result.enforced == !request.shadow
  {
    AcceptingRunIsAfter(chain, request, states, |chain|);
  }

  // ---- Nothing after the first stop -----------------------------------------------------

  /** Positions below `n` whose reactors are not skipped. */
  function Due(chain: seq<ChainStep>, request: Request, n: nat): seq<nat>
    requires n <= |chain|
  {
    if n == 0 then [] else Due(chain, request, n - 1) + if Skipped(request, chain[n - 1]) then [] else [n - 1]
  }

  lemma {:induction false} RanIsDueWhileGoing(chain: seq<ChainStep>, request: Request, n: nat)
    requires n <= |chain| && After(chain, request, n).Going?
    ensures RanUpTo(chain, request, n) == Due(chain, request, n)
  {
    if n > 0 { RanIsDueWhileGoing(chain, request, n - 1); }
  }

  lemma {:induction false} GoingBefore(chain: seq<ChainStep>, request: Request, at: nat, n: nat)
    requires n <= |chain| && var p := After(chain, request, n); !p.Going? && p.at == at
    ensures at < n && After(chain, request, at).Going? && !Skipped(request, chain[at])
    ensures After(chain, request, at + 1) == After(chain, request, n)
  {
    if !After(chain, request, n - 1).Going? {
      GoingBefore(chain, request, at, n - 1);
    }
  }

  /** The reactors called are exactly those due up to the one that rejected or threw,
      itself included; when none does, all that are due. */
  lemma NothingRunsAfterTheStop(chain: seq<ChainStep>, request: Request, faults: AuditFaults, now: string)
    ensures var p := After(chain, request, |chain|);
            RunOf(chain, request, faults, now).ran == Due(chain, request, if p.Going? then |chain| else p.at + 1)
  {
    var p := After(chain, request, |chain|);
    if p.Going? {
      RanIsDueWhileGoing(chain, request, |chain|);
    } else {
      GoingBefore(chain, request, p.at, |chain|);
      RanIsDueWhileGoing(chain, request, p.at);
      StoppedStays(chain, request, p.at + 1, |chain|);
    }
  }

  // ---- Audits ---------------------------------------------------------------------------

  function AsReturned(request: Request, r: Rejection): Rejection {
    r.(enforced := Some(!request.shadow))
  }

  /** If the audit does not throw, every refusal outside preview is audited once, as the
      rejection that is returned; a release or a preview hands nothing to it. */
  lemma OneAuditPerRefusal(chain: seq<ChainStep>, request: Request, faults: AuditFaults, now: string)
    requires faults(0).None?
    ensures var run := RunOf(chain, request, faults, now);
            && run.result.Some?
            && (run.result.value.Refused? && !request.preview
                ==> |run.audits| == 1 && AsReturned(request, run.audits[0]) == run.result.value.rejection)
            && (run.result.value.Release? || request.preview ==> run.audits == [])
  {
  }

  /** If it ever were to throw, the call itself would fail, or, if a reactor had rejected,
      the rejection would be replaced by one about the audit and that one audited instead. */
  lemma AuditFailureDecides(chain: seq<ChainStep>, request: Request, faults: AuditFaults, now: string, error: string)
    requires faults(0) == Some(error) && !request.preview
    ensures var run := RunOf(chain, request, faults, now);
            var p := After(chain, request, |chain|);
            && (run.result.None? <==> run.audits != [] && (p.Rejected? ==> faults(1).Some?))
            && (p.Rejected? ==> run.audits == [p.rejection, ThrewRejection(request, chain[p.at].kind, error)])
            && (p.Rejected? && faults(1).None?
                ==> run.result == Some(Refused(ThrewRejection(request, chain[p.at].kind, error))))
  {
  }

  /** What the notifier finds: whether it is configured, and whether its request goes through. */
  datatype NotifyService = NotifyService(configured: bool, reachable: bool)

  /** The notifier sends nothing for a preview, a shadow run or another reason. */
  predicate SubjectHears(request: Request, run: Run, service: NotifyService) {
    run.notifier == Some("no_consent") && !request.preview && !request.shadow && service.configured && service.reachable
  }

  /** The subject hears of a request exactly when a reactor rejected it for lack of consent,
      the audit did not throw, the request was meant to bind and the service is there; and
      then it is refused with that rejection, audited once. */
  lemma SubjectHearsIff(chain: seq<ChainStep>, request: Request, faults: AuditFaults, now: string,
                        service: NotifyService)
    ensures var run := RunOf(chain, request, faults, now);
            var p := After(chain, request, |chain|);
            && (SubjectHears(request, run, service) <==>
                 && p.Rejected? && p.rejection.reason == "no_consent" && faults(0).None?
                 && !request.preview && !request.shadow && service == NotifyService(true, true))
            && (SubjectHears(request, run, service) ==>
                 run.result == Some(Refused(AsReturned(request, p.rejection))) && run.audits == [p.rejection])
  {
  }

  // ---- Shadow and enforce ---------------------------------------------------------------

  function Shade(state: Pipeline, shadow: bool): Pipeline {
    state.(request := state.request.(shadow := shadow))
  }

  function ShadeReply(reply: Reply, shadow: bool): Reply {
    if reply.Next? then Next(Shade(reply.state, shadow)) else reply
  }

  ghost predicate IgnoresMode(chain: seq<ChainStep>) {
    forall i, s, shadow :: 0 <= i < |chain| ==>
      ShadeReply(chain[i].reactor(i, Shade(s, shadow)), true) == ShadeReply(chain[i].reactor(i, s), true)
  }

  ghost predicate SameProgress(p: Progress, q: Progress) {
    match (p, q)
    case (Going(s), Going(t)) => Shade(s, true) == Shade(t, true)
    case _ => p == q
  }

  lemma SameReplies(chain: seq<ChainStep>, i: nat, s: Pipeline, t: Pipeline)
    requires IgnoresMode(chain) && i < |chain| && Shade(s, true) == Shade(t, true)
    ensures SameProgress(Progressed(i, chain[i].reactor(i, s)), Progressed(i, chain[i].reactor(i, t)))
  {
    var a, b := chain[i].reactor(i, s), chain[i].reactor(i, t);
    assert ShadeReply(chain[i].reactor(i, Shade(s, true)), true) == ShadeReply(a, true);
    assert ShadeReply(chain[i].reactor(i, Shade(t, true)), true) == ShadeReply(b, true);
  }

  function Advanced(chain: seq<ChainStep>, request: Request, i: nat, p: Progress): Progress
    requires i < |chain|
  {
    if !p.Going? || Skipped(request, chain[i]) then p else Progressed(i, chain[i].reactor(i, p.state))
  }

  lemma OneMoreReactor(chain: seq<ChainStep>, on: Request, off: Request, i: nat, p: Progress, q: Progress)
    requires IgnoresMode(chain) && i < |chain| && on.(shadow := true) == off.(shadow := true) && SameProgress(p, q)
    ensures SameProgress(Advanced(chain, on, i, p), Advanced(chain, off, i, q))
  {
    assert on.preview == on.(shadow := true).preview && off.preview == off.(shadow := true).preview;
    if p.Going? { SameReplies(chain, i, p.state, q.state); }
  }

  lemma {:induction false} ShadowProgress(chain: seq<ChainStep>, on: Request, off: Request, n: nat)
    requires IgnoresMode(chain) && n <= |chain| && on.(shadow := true) == off.(shadow := true)
    ensures SameProgress(After(chain, on, n), After(chain, off, n))
  {
    if n > 0 {
      ShadowProgress(chain, on, off, n - 1);
      OneMoreReactor(chain, on, off, n - 1, After(chain, on, n - 1), After(chain, off, n - 1));
      assert After(chain, on, n) == Advanced(chain, on, n - 1, After(chain, on, n - 1));
      assert After(chain, off, n) == Advanced(chain, off, n - 1, After(chain, off, n - 1));
    }
  }

  lemma {:induction false} SameTurn(chain: seq<ChainStep>, on: Request, off: Request, n: nat)
    requires IgnoresMode(chain) && n < |chain| && on.(shadow := true) == off.(shadow := true)
    ensures After(chain, on, n).Going? == After(chain, off, n).Going?
    ensures Skipped(on, chain[n]) == Skipped(off, chain[n])
  {
    ShadowProgress(chain, on, off, n);
    assert on.preview == on.(shadow := true).preview && off.preview == off.(shadow := true).preview;
  }

  lemma {:induction false} ShadowRan(chain: seq<ChainStep>, on: Request, off: Request, n: nat)
    requires IgnoresMode(chain) && n <= |chain| && on.(shadow := true) == off.(shadow := true)
    ensures RanUpTo(chain, on, n) == RanUpTo(chain, off, n)
  {
    if n > 0 {
      ShadowRan(chain, on, off, n - 1);
      SameTurn(chain, on, off, n - 1);
    }
  }

  function Unenforced(r: BrokerResult): BrokerResult {
    match r
    case Release(d, e, p, _) => Release(d, e, p, false)
    case Refused(j) => Refused(j.(enforced := Some(false)))
  }

  function WithoutEnforced(run: Run): Run {
    Run(if run.result.Some? then Some(Unenforced(run.result.value)) else None,
        run.ran,
        seq(|run.audits|, i requires 0 <= i < |run.audits| => run.audits[i].(enforced := None)),
        run.notifier)
  }

  /** When no reactor reads the mode, a shadow run and an enforced run call the same
      reactors and end the same way, down to the audits, except for the enforced flag. */
  lemma ShadowDiffersOnlyInEnforced(chain: seq<ChainStep>, request: Request, faults: AuditFaults, now: string)
    requires IgnoresMode(chain)
    ensures WithoutEnforced(RunOf(chain, request.(shadow := true), faults, now))
         == WithoutEnforced(RunOf(chain, request.(shadow := false), faults, now))
  {
    var on, off := request.(shadow := true), request.(shadow := false);
    ShadowProgress(chain, on, off, |chain|);
    ShadowRan(chain, on, off, |chain|);
    SameConclusion(chain, on, off, faults, now, After(chain, on, |chain|), After(chain, off, |chain|),
        RanUpTo(chain, on, |chain|));
  }

  predicate EnforcedIs(r: BrokerResult, enforced: bool) {
    match r
    case Release(_, _, _, e) => e == enforced
    case Refused(j) => j.enforced == Some(enforced)
  }

  /** Every result says whether it binds: enforced unless the request was a shadow one. */
  lemma ResultSaysIfEnforced(chain: seq<ChainStep>, request: Request, faults: AuditFaults, now: string)
    ensures var run := RunOf(chain, request, faults, now);
            run.result.Some? ==> EnforcedIs(run.result.value, !request.shadow)
  {
  }

  lemma {:induction false} SameConclusion(chain: seq<ChainStep>, on: Request, off: Request, faults: AuditFaults,
                                          now: string, p: Progress, q: Progress, ran: seq<nat>)
    requires SameProgress(p, q) && (p.Going? || p.at < |chain|) && (q.Going? || q.at < |chain|)
    requires on.(shadow := true) == off.(shadow := true)
    ensures WithoutEnforced(Conclude(chain, on, faults, now, p, ran))
            == WithoutEnforced(Conclude(chain, off, faults, now, q, ran))
  {
    match p {
      case Threw(at, error) =>
        SameRefusal(on, off, faults, ran, [],
                    ThrewRejection(on, chain[at].kind, error), ThrewRejection(off, chain[at].kind, error));
      case Rejected(at, r) =>
        if !on.preview && faults(0).Some? {
          var kind, error := chain[at].kind, faults(0).value;
          SameRefusal(on, off, faults, ran, [r], ThrewRejection(on, kind, error), ThrewRejection(off, kind, error));
        }
      case Going(s) => SameAcceptance(chain, on, off, faults, now, s, q.state, ran);
    }
  }

  lemma SameRefusal(on: Request, off: Request, faults: AuditFaults, ran: seq<nat>, audits: seq<Rejection>,
                    r: Rejection, t: Rejection)
    requires on.preview == off.preview && r.(enforced := None) == t.(enforced := None)
    ensures WithoutEnforced(RefuseWith(on, faults, ran, audits, r))
            == WithoutEnforced(RefuseWith(off, faults, ran, audits, t))
  {
    assert r.(enforced := Some(false)) == r.(enforced := None).(enforced := Some(false));
    assert t.(enforced := Some(false)) == t.(enforced := None).(enforced := Some(false));
  }

  lemma SameAcceptance(chain: seq<ChainStep>, on: Request, off: Request, faults: AuditFaults, now: string,
                       s: Pipeline, t: Pipeline, ran: seq<nat>)
    requires Shade(s, true) == Shade(t, true) && on.(shadow := true) == off.(shadow := true)
    ensures WithoutEnforced(Conclude(chain, on, faults, now, Going(s), ran))
            == WithoutEnforced(Conclude(chain, off, faults, now, Going(t), ran))
  {
    assert s.filteredData == Shade(s, true).filteredData && t.filteredData == Shade(t, true).filteredData;
    assert s.envelope == Shade(s, true).envelope && t.envelope == Shade(t, true).envelope;
    assert on.preview == on.(shadow := true).preview && off.preview == off.(shadow := true).preview;
    if s.filteredData.None? {
      var details := "Pipeline completed but release data is incomplete";
      SameIncomplete(on, off, details);
      SameRefusal(on, off, faults, ran, [], Incomplete(on, details), Incomplete(off, details));
    } else if on.preview {
      SameIncomplete(on, off, "");
      SamePreview(on, off, s, t, s.filteredData.value, now);
    } else if s.envelope.None? {
      var details := "Pipeline completed but envelope is missing";
      SameIncomplete(on, off, details);
      SameRefusal(on, off, faults, ran, [], Incomplete(on, details), Incomplete(off, details));
    }
  }

  lemma SameIncomplete(on: Request, off: Request, details: string)
    requires on.(shadow := true) == off.(shadow := true)
    ensures Incomplete(on, details).(enforced := None) == Incomplete(off, details).(enforced := None)
    ensures on.scope == off.scope && on.purpose == off.purpose
  {
    assert on.fields == on.(shadow := true).fields && off.fields == off.(shadow := true).fields;
    assert on.scope == on.(shadow := true).scope && off.scope == off.(shadow := true).scope;
    assert on.purpose == on.(shadow := true).purpose && off.purpose == off.(shadow := true).purpose;
  }

  lemma SamePreview(on: Request, off: Request, s: Pipeline, t: Pipeline, data: map<string, Released>, now: string)
    requires Shade(s, true) == Shade(t, true) && on.scope == off.scope && on.purpose == off.purpose
    ensures PreviewEnvelope(on, s, data, now) == PreviewEnvelope(off, t, data, now)
  {
    assert s.fieldGrants == Shade(s, true).fieldGrants && t.fieldGrants == Shade(t, true).fieldGrants;
    assert s.mode == Shade(s, true).mode && t.mode == Shade(t, true).mode;
    assert s.consentReference == Shade(s, true).consentReference
        && t.consentReference == Shade(t, true).consentReference;
  }
}
