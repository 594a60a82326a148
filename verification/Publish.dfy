/** The reactor chain that `publish` runs for one event: validation, then each enabled
    reactor in order, awaited or fired and forgotten. */
module Publish {
  import opened Wrappers
  import opened ChainConfig

  /** How the handlers behave, by their position in the chain. A handler may throw
      before it yields, may reject, or may never settle; while an awaited one runs, any
      of the others still running may settle. */
  datatype World = World(throwsNow: nat -> bool, rejects: nat -> bool, hangs: nat -> bool, meanwhile: nat -> seq<nat>)

  /** A handler's failure is caught and logged, wherever it comes from. */
  datatype Observed = Started(reactor: nat) | Settled(reactor: nat, failed: bool)

  datatype Outcome = Unknown(missing: seq<string>) | Completed | Suspended(at: nat)

  // ---- What a trace says --------------------------------------------------------------

  function Starts(trace: seq<Observed>): seq<nat> {
    if trace == [] then []
    else Starts(trace[..|trace| - 1]) + if trace[|trace| - 1].Started? then [trace[|trace| - 1].reactor] else []
  }

  /** Positions below `n` of the enabled reactors, in chain order. */
  function EnabledUpTo(rs: seq<ReactorConfig>, n: nat): seq<nat>
    requires n <= |rs|
  {
    if n == 0 then [] else EnabledUpTo(rs, n - 1) + if rs[n - 1].enabled then [n - 1] else []
  }

  function UnknownKinds(rs: seq<ReactorConfig>, registry: set<string>): seq<string> {
    if rs == [] then []
    else
      var r := rs[|rs| - 1];
      UnknownKinds(rs[..|rs| - 1], registry) + if r.enabled && r.kind !in registry then [r.kind] else []
  }

  predicate SettledBy(trace: seq<Observed>, i: nat, n: nat) {
    exists m :: 0 <= m < n && m < |trace| && trace[m].Settled? && trace[m].reactor == i
  }

  predicate IsUnknown(r: ReactorConfig, registry: set<string>) {
    r.enabled && r.kind !in registry
  }

  predicate IsAwaited(r: ReactorConfig) {
    r.enabled && r.awaited
  }

  predicate StartsAwaited(rs: seq<ReactorConfig>, o: Observed) {
    o.Started? && o.reactor < |rs| && rs[o.reactor].awaited
  }

  /** Whenever a reactor starts, every awaited reactor before it has settled. */
  ghost predicate AwaitedSettleFirst(rs: seq<ReactorConfig>, trace: seq<Observed>) {
    forall p: nat, q: nat :: p < q < |trace| && trace[q].Started? && StartsAwaited(rs, trace[p])
      ==> SettledBy(trace, trace[p].reactor, q)
  }

  /** A reactor settles at most once, after it started. */
  ghost predicate SettlesAfterStart(trace: seq<Observed>) {
    && (forall q: nat :: q < |trace| && trace[q].Settled? ==>
          exists p: nat :: p < q && trace[p] == Started(trace[q].reactor))
    && (forall p: nat, q: nat :: p < q < |trace| && trace[p].Settled? && trace[q].Settled? ==>
          trace[p].reactor != trace[q].reactor)
  }

  /** What settles as failed is exactly what throws or rejects. */
  ghost predicate FailuresLogged(world: World, trace: seq<Observed>) {
    forall q: nat :: q < |trace| && trace[q].Settled? ==>
      (trace[q].failed <==> world.throwsNow(trace[q].reactor) || world.rejects(trace[q].reactor))
  }

  predicate Blocks(rs: seq<ReactorConfig>, world: World, i: nat)
    requires i < |rs|
  {
    rs[i].enabled && rs[i].awaited && !world.throwsNow(i) && world.hangs(i)
  }

  // ---- Growing a trace ----------------------------------------------------------------

  ghost predicate NoneAwaited(rs: seq<ReactorConfig>, running: set<nat>) {
    forall k :: k in running && k < |rs| ==> !rs[k].awaited
  }

  ghost predicate NoneBlocks(rs: seq<ReactorConfig>, world: World, n: nat) {
    forall k :: 0 <= k < n && k < |rs| ==> !Blocks(rs, world, k)
  }

  /** Handlers started and not yet settled. */
  ghost predicate RunningIs(trace: seq<Observed>, running: set<nat>) {
    forall i :: i in running <==> i in Starts(trace) && !SettledBy(trace, i, |trace|)
  }

  ghost predicate Orderly(rs: seq<ReactorConfig>, world: World, trace: seq<Observed>) {
    AwaitedSettleFirst(rs, trace) && SettlesAfterStart(trace) && FailuresLogged(world, trace)
  }

  lemma StartsSnoc(trace: seq<Observed>, o: Observed)
    ensures Starts(trace + [o]) == Starts(trace) + if o.Started? then [o.reactor] else []
  {
    assert (trace + [o])[..|trace|] == trace;
  }

  lemma {:induction false} InStarts(trace: seq<Observed>, i: nat)
    ensures i in Starts(trace) <==> exists p: nat :: p < |trace| && trace[p] == Started(i)
  {
    if trace != [] {
      var front := trace[..|trace| - 1];
      InStarts(front, i);
      assert trace == front + [trace[|trace| - 1]];
      if p: nat :| p < |trace| && trace[p] == Started(i) {
        assert p < |front| ==> front[p] == Started(i);
      }
      if i in Starts(front) {
        var p: nat :| p < |front| && front[p] == Started(i);
        assert trace[p] == Started(i);
      }
    }
  }

  lemma SettledBySnoc(trace: seq<Observed>, o: Observed, i: nat, n: nat)
    ensures n <= |trace| ==> SettledBy(trace + [o], i, n) == SettledBy(trace, i, n)
    ensures SettledBy(trace + [o], i, |trace| + 1) <==> SettledBy(trace, i, |trace|) || (o.Settled? && o.reactor == i)
  {
    assert forall m :: 0 <= m < |trace| ==> (trace + [o])[m] == trace[m];
    assert (trace + [o])[|trace|] == o;
    if m :| 0 <= m < n && m < |trace| && trace[m].Settled? && trace[m].reactor == i {
      assert (trace + [o])[m].Settled?;
    }
    if m :| 0 <= m < |trace| && trace[m].Settled? && trace[m].reactor == i {
      assert (trace + [o])[m].Settled?;
    }
  }

  lemma SettleOne(rs: seq<ReactorConfig>, world: World, trace: seq<Observed>, running: set<nat>, i: nat)
    requires Orderly(rs, world, trace) && RunningIs(trace, running) && i in running
    ensures var t := trace + [Settled(i, world.throwsNow(i) || world.rejects(i))];
            Orderly(rs, world, t) && RunningIs(t, running - {i}) && Starts(t) == Starts(trace)
  {
    var o := Settled(i, world.throwsNow(i) || world.rejects(i));
    var t := trace + [o];
    StartsSnoc(trace, o);
    InStarts(trace, i);
    forall k: nat, n: nat
      ensures n <= |trace| ==> SettledBy(t, k, n) == SettledBy(trace, k, n)
    {
      SettledBySnoc(trace, o, k, n);
    }
    forall k: nat
      ensures SettledBy(t, k, |t|) <==> SettledBy(trace, k, |trace|) || k == i
    {
      SettledBySnoc(trace, o, k, |trace|);
    }
    forall p: nat | p < |trace| && trace[p].Settled? ensures trace[p].reactor != i {
      assert !SettledBy(trace, i, |trace|);
    }
    SettlesAfterStartSnoc(trace, i, o);
  }

  lemma {:induction false} SettlesAfterStartSnoc(trace: seq<Observed>, i: nat, o: Observed)
    requires SettlesAfterStart(trace) && o.Settled? && o.reactor == i && i in Starts(trace)
    requires forall p: nat :: p < |trace| && trace[p].Settled? ==> trace[p].reactor != i
    ensures SettlesAfterStart(trace + [o])
  {
    var t := trace + [o];
    InStarts(trace, i);
    forall q: nat | q < |t| && t[q].Settled? ensures exists p: nat :: p < q && t[p] == Started(t[q].reactor) {
      if q < |trace| {
        assert trace[q].Settled?;
        var p: nat :| p < q && trace[p] == Started(trace[q].reactor);
        assert t[p] == Started(t[q].reactor);
      } else {
        var p: nat :| p < |trace| && trace[p] == Started(i);
        assert t[p] == Started(t[q].reactor);
      }
    }
  }

  /** No awaited reactor among those running, so the next may start. */
  lemma StartOne(rs: seq<ReactorConfig>, world: World, trace: seq<Observed>, running: set<nat>, i: nat)
    requires Orderly(rs, world, trace) && RunningIs(trace, running)
    requires i !in Starts(trace) && NoneAwaited(rs, running)
    ensures var t := trace + [Started(i)];
            Orderly(rs, world, t) && RunningIs(t, running + {i}) && Starts(t) == Starts(trace) + [i]
  {
    var o := Started(i);
    var t := trace + [o];
    StartsSnoc(trace, o);
    InStarts(trace, i);
    forall k: nat, n: nat
      ensures n <= |trace| ==> SettledBy(t, k, n) == SettledBy(trace, k, n)
    {
      SettledBySnoc(trace, o, k, n);
    }
    forall k: nat
      ensures SettledBy(t, k, |t|) <==> SettledBy(trace, k, |trace|)
    {
      SettledBySnoc(trace, o, k, |trace|);
    }
    NotYetSettled(trace, i);
    forall p: nat | p < |trace| && StartsAwaited(rs, trace[p])
      ensures SettledBy(t, trace[p].reactor, |trace|)
    {
      InStarts(trace, trace[p].reactor);
    }
    forall q: nat | q < |t| && t[q].Settled? ensures exists p: nat :: p < q && t[p] == Started(t[q].reactor) {
      assert trace[q].Settled?;
      var p: nat :| p < q && trace[p] == Started(trace[q].reactor);
      assert t[p] == Started(t[q].reactor);
    }
  }

  lemma NotYetSettled(trace: seq<Observed>, i: nat)
    requires SettlesAfterStart(trace) && i !in Starts(trace)
    ensures !SettledBy(trace, i, |trace|)
  {
    InStarts(trace, i);
    assert forall q: nat :: q < |trace| && trace[q].Settled? ==> trace[q].reactor != i;
  }

  lemma {:induction false} EnabledUpToBelow(rs: seq<ReactorConfig>, n: nat)
    requires n <= |rs|
    ensures forall i :: i in EnabledUpTo(rs, n) <==> 0 <= i < n && rs[i].enabled
  {
    if n > 0 { EnabledUpToBelow(rs, n - 1); }
  }

  /** Each enabled reactor once, in chain order: what "the starts are EnabledUpTo" means. */
  lemma {:induction false} EnabledUpToIsOrdered(rs: seq<ReactorConfig>, n: nat)
    requires n <= |rs|
    ensures forall j, k :: 0 <= j < k < |EnabledUpTo(rs, n)| ==> EnabledUpTo(rs, n)[j] < EnabledUpTo(rs, n)[k]
    ensures forall i :: i in EnabledUpTo(rs, n) <==> 0 <= i < n && rs[i].enabled
  {
    EnabledUpToBelow(rs, n);
    if n > 0 {
      EnabledUpToIsOrdered(rs, n - 1);
      EnabledUpToBelow(rs, n - 1);
      var front := EnabledUpTo(rs, n - 1);
      forall j | 0 <= j < |front| ensures front[j] < n - 1 { assert front[j] in front; }
    }
  }

  lemma {:induction false} UnknownKindsIff(rs: seq<ReactorConfig>, registry: set<string>)
    ensures UnknownKinds(rs, registry) != [] <==> exists i :: 0 <= i < |rs| && IsUnknown(rs[i], registry)
  {
    if rs != [] {
      UnknownKindsIff(rs[..|rs| - 1], registry);
      assert rs == rs[..|rs| - 1] + [rs[|rs| - 1]];
    }
  }

  /** A chain run to its end has waited for everything it had to. */
  lemma {:induction false} AwaitedHaveSettled(rs: seq<ReactorConfig>, trace: seq<Observed>, running: set<nat>)
    requires RunningIs(trace, running) && NoneAwaited(rs, running) && Starts(trace) == EnabledUpTo(rs, |rs|)
    ensures forall i :: 0 <= i < |rs| && IsAwaited(rs[i]) ==> SettledBy(trace, i, |trace|)
  {
    EnabledUpToBelow(rs, |rs|);
  }

  // ---- publish ------------------------------------------------------------------------

  /** The names of the enabled reactors that nobody registered. */
  method FindMissing(rs: seq<ReactorConfig>, registry: set<string>) returns (missing: seq<string>)
    ensures missing == UnknownKinds(rs, registry)
  {
    missing := [];
    for i := 0 to |rs|
      invariant missing == UnknownKinds(rs[..i], registry)
    {
      assert rs[..i + 1][..i] == rs[..i];
      if rs[i].enabled && rs[i].kind !in registry { missing := missing + [rs[i].kind]; }
    }
    assert rs[..|rs|] == rs;
  }

  /** Other handlers settling, in the order the world gives, while one is awaited. */
  method LetOthersSettle(rs: seq<ReactorConfig>, world: World, order: seq<nat>, keep: nat, trace0: seq<Observed>,
                         running0: set<nat>)
    returns (trace: seq<Observed>, running: set<nat>)
    requires Orderly(rs, world, trace0) && RunningIs(trace0, running0) && keep in running0
    ensures Orderly(rs, world, trace) && RunningIs(trace, running) && Starts(trace) == Starts(trace0)
    ensures keep in running && running <= running0
  {
    trace, running := trace0, running0;
    for j := 0 to |order|
      invariant Orderly(rs, world, trace) && RunningIs(trace, running) && Starts(trace) == Starts(trace0)
      invariant keep in running && running <= running0
    {
      var k := order[j];
      if k in running && k != keep && !world.hangs(k) {
        SettleOne(rs, world, trace, running, k);
        trace := trace + [Settled(k, world.throwsNow(k) || world.rejects(k))];
        running := running - {k};
      }
    }
  }

  /** Run one enabled reactor; `done` is false when the chain stops waiting for it. */
  method RunReactor(rs: seq<ReactorConfig>, world: World, i: nat, trace0: seq<Observed>, running0: set<nat>)
    returns (trace: seq<Observed>, running: set<nat>, done: bool)
    requires i < |rs| && rs[i].enabled && i !in Starts(trace0)
    requires Orderly(rs, world, trace0) && RunningIs(trace0, running0) && NoneAwaited(rs, running0)
    ensures Orderly(rs, world, trace) && RunningIs(trace, running)
    ensures Starts(trace) == Starts(trace0) + [i]
    ensures done <==> !Blocks(rs, world, i)
    ensures done ==> NoneAwaited(rs, running)
  {
    StartOne(rs, world, trace0, running0, i);
    trace, running := trace0 + [Started(i)], running0 + {i};
    if world.throwsNow(i) {
      SettleOne(rs, world, trace, running, i);
      trace, running := trace + [Settled(i, true)], running - {i};
    } else if rs[i].awaited {
      trace, running := LetOthersSettle(rs, world, world.meanwhile(i), i, trace, running);
      if world.hangs(i) { return trace, running, false; }
      SettleOne(rs, world, trace, running, i);
      trace, running := trace + [Settled(i, world.rejects(i))], running - {i};
    }
    done := true;
  }

  /** The first enabled, awaited reactor that neither throws nor ever settles. */
  predicate FirstToHang(rs: seq<ReactorConfig>, world: World, i: nat) {
    && i < |rs| && rs[i].enabled && rs[i].awaited && !world.throwsNow(i) && world.hangs(i)
    && forall k :: 0 <= k < i && rs[k].enabled && rs[k].awaited ==> world.throwsNow(k) || !world.hangs(k)
  }

  lemma {:induction false} BlockingIsHanging(rs: seq<ReactorConfig>, world: World, n: nat)
    requires n <= |rs| && NoneBlocks(rs, world, n)
    ensures forall i: nat :: i < n ==> !FirstToHang(rs, world, i)
    ensures n < |rs| ==> (Blocks(rs, world, n) <==> FirstToHang(rs, world, n))
  {
    assert forall i: nat :: i < |rs| ==> (Blocks(rs, world, i) <==>
             rs[i].enabled && rs[i].awaited && !world.throwsNow(i) && world.hangs(i));
  }

  lemma {:induction false} UnknownAre(rs: seq<ReactorConfig>, registry: set<string>)
    ensures UnknownKinds(rs, registry) != [] <==> exists r :: r in rs && r.enabled && r.kind !in registry
  {
    UnknownKindsIff(rs, registry);
    if i :| 0 <= i < |rs| && IsUnknown(rs[i], registry) { assert rs[i] in rs; }
    if r :| r in rs && r.enabled && r.kind !in registry {
      var i :| 0 <= i < |rs| && rs[i] == r;
      assert IsUnknown(rs[i], registry);
    }
  }

  lemma {:induction false} NothingStarted(rs: seq<ReactorConfig>, world: World)
    ensures Orderly(rs, world, []) && RunningIs([], {}) && NoneAwaited(rs, {})
  {
  }

  /** The loop over the enabled reactors; `stoppedAt` is the one it waits for for ever. */
  method RunAll(rs: seq<ReactorConfig>, world: World)
    returns (stoppedAt: Option<nat>, trace: seq<Observed>, ghost running: set<nat>)
    ensures Orderly(rs, world, trace) && RunningIs(trace, running)
    ensures stoppedAt.None? ==> Starts(trace) == EnabledUpTo(rs, |rs|) && NoneAwaited(rs, running)
    ensures stoppedAt.None? ==> NoneBlocks(rs, world, |rs|)
    ensures stoppedAt.Some? ==> stoppedAt.value < |rs| && Starts(trace) == EnabledUpTo(rs, stoppedAt.value + 1)
    ensures stoppedAt.Some? ==> Blocks(rs, world, stoppedAt.value) && NoneBlocks(rs, world, stoppedAt.value)
  {
    NothingStarted(rs, world);
    trace := [];
    var active: set<nat> := {};
    for i := 0 to |rs|
      invariant Orderly(rs, world, trace) && RunningIs(trace, active) && NoneAwaited(rs, active)
      invariant Starts(trace) == EnabledUpTo(rs, i) && NoneBlocks(rs, world, i)
    {
      if !rs[i].enabled { continue; }
      EnabledUpToBelow(rs, i);
      var done: bool;
      trace, active, done := RunReactor(rs, world, i, trace, active);
      if !done { return Some(i), trace, active; }
    }
    return None, trace, active;
  }

  /** For every chain and every behaviour of the handlers: an unregistered enabled reactor
      means nothing starts; otherwise the enabled reactors start once each, in order, up to
      the first awaited one that never settles, with failures logged and otherwise without
      effect on what follows. */
  method Publish(chain: Chain, registry: set<string>, world: World) returns (outcome: Outcome, trace: seq<Observed>)
    ensures outcome.Unknown? <==>
              exists r :: r in chain.reactors && r.enabled && r.kind !in registry
    ensures outcome.Unknown? ==> trace == [] && outcome.missing == UnknownKinds(chain.reactors, registry)
    ensures outcome.Completed? ==> Starts(trace) == EnabledUpTo(chain.reactors, |chain.reactors|)
    ensures outcome.Completed? ==> forall i :: 0 <= i < |chain.reactors| && IsAwaited(chain.reactors[i]) ==>
              SettledBy(trace, i, |trace|)
    ensures outcome.Suspended? ==> outcome.at < |chain.reactors|
    ensures outcome.Suspended? ==> Starts(trace) == EnabledUpTo(chain.reactors, outcome.at + 1)
    ensures outcome.Suspended? ==>
              FirstToHang(chain.reactors, world, outcome.at)
    ensures outcome.Completed? ==>
              forall i: nat :: i < |chain.reactors| ==> !FirstToHang(chain.reactors, world, i)
    ensures AwaitedSettleFirst(chain.reactors, trace)
    ensures SettlesAfterStart(trace)
    ensures FailuresLogged(world, trace)
  {
    var rs := chain.reactors;
    trace := [];
    NothingStarted(rs, world);
    var missing := FindMissing(rs, registry);
    UnknownAre(rs, registry);
    if |missing| > 0 { return Unknown(missing), trace; }
    var stoppedAt: Option<nat>;
    ghost var running;
    stoppedAt, trace, running := RunAll(rs, world);
    BlockingIsHanging(rs, world, if stoppedAt.Some? then stoppedAt.value else |rs|);
    if stoppedAt.Some? { return Suspended(stoppedAt.value), trace; }
    AwaitedHaveSettled(rs, trace, running);
    outcome := Completed;
  }
}
