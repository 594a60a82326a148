/** One key called with several limits and windows: what each call sees, and for which sets of
    settings every verdict is the right one. */
module RateLimitWindows {
  import opened Wrappers
  import opened RateLimit
  import opened RateLimitTheorems
  import opened RateLimitRuns

  // ---- The cut ------------------------------------------------------------------------------

  function Later(a: int, b: int): int {
    if a > b then a else b
  }

  /** What a run leaves of a key: its admissions, the time up to which they are forgotten,
      the last call on it, and the last global cleanup. */
  datatype Trace = Trace(admitted: seq<int>, cut: int, last: Option<int>, cleanup: int)

  /** Pruning forgets a key that has been idle for too long, up to its last call. */
  function CutByPruning(r: Trace, now: int): int {
    if now - r.cleanup >= CLEANUP_INTERVAL_MS && r.last.Some? && now - r.last.value > IDLE_CUTOFF_MS
    then Later(r.cut, r.last.value)
    else r.cut
  }

  /** A call on the key forgets what its own window has left. */
  function CutByCall(r: Trace, c: Call): int {
    Later(CutByPruning(r, c.now), c.now - c.windowMs)
  }

  function AfterCall(r: Trace, c: Call, limited: bool): Trace {
    Trace(r.admitted + if limited then [] else [c.now], CutByCall(r, c), Some(c.now), CleanedAt(r.cleanup, c.now))
  }

  function AfterOther(r: Trace, now: int): Trace {
    Trace(r.admitted, CutByPruning(r, now), r.last, CleanedAt(r.cleanup, now))
  }

  function TraceOf(key: string, calls: seq<Call>, base: int, startedAt: int): Trace
    decreases |calls|
  {
    if calls == [] then Trace([], base, None, startedAt)
    else
      var front, c := calls[..|calls| - 1], calls[|calls| - 1];
      var r := TraceOf(key, front, base, startedAt);
      if c.key != key then AfterOther(r, c.now)
      else AfterCall(r, c, Checked(After(State(map[], startedAt), front), c).0.limited)
  }

  lemma {:induction false} TraceSnoc(key: string, front: seq<Call>, c: Call, base: int, startedAt: int)
    ensures var r := TraceOf(key, front, base, startedAt);
            TraceOf(key, front + [c], base, startedAt)
            == if c.key != key then AfterOther(r, c.now)
               else AfterCall(r, c, Checked(After(State(map[], startedAt), front), c).0.limited)
  {
    assert (front + [c])[..|front|] == front;
  }

  lemma {:induction false} TraceAdmissions(key: string, calls: seq<Call>, base: int, startedAt: int)
    ensures TraceOf(key, calls, base, startedAt).admitted == Admissions(key, State(map[], startedAt), calls)
    decreases |calls|
  {
    if calls != [] {
      var front, c := calls[..|calls| - 1], calls[|calls| - 1];
      assert calls == front + [c];
      TraceAdmissions(key, front, base, startedAt);
      TraceSnoc(key, front, c, base, startedAt);
      AfterSnoc(key, State(map[], startedAt), front, c);
    }
  }

  function Clock(calls: seq<Call>, startedAt: int): int {
    if calls == [] then startedAt else calls[|calls| - 1].now
  }

  lemma {:induction false} InOrderFront(front: seq<Call>, c: Call, startedAt: int)
    requires InOrder(front + [c], startedAt)
    ensures InOrder(front, startedAt) && startedAt <= Clock(front, startedAt) <= c.now
  {
    var all := front + [c];
    assert all[|front|] == c;
    assert forall i :: 0 <= i < |front| ==> all[i] == front[i];
  }

  // ---- What a call sees ---------------------------------------------------------------------

  /** The key's entry holds exactly the admissions since the cut. */
  ghost predicate Holds(s: State, key: string, r: Trace, now: int) {
    && r.cut < now && s.lastGlobalCleanup == r.cleanup
    && (r.last.None? ==> r.admitted == [] && key !in s.store)
    && (r.last.Some? ==> r.last.value <= now && NotAfter(r.admitted, r.last.value))
    && (key in s.store ==> r.last.Some? && s.store[key] == Entry(Newer(r.admitted, r.cut), r.last.value))
    && (key !in s.store ==> NotAfter(r.admitted, r.cut))
  }

  lemma {:induction false} NewerAlready(ts: seq<int>, a: int, b: int)
    requires b <= a
    ensures Newer(Newer(ts, a), b) == Newer(ts, a)
  {
    if ts != [] {
      NewerAlready(ts[1..], a, b);
      if ts[0] > a {
        NewerCons(ts[0], Newer(ts[1..], a), b);
      } else {
        assert Newer(ts, a) == Newer(ts[1..], a);
      }
    }
  }

  lemma {:induction false} NewerLaterOf(ts: seq<int>, a: int, b: int)
    ensures Newer(Newer(ts, a), b) == Newer(ts, Later(a, b))
  {
    if a <= b {
      NewerTwice(ts, a, b);
    } else {
      NewerAlready(ts, a, b);
    }
  }

  lemma {:induction false} HoldsPruned(s: State, key: string, r: Trace, now: int, later: int)
    requires Holds(s, key, r, now) && now <= later
    ensures Holds(Prune(s, later), key, AfterOther(r, later), later)
  {
  }

  lemma {:induction false} SeesSinceCut(s: State, key: string, r: Trace, now: int, start: int)
    requires Holds(s, key, r, now)
    ensures Newer(Timestamps(s, key), start) == Newer(r.admitted, Later(r.cut, start))
  {
    if key in s.store {
      NewerLaterOf(r.admitted, r.cut, start);
    } else {
      NoneNewer(r.admitted, Later(r.cut, start));
    }
  }

  lemma {:induction false} AddedSinceCut(adm: seq<int>, now: int, cut: int, limited: bool)
    requires cut < now
    ensures Newer(adm + if limited then [] else [now], cut) == Newer(adm, cut) + if limited then [] else [now]
  {
    NewerConcat(adm, if limited then [] else [now], cut);
    NewerCons(now, [], cut);
    assert [now] + [] == [now];
  }

  lemma {:induction false} SeesAtCall(s: State, key: string, r: Trace, now: int, c: Call)
    requires Holds(s, key, r, now) && now <= c.now
    ensures Newer(Timestamps(Prune(s, c.now), key), c.now - c.windowMs) == Newer(r.admitted, CutByCall(r, c))
  {
    HoldsPruned(s, key, r, now, c.now);
    SeesSinceCut(Prune(s, c.now), key, AfterOther(r, c.now), c.now, c.now - c.windowMs);
  }

  /** One call on the key: it decides by the admissions since the new cut. */
  lemma {:induction false} HoldsAfterCall(s: State, key: string, r: Trace, now: int, c: Call)
    requires Holds(s, key, r, now) && now <= c.now && c.key == key && c.windowMs > 0
    ensures var (v, t) := Checked(s, c);
            && v == Decide(Newer(r.admitted, CutByCall(r, c)), c.limit, c.windowMs, c.now)
            && Holds(t, key, AfterCall(r, c, v.limited), c.now)
  {
    SeesAtCall(s, key, r, now, c);
    AddedSinceCut(r.admitted, c.now, CutByCall(r, c), Checked(s, c).0.limited);
    assert Prune(s, c.now).lastGlobalCleanup == CleanedAt(r.cleanup, c.now);
  }

  lemma {:induction false} HoldsAfterOther(s: State, key: string, r: Trace, now: int, c: Call)
    requires Holds(s, key, r, now) && now <= c.now && c.key != key
    ensures Holds(Checked(s, c).1, key, AfterOther(r, c.now), c.now)
  {
    HoldsPruned(s, key, r, now, c.now);
  }

  /** Every window the key is called with has some length. */
  ghost predicate PositiveWindows(key: string, calls: seq<Call>) {
    forall i :: 0 <= i < |calls| && calls[i].key == key ==> calls[i].windowMs > 0
  }

  lemma {:induction false} PositiveWindowsFront(key: string, front: seq<Call>, c: Call)
    requires PositiveWindows(key, front + [c])
    ensures PositiveWindows(key, front) && (c.key == key ==> c.windowMs > 0)
  {
    assert (front + [c])[|front|] == c;
    assert forall i :: 0 <= i < |front| ==> (front + [c])[i] == front[i];
  }

  lemma {:induction false} RunHolds(key: string, calls: seq<Call>, base: int, startedAt: int)
    requires InOrder(calls, startedAt) && PositiveWindows(key, calls) && base < startedAt
    ensures Holds(After(State(map[], startedAt), calls), key, TraceOf(key, calls, base, startedAt),
                  Clock(calls, startedAt))
    decreases |calls|
  {
    if calls != [] {
      var front, c := calls[..|calls| - 1], calls[|calls| - 1];
      assert calls == front + [c];
      InOrderFront(front, c, startedAt);
      PositiveWindowsFront(key, front, c);
      RunHolds(key, front, base, startedAt);
      OneMoreHolds(key, front, c, base, startedAt);
    }
  }

  lemma {:induction false} OneMoreHolds(key: string, front: seq<Call>, c: Call, base: int, startedAt: int)
    requires Clock(front, startedAt) <= c.now && (c.key == key ==> c.windowMs > 0)
    requires Holds(After(State(map[], startedAt), front), key, TraceOf(key, front, base, startedAt),
                   Clock(front, startedAt))
    ensures Holds(After(State(map[], startedAt), front + [c]), key, TraceOf(key, front + [c], base, startedAt), c.now)
  {
    var s, r := After(State(map[], startedAt), front), TraceOf(key, front, base, startedAt);
    AfterSnoc(key, State(map[], startedAt), front, c);
    TraceSnoc(key, front, c, base, startedAt);
    if c.key == key {
      HoldsAfterCall(s, key, r, Clock(front, startedAt), c);
    } else {
      HoldsAfterOther(s, key, r, Clock(front, startedAt), c);
    }
  }

  /** Where the calls up to and including `c` have cut the history of its key. */
  function CutAt(calls: seq<Call>, c: Call, base: int, startedAt: int): int {
    CutByCall(TraceOf(c.key, calls, base, startedAt), c)
  }

  /** Whatever positive windows a key is called with, and however long it idles: a call sees
      the admissions newer than its own window's start, than every earlier call's, and than
      the last call before every pruning of the key. */
  lemma {:induction false} MixedWindowSees(calls: seq<Call>, c: Call, base: int, startedAt: int)
    requires InOrder(calls + [c], startedAt) && PositiveWindows(c.key, calls + [c]) && base < startedAt
    ensures var s := State(map[], startedAt);
            Checked(After(s, calls), c).0
                == Decide(Newer(Admissions(c.key, s, calls), CutAt(calls, c, base, startedAt)), c.limit, c.windowMs,
                          c.now)
  {
    InOrderFront(calls, c, startedAt);
    PositiveWindowsFront(c.key, calls, c);
    RunHolds(c.key, calls, base, startedAt);
    TraceAdmissions(c.key, calls, base, startedAt);
    HoldsAfterCall(After(State(map[], startedAt), calls), c.key, TraceOf(c.key, calls, base, startedAt),
                   Clock(calls, startedAt), c);
  }

  // ---- A shorter window makes a longer one forget --------------------------------------------

  datatype Setting = Setting(limit: int, windowMs: int)

  function CallAt(key: string, g: Setting, now: int): Call {
    Call(key, g.limit, g.windowMs, now)
  }

  function MixedRun(long: Setting, short: Setting): seq<Call>
    requires long.limit >= 1
  {
    Burst("", long.limit, long.windowMs, long.limit) + [CallAt("", short, short.windowMs)]
  }

  /** And then the long setting again. */
  function MixedCalls(long: Setting, short: Setting): seq<Call>
    requires long.limit >= 1
  {
    MixedRun(long, short) + [CallAt("", long, short.windowMs)]
  }

  function Kept(g: Setting): seq<int> {
    if g.limit >= 1 then [g.windowMs] else []
  }

  /** The short window's call drops the whole burst. */
  lemma {:induction false} ShortCallForgets(long: Setting, short: Setting)
    requires long.limit >= 1 && long.windowMs > 0 && 0 < short.windowMs <= IDLE_CUTOFF_MS
    ensures After(State(map[], 0), MixedRun(long, short))
         == OneKey("", Kept(short), short.windowMs, CleanedAt(0, short.windowMs))
    ensures Admissions("", State(map[], 0), MixedRun(long, short)) == AtZero(long.limit) + Kept(short)
  {
    var burst, c := Burst("", long.limit, long.windowMs, long.limit), CallAt("", short, short.windowMs);
    BurstIsAdmitted("", long.limit, long.windowMs, long.limit);
    AfterSnoc("", State(map[], 0), burst, c);
    NoneNewer(AtZero(long.limit), 0);
    OneKeyCall("", AtZero(long.limit), 0, 0, c);
    assert [] + [short.windowMs] == [short.windowMs];
  }

  lemma {:induction false} KeptIsNewer(g: Setting, start: int)
    requires start < g.windowMs
    ensures Newer(Kept(g), start) == Kept(g)
  {
    AllNewer(Kept(g), start);
  }

  /** A long-window call right after it is admitted, though its window holds a full burst. */
  lemma {:induction false} LongCallIsAdmitted(long: Setting, short: Setting)
    requires 0 < short.windowMs < long.windowMs && short.windowMs <= IDLE_CUTOFF_MS
    requires long.limit >= 1 && (long.limit == 1 ==> short.limit < 1)
    ensures !Checked(After(State(map[], 0), MixedRun(long, short)), CallAt("", long, short.windowMs)).0.limited
  {
    ShortCallForgets(long, short);
    KeptIsNewer(short, short.windowMs - long.windowMs);
    OneKeyCall("", Kept(short), short.windowMs, CleanedAt(0, short.windowMs), CallAt("", long, short.windowMs));
  }

  lemma {:induction false} MixedRunInOrder(long: Setting, short: Setting)
    requires long.limit >= 1 && short.windowMs > 0
    ensures InOrder(MixedCalls(long, short), 0)
  {
    var calls := MixedCalls(long, short);
    forall i | 0 <= i < |calls| ensures calls[i].now == if i < long.limit then 0 else short.windowMs {
    }
  }

  lemma {:induction false} MixedAdmissions(long: Setting, short: Setting)
    requires 0 < short.windowMs < long.windowMs && short.windowMs <= IDLE_CUTOFF_MS
    requires long.limit >= 2 && short.limit >= 1
    ensures Admissions("", State(map[], 0), MixedCalls(long, short))
         == AtZero(long.limit) + [short.windowMs] + [short.windowMs]
  {
    ShortCallForgets(long, short);
    LongCallIsAdmitted(long, short);
    AfterSnoc("", State(map[], 0), MixedRun(long, short), CallAt("", long, short.windowMs));
  }

  /** The calls on `key` admitted in (a, a + windowMs] number `n`. */
  ghost predicate AdmitsInWindow(n: int, windowMs: int, calls: seq<Call>, startedAt: int, key: string, a: int) {
    |Between(Admissions(key, State(map[], startedAt), calls), a, a + windowMs)| == n
  }

  lemma {:induction false} TwoTooMany(calls: seq<Call>, limit: int, now: int, windowMs: int)
    requires Admissions("", State(map[], 0), calls) == AtZero(limit) + [now] + [now]
    requires 0 < now < windowMs && limit >= 0
    ensures AdmitsInWindow(limit + 2, windowMs, calls, 0, "", -1)
  {
    AllBetween(AtZero(limit) + [now] + [now], -1, -1 + windowMs);
  }

  /** For every pair of windows, the shorter at most two minutes, and every long limit of at
      least 2: a run that admits two calls more than the long limit in one long window. */
  lemma {:induction false} MixedWindowsAdmitTooMany(long: Setting, short: Setting)
    requires 0 < short.windowMs < long.windowMs && short.windowMs <= IDLE_CUTOFF_MS
    requires long.limit >= 2 && short.limit >= 1
    ensures InOrder(MixedCalls(long, short), 0)
    ensures Admissions("", State(map[], 0), MixedCalls(long, short))
         == AtZero(long.limit) + [short.windowMs] + [short.windowMs]
    ensures AdmitsInWindow(long.limit + 2, long.windowMs, MixedCalls(long, short), 0, "", -1)
  {
    MixedRunInOrder(long, short);
    MixedAdmissions(long, short);
    TwoTooMany(MixedCalls(long, short), long.limit, short.windowMs, long.windowMs);
  }

  // ---- Which settings one key can be called with ---------------------------------------------

  /** The key is called with these settings only; other keys are called with any. */
  ghost predicate Uses(calls: seq<Call>, key: string, settings: set<Setting>) {
    forall i :: 0 <= i < |calls| && calls[i].key == key ==> Setting(calls[i].limit, calls[i].windowMs) in settings
  }

  ghost predicate WindowIsFull(calls: seq<Call>, c: Call, startedAt: int) {
    |Newer(Admissions(c.key, State(map[], startedAt), calls), c.now - c.windowMs)| >= c.limit
  }

  /** The call is refused exactly when its own window holds its limit of admissions. */
  ghost predicate Right(calls: seq<Call>, c: Call, startedAt: int) {
    Checked(After(State(map[], startedAt), calls), c).0.limited <==> WindowIsFull(calls, c, startedAt)
  }

  ghost predicate AlwaysRight(settings: set<Setting>) {
    forall calls: seq<Call>, c: Call, startedAt |
      InOrder(calls + [c], startedAt) && Uses(calls + [c], c.key, settings) ::
      Right(calls, c, startedAt)
  }

  predicate Tolerates(long: Setting, short: Setting) {
    short.windowMs < long.windowMs ==> long.limit == 1 && short.limit >= 1
  }

  /** Of the settings that admit anything: no window is longer than 120001 ms, and one that
      is longer than another has limit 1, and the other a positive one. */
  predicate Compatible(settings: set<Setting>) {
    forall g | g in settings && g.limit >= 1 ::
      g.windowMs <= IDLE_CUTOFF_MS + 1 && forall h | h in settings :: Tolerates(g, h)
  }

  ghost predicate Positive(settings: set<Setting>) {
    forall g | g in settings :: g.windowMs > 0
  }

  lemma {:induction false} UsesFront(front: seq<Call>, c: Call, key: string, settings: set<Setting>)
    requires Uses(front + [c], key, settings)
    ensures Uses(front, key, settings) && (c.key == key ==> Setting(c.limit, c.windowMs) in settings)
    ensures Positive(settings) ==> PositiveWindows(key, front + [c])
  {
    assert (front + [c])[|front|] == c;
    assert forall i :: 0 <= i < |front| ==> (front + [c])[i] == front[i];
  }

  lemma {:induction false} FewerAreNotMore(adm: seq<int>, c: Call, cut: int)
    requires c.now - c.windowMs <= cut
    requires Decide(Newer(adm, cut), c.limit, c.windowMs, c.now).limited
    ensures |Newer(adm, c.now - c.windowMs)| >= c.limit
  {
    NewerShrinks(adm, c.now - c.windowMs, cut);
  }

  /** A refusal is always right: what a call sees is among what its window holds. */
  lemma {:induction false} RefusalsAreRight(calls: seq<Call>, c: Call, base: int, startedAt: int)
    requires InOrder(calls + [c], startedAt) && PositiveWindows(c.key, calls + [c]) && base < startedAt
    ensures Checked(After(State(map[], startedAt), calls), c).0.limited ==> WindowIsFull(calls, c, startedAt)
  {
    MixedWindowSees(calls, c, base, startedAt);
    if Checked(After(State(map[], startedAt), calls), c).0.limited {
      FewerAreNotMore(Admissions(c.key, State(map[], startedAt), calls), c, CutAt(calls, c, base, startedAt));
    }
  }

  // The shortest window: no cut is later than its own window's start.

  ghost predicate NoShorter(settings: set<Setting>, windowMs: int) {
    forall g | g in settings :: g.windowMs >= windowMs
  }

  lemma {:induction false} CutsStayBehind(key: string, calls: seq<Call>, settings: set<Setting>, w: int, startedAt: int)
    requires InOrder(calls, startedAt) && Uses(calls, key, settings)
    requires NoShorter(settings, w) && 0 < w <= IDLE_CUTOFF_MS + 1
    ensures var r := TraceOf(key, calls, startedAt - w, startedAt);
            r.cut <= Clock(calls, startedAt) - w && (r.last.Some? ==> r.last.value <= Clock(calls, startedAt))
    decreases |calls|
  {
    if calls != [] {
      var front, c := calls[..|calls| - 1], calls[|calls| - 1];
      assert calls == front + [c];
      InOrderFront(front, c, startedAt);
      UsesFront(front, c, key, settings);
      CutsStayBehind(key, front, settings, w, startedAt);
      TraceSnoc(key, front, c, startedAt - w, startedAt);
    }
  }

  lemma {:induction false} ShortestIsNotCut(calls: seq<Call>, c: Call, settings: set<Setting>, startedAt: int)
    requires InOrder(calls + [c], startedAt) && Uses(calls, c.key, settings)
    requires 0 < c.windowMs <= IDLE_CUTOFF_MS + 1 && NoShorter(settings, c.windowMs)
    ensures CutAt(calls, c, startedAt - c.windowMs, startedAt) == c.now - c.windowMs
  {
    InOrderFront(calls, c, startedAt);
    CutsStayBehind(c.key, calls, settings, c.windowMs, startedAt);
  }

  lemma {:induction false} ShortestIsRight(calls: seq<Call>, c: Call, settings: set<Setting>, startedAt: int)
    requires InOrder(calls + [c], startedAt) && Uses(calls + [c], c.key, settings) && Positive(settings)
    requires c.windowMs <= IDLE_CUTOFF_MS + 1 && NoShorter(settings, c.windowMs)
    ensures Right(calls, c, startedAt)
  {
    UsesFront(calls, c, c.key, settings);
    ShortestIsNotCut(calls, c, settings, startedAt);
    MixedWindowSees(calls, c, startedAt - c.windowMs, startedAt);
  }

  // A limit of one: some admission of the window is always kept.

  lemma {:induction false} LaterCutKeepsOne(ts: seq<int>, a: int, b: int)
    requires Newer(ts, a) != [] && Newer(ts, b) != []
    ensures Newer(ts, Later(a, b)) != []
  {
  }

  /** Something admitted in the last `w` milliseconds means that something is not yet cut. */
  ghost predicate KeepsOne(r: Trace, w: int, now: int) {
    Newer(r.admitted, now - w) != [] ==> Newer(r.admitted, r.cut) != []
  }

  lemma {:induction false} KeepsOnePruned(r: Trace, w: int, before: int, now: int)
    requires KeepsOne(r, w, before) && before <= now && w <= IDLE_CUTOFF_MS + 1
    requires r.last.Some? ==> NotAfter(r.admitted, r.last.value)
    ensures Newer(r.admitted, now - w) != [] ==> Newer(r.admitted, CutByPruning(r, now)) != []
  {
    if r.last.Some? && now - r.last.value > IDLE_CUTOFF_MS {
      NoneNewer(r.admitted, now - w);
    } else {
      NewerShrinks(r.admitted, before - w, now - w);
    }
  }

  lemma {:induction false} KeepsOneAfterCall(r: Trace, g: Setting, c: Call, limited: bool)
    requires Newer(r.admitted, c.now - g.windowMs) != [] ==> Newer(r.admitted, CutByPruning(r, c.now)) != []
    requires Tolerates(g, Setting(c.limit, c.windowMs)) && CutByCall(r, c) < c.now
    requires limited <==> |Newer(r.admitted, CutByCall(r, c))| >= c.limit
    ensures var adm := r.admitted + if limited then [] else [c.now];
            Newer(adm, c.now - g.windowMs) != [] ==> Newer(adm, CutByCall(r, c)) != []
  {
    AddedSinceCut(r.admitted, c.now, CutByCall(r, c), limited);
    if limited && c.limit < 1 && Newer(r.admitted, c.now - g.windowMs) != [] {
      NewerShrinks(r.admitted, c.now - c.windowMs, c.now - g.windowMs);
      LaterCutKeepsOne(r.admitted, CutByPruning(r, c.now), c.now - c.windowMs);
    }
    assert limited ==> r.admitted + [] == r.admitted;
  }

  lemma {:induction false} RunKeepsOne(key: string, calls: seq<Call>, settings: set<Setting>, g: Setting,
                                       startedAt: int)
    requires InOrder(calls, startedAt) && Uses(calls, key, settings) && Positive(settings)
    requires g.windowMs <= IDLE_CUTOFF_MS + 1 && forall h | h in settings :: Tolerates(g, h)
    ensures KeepsOne(TraceOf(key, calls, startedAt - 1, startedAt), g.windowMs, Clock(calls, startedAt))
    decreases |calls|
  {
    if calls != [] {
      var front, c := calls[..|calls| - 1], calls[|calls| - 1];
      assert calls == front + [c];
      InOrderFront(front, c, startedAt);
      UsesFront(front, c, key, settings);
      RunKeepsOne(key, front, settings, g, startedAt);
      OneMoreKeepsOne(key, front, c, g, startedAt);
    }
  }

  lemma {:induction false} StepKeepsOne(s: State, key: string, r: Trace, now: int, c: Call, g: Setting)
    requires Holds(s, key, r, now) && now <= c.now && KeepsOne(r, g.windowMs, now)
    requires g.windowMs <= IDLE_CUTOFF_MS + 1
    requires c.key == key ==> c.windowMs > 0 && Tolerates(g, Setting(c.limit, c.windowMs))
    ensures KeepsOne(if c.key == key then AfterCall(r, c, Checked(s, c).0.limited) else AfterOther(r, c.now),
                     g.windowMs, c.now)
  {
    KeepsOnePruned(r, g.windowMs, now, c.now);
    if c.key == key {
      HoldsAfterCall(s, key, r, now, c);
      KeepsOneAfterCall(r, g, c, Checked(s, c).0.limited);
    }
  }

  lemma {:induction false} OneMoreKeepsOne(key: string, front: seq<Call>, c: Call, g: Setting, startedAt: int)
    requires InOrder(front + [c], startedAt) && PositiveWindows(key, front + [c])
    requires g.windowMs <= IDLE_CUTOFF_MS + 1 && (c.key == key ==> Tolerates(g, Setting(c.limit, c.windowMs)))
    requires KeepsOne(TraceOf(key, front, startedAt - 1, startedAt), g.windowMs, Clock(front, startedAt))
    ensures KeepsOne(TraceOf(key, front + [c], startedAt - 1, startedAt), g.windowMs, c.now)
  {
    InOrderFront(front, c, startedAt);
    PositiveWindowsFront(key, front, c);
    RunHolds(key, front, startedAt - 1, startedAt);
    TraceSnoc(key, front, c, startedAt - 1, startedAt);
    StepKeepsOne(After(State(map[], startedAt), front), key, TraceOf(key, front, startedAt - 1, startedAt),
                 Clock(front, startedAt), c, g);
  }

  lemma {:induction false} OneIsKept(calls: seq<Call>, c: Call, settings: set<Setting>, startedAt: int)
    requires InOrder(calls + [c], startedAt) && Uses(calls + [c], c.key, settings) && Positive(settings)
    requires c.windowMs <= IDLE_CUTOFF_MS + 1
    requires forall h | h in settings :: Tolerates(Setting(c.limit, c.windowMs), h)
    ensures var r := TraceOf(c.key, calls, startedAt - 1, startedAt);
            Newer(r.admitted, c.now - c.windowMs) != [] ==> Newer(r.admitted, CutByPruning(r, c.now)) != []
  {
    InOrderFront(calls, c, startedAt);
    UsesFront(calls, c, c.key, settings);
    PositiveWindowsFront(c.key, calls, c);
    RunHolds(c.key, calls, startedAt - 1, startedAt);
    RunKeepsOne(c.key, calls, settings, Setting(c.limit, c.windowMs), startedAt);
    KeepsOnePruned(TraceOf(c.key, calls, startedAt - 1, startedAt), c.windowMs, Clock(calls, startedAt), c.now);
  }

  /** What a call with limit 1 sees is empty only if its window is. */
  lemma {:induction false} SeesTheLatest(calls: seq<Call>, c: Call, settings: set<Setting>, startedAt: int)
    requires InOrder(calls + [c], startedAt) && Uses(calls + [c], c.key, settings) && Positive(settings)
    requires c.windowMs <= IDLE_CUTOFF_MS + 1
    requires forall h | h in settings :: Tolerates(Setting(c.limit, c.windowMs), h)
    ensures var r := TraceOf(c.key, calls, startedAt - 1, startedAt);
            Newer(r.admitted, c.now - c.windowMs) != [] ==> Newer(r.admitted, CutByCall(r, c)) != []
  {
    var r := TraceOf(c.key, calls, startedAt - 1, startedAt);
    OneIsKept(calls, c, settings, startedAt);
    if Newer(r.admitted, c.now - c.windowMs) != [] {
      LaterCutKeepsOne(r.admitted, CutByPruning(r, c.now), c.now - c.windowMs);
    }
  }

  lemma {:induction false} LimitOneIsRight(calls: seq<Call>, c: Call, settings: set<Setting>, startedAt: int)
    requires InOrder(calls + [c], startedAt) && Uses(calls + [c], c.key, settings) && Positive(settings)
    requires c.limit == 1 && c.windowMs <= IDLE_CUTOFF_MS + 1
    requires forall h | h in settings :: Tolerates(Setting(c.limit, c.windowMs), h)
    ensures Right(calls, c, startedAt)
  {
    UsesFront(calls, c, c.key, settings);
    SeesTheLatest(calls, c, settings, startedAt);
    TraceAdmissions(c.key, calls, startedAt - 1, startedAt);
    MixedWindowSees(calls, c, startedAt - 1, startedAt);
    RefusalsAreRight(calls, c, startedAt - 1, startedAt);
  }

  /** A call that may admit nothing is refused, and its window always holds none or more. */
  lemma {:induction false} NoLimitIsRight(calls: seq<Call>, c: Call, startedAt: int)
    requires c.limit < 1
    ensures Right(calls, c, startedAt)
  {
  }

  lemma {:induction false} CompatibleIsRight(calls: seq<Call>, c: Call, settings: set<Setting>, startedAt: int)
    requires Positive(settings) && Compatible(settings)
    requires InOrder(calls + [c], startedAt) && Uses(calls + [c], c.key, settings)
    ensures Right(calls, c, startedAt)
  {
    var g := Setting(c.limit, c.windowMs);
    UsesFront(calls, c, c.key, settings);
    if g.limit < 1 {
      NoLimitIsRight(calls, c, startedAt);
    } else if g.limit == 1 {
      LimitOneIsRight(calls, c, settings, startedAt);
    } else {
      assert forall h | h in settings :: Tolerates(g, h);
      ShortestIsRight(calls, c, settings, startedAt);
    }
  }

  // And the other settings fail.

  lemma {:induction false} WrongCall(calls: seq<Call>, c: Call, settings: set<Setting>, startedAt: int)
    requires InOrder(calls + [c], startedAt) && Uses(calls + [c], c.key, settings) && !Right(calls, c, startedAt)
    ensures !AlwaysRight(settings)
  {
  }

  lemma {:induction false} UniformUses(calls: seq<Call>, key: string, g: Setting, settings: set<Setting>)
    requires UniformOn(calls, key, g.limit, g.windowMs) && g in settings
    ensures Uses(calls, key, settings)
  {
  }

  lemma {:induction false} LateCallIsWrong(g: Setting)
    requires g.limit >= 1 && g.windowMs > IDLE_CUTOFF_MS + 1
    ensures !Right(Burst("", g.limit, g.windowMs, g.limit), LateCall("", g.limit, g.windowMs), 0)
  {
    var c := LateCall("", g.limit, g.windowMs);
    BurstIsAdmitted("", g.limit, g.windowMs, g.limit);
    assert AtZero(g.limit) + [] == AtZero(g.limit);
    FullBurst(Burst("", g.limit, g.windowMs, g.limit), c, []);
    assert Prune(OneKey("", AtZero(g.limit), 0, 0), c.now) == State(map[], c.now);
  }

  lemma {:induction false} LongWindowIsWrong(g: Setting, settings: set<Setting>)
    requires g in settings && g.limit >= 1 && g.windowMs > IDLE_CUTOFF_MS + 1
    ensures !AlwaysRight(settings)
  {
    LongWindowRunInOrder(g.limit, g.windowMs);
    UniformUses(LongWindowRun(g.limit, g.windowMs), "", g, settings);
    LateCallIsWrong(g);
    WrongCall(Burst("", g.limit, g.windowMs, g.limit), LateCall("", g.limit, g.windowMs), settings, 0);
  }

  lemma {:induction false} MixedRunUses(long: Setting, short: Setting, settings: set<Setting>)
    requires long in settings && short in settings && long.limit >= 1
    ensures Uses(MixedCalls(long, short), "", settings)
  {
  }

  lemma {:induction false} FullBurst(calls: seq<Call>, c: Call, ts: seq<int>)
    requires Admissions(c.key, State(map[], 0), calls) == AtZero(c.limit) + ts
    requires c.limit >= 0 && c.now < c.windowMs && forall i :: 0 <= i < |ts| ==> 0 < ts[i]
    ensures WindowIsFull(calls, c, 0)
  {
    AllNewer(AtZero(c.limit) + ts, c.now - c.windowMs);
  }

  lemma {:induction false} LongCallIsWrong(long: Setting, short: Setting)
    requires 0 < short.windowMs < long.windowMs && short.windowMs <= IDLE_CUTOFF_MS
    requires long.limit >= 1 && (long.limit == 1 ==> short.limit < 1)
    ensures !Right(MixedRun(long, short), CallAt("", long, short.windowMs), 0)
  {
    LongCallIsAdmitted(long, short);
    ShortCallForgets(long, short);
    FullBurst(MixedRun(long, short), CallAt("", long, short.windowMs), Kept(short));
  }

  lemma {:induction false} ShorterWindowIsWrong(long: Setting, short: Setting, settings: set<Setting>)
    requires long in settings && short in settings && 0 < short.windowMs && long.limit >= 1
    requires long.windowMs <= IDLE_CUTOFF_MS + 1 && !Tolerates(long, short)
    ensures !AlwaysRight(settings)
  {
    MixedRunInOrder(long, short);
    MixedRunUses(long, short, settings);
    LongCallIsWrong(long, short);
    WrongCall(MixedRun(long, short), CallAt("", long, short.windowMs), settings, 0);
  }

  /** Exactly when one key can be called with these settings: over every run, every call is
      then refused exactly when its own window is full. */
  lemma {:induction false} AlwaysRightIff(settings: set<Setting>)
    requires Positive(settings)
    ensures AlwaysRight(settings) <==> Compatible(settings)
  {
    if Compatible(settings) {
      forall calls: seq<Call>, c: Call, startedAt |
        InOrder(calls + [c], startedAt) && Uses(calls + [c], c.key, settings)
        ensures Right(calls, c, startedAt)
      {
        CompatibleIsRight(calls, c, settings, startedAt);
      }
    } else {
      var g :| g in settings && g.limit >= 1
               && !(g.windowMs <= IDLE_CUTOFF_MS + 1 && forall h | h in settings :: Tolerates(g, h));
      if g.windowMs > IDLE_CUTOFF_MS + 1 {
        LongWindowIsWrong(g, settings);
      } else {
        var h :| h in settings && !Tolerates(g, h);
        ShorterWindowIsWrong(g, h, settings);
      }
    }
  }
}
