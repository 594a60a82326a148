/** Admissions over whole runs of the limiter as it runs, and when the burst bound fails. */
module RateLimitRuns {
  import opened Wrappers
  import opened RateLimit
  import opened RateLimitTheorems

  // ---- Runs by their last call ------------------------------------------------------------

  function After(s: State, calls: seq<Call>): State
    decreases |calls|
  {
    if calls == [] then s else Checked(After(s, calls[..|calls| - 1]), calls[|calls| - 1]).1
  }

  /** When calls on `key` were admitted. */
  function Admissions(key: string, s: State, calls: seq<Call>): seq<int>
    decreases |calls|
  {
    if calls == [] then []
    else
      var front, c := calls[..|calls| - 1], calls[|calls| - 1];
      Admissions(key, s, front) + if c.key == key && !Checked(After(s, front), c).0.limited then [c.now] else []
  }

  lemma {:induction false} AfterSnoc(key: string, s: State, calls: seq<Call>, c: Call)
    ensures After(s, calls + [c]) == Checked(After(s, calls), c).1
    ensures Admissions(key, s, calls + [c])
         == Admissions(key, s, calls) + if c.key == key && !Checked(After(s, calls), c).0.limited then [c.now] else []
  {
    assert (calls + [c])[..|calls|] == calls;
  }

  function Admitted1(key: string, s: State, c: Call): seq<int> {
    if c.key == key && !Checked(s, c).0.limited then [c.now] else []
  }

  ghost predicate Starts(s: State, c: Call, rest: seq<Call>) {
    After(s, [c] + rest) == After(Checked(s, c).1, rest)
  }

  lemma {:induction false} AfterFrontSnoc(s: State, c: Call, front: seq<Call>, d: Call)
    requires Starts(s, c, front)
    ensures Starts(s, c, front + [d])
  {
    Assoc([c], front, [d]);
    AfterSnoc("", s, [c] + front, d);
    AfterSnoc("", Checked(s, c).1, front, d);
  }

  lemma {:induction false} SoleCall(key: string, s: State, c: Call)
    ensures After(s, [c]) == Checked(s, c).1
    ensures Admissions(key, s, [c]) == Admitted1(key, s, c)
  {
    assert [] + [c] == [c];
    AfterSnoc(key, s, [], c);
  }

  lemma {:induction false} AfterFront(s: State, c: Call, rest: seq<Call>)
    ensures Starts(s, c, rest)
    decreases |rest|
  {
    if rest == [] {
      SoleStart(s, c);
    } else {
      var front, d := rest[..|rest| - 1], rest[|rest| - 1];
      assert rest == front + [d];
      AfterFront(s, c, front);
      AfterFrontSnoc(s, c, front, d);
    }
  }

  lemma {:induction false} SoleStart(s: State, c: Call)
    ensures Starts(s, c, [])
  {
    assert [c] + [] == [c];
    SoleCall("", s, c);
  }

  ghost predicate Shifts(key: string, s: State, c: Call, rest: seq<Call>) {
    Admissions(key, s, [c] + rest) == Admitted1(key, s, c) + Admissions(key, Checked(s, c).1, rest)
  }

  lemma {:induction false} ShiftFrontSnoc(key: string, s: State, c: Call, front: seq<Call>, d: Call)
    requires Shifts(key, s, c, front)
    ensures Shifts(key, s, c, front + [d])
  {
    var t := Checked(s, c).1;
    AfterFront(s, c, front);
    Assoc([c], front, [d]);
    AfterSnoc(key, s, [c] + front, d);
    AfterSnoc(key, t, front, d);
    Assoc(Admitted1(key, s, c), Admissions(key, t, front), Admitted1(key, After(t, front), d));
  }

  lemma {:induction false} SoleShift(key: string, s: State, c: Call)
    ensures Shifts(key, s, c, [])
  {
    assert [c] + [] == [c];
    SoleCall(key, s, c);
  }

  lemma {:induction false} ShiftFront(key: string, s: State, c: Call, rest: seq<Call>)
    ensures Shifts(key, s, c, rest)
    decreases |rest|
  {
    if rest == [] {
      SoleShift(key, s, c);
    } else {
      var front, d := rest[..|rest| - 1], rest[|rest| - 1];
      assert rest == front + [d];
      ShiftFront(key, s, c, front);
      ShiftFrontSnoc(key, s, c, front, d);
    }
  }

  /** Read off the verdicts, the admissions are the same. */
  lemma {:induction false} AdmissionsAreTimes(key: string, s: State, calls: seq<Call>)
    ensures |Verdicts(s, calls)| == |calls|
    ensures AdmissionTimes(key, calls, Verdicts(s, calls)) == Admissions(key, s, calls)
    decreases |calls|
  {
    OneVerdictPerCall(s, calls);
    if calls != [] {
      var c, rest := calls[0], calls[1..];
      AdmissionsAreTimes(key, Checked(s, c).1, rest);
      assert calls == [c] + rest;
      ShiftFront(key, s, c, rest);
      assert Verdicts(s, calls)[1..] == Verdicts(Checked(s, c).1, rest);
    }
  }

  // ---- The bound is sharp -------------------------------------------------------------------

  function AtZero(n: int): seq<int> {
    seq(if n < 0 then 0 else n, _ => 0)
  }

  function Burst(key: string, limit: int, windowMs: int, n: nat): seq<Call> {
    seq(n, _ => Call(key, limit, windowMs, 0))
  }

  /** Pruning changes no verdict on a key that is always called with this setting. */
  ghost predicate AlwaysIdeal(limit: int, windowMs: int) {
    forall calls: seq<Call>, startedAt, key | InOrder(calls, startedAt) && UniformOn(calls, key, limit, windowMs) ::
      SameOn(calls, key, Verdicts(State(map[], startedAt), calls), IdealVerdicts(map[], calls))
  }

  function LateCall(key: string, limit: int, windowMs: int): Call {
    Call(key, limit, windowMs, IDLE_CUTOFF_MS + 1)
  }

  /** A store that knows one key, seen recently enough to be kept. */
  function OneKey(key: string, ts: seq<int>, lastSeen: int, cleanup: int): State {
    State(map[key := Entry(ts, lastSeen)], cleanup)
  }

  function CleanedAt(cleanup: int, now: int): int {
    if now - cleanup < CLEANUP_INTERVAL_MS then cleanup else now
  }

  lemma {:induction false} OneKeyCall(key: string, ts: seq<int>, lastSeen: int, cleanup: int, c: Call)
    requires c.key == key && c.now - lastSeen <= IDLE_CUTOFF_MS
    ensures var recent := Newer(ts, c.now - c.windowMs);
            var v := Decide(recent, c.limit, c.windowMs, c.now);
            Checked(OneKey(key, ts, lastSeen, cleanup), c)
            == (v, OneKey(key, if v.limited then recent else recent + [c.now], c.now, CleanedAt(cleanup, c.now)))
  {
    var s := OneKey(key, ts, lastSeen, cleanup);
    assert Prune(s, c.now) == OneKey(key, ts, lastSeen, CleanedAt(cleanup, c.now));
    assert forall e :: s.store[key := e] == map[key := e];
  }

  lemma {:induction false} NewKeyCall(cleanup: int, c: Call)
    requires c.limit >= 1
    ensures Checked(State(map[], cleanup), c)
            == (Verdict(false, Some(0)), OneKey(c.key, [c.now], c.now, CleanedAt(cleanup, c.now)))
  {
    var none: seq<int> := [];
    var p := State(map[], CleanedAt(cleanup, c.now));
    assert Prune(State(map[], cleanup), c.now) == p;
    assert Newer(Timestamps(p, c.key), c.now - c.windowMs) == none;
    assert none + [c.now] == [c.now];
    assert p.store[c.key := Entry([c.now], c.now)] == OneKey(c.key, [c.now], c.now, p.lastGlobalCleanup).store;
  }

  lemma {:induction false} OneMoreZero(n: nat)
    ensures AtZero(n) + [0] == AtZero(n + 1) && AtZero(1) == [0]
  {
  }

  lemma {:induction false} BurstSnoc(key: string, limit: int, windowMs: int, n: nat)
    ensures Burst(key, limit, windowMs, n + 1) == Burst(key, limit, windowMs, n) + [Call(key, limit, windowMs, 0)]
  {
  }

  lemma {:induction false} ZeroCall(key: string, limit: int, windowMs: int, n: nat)
    requires n < limit && windowMs > 0
    ensures Checked(OneKey(key, AtZero(n), 0, 0), Call(key, limit, windowMs, 0))
         == (Verdict(false, Some(0)), OneKey(key, AtZero(n + 1), 0, 0))
  {
    AllNewer(AtZero(n), 0 - windowMs);
    OneKeyCall(key, AtZero(n), 0, 0, Call(key, limit, windowMs, 0));
    OneMoreZero(n);
  }

  /** A burst at time 0 within the limit is admitted whole. */
  lemma {:induction false} BurstIsAdmitted(key: string, limit: int, windowMs: int, n: nat)
    requires 1 <= n <= limit && windowMs > 0
    ensures After(State(map[], 0), Burst(key, limit, windowMs, n)) == OneKey(key, AtZero(n), 0, 0)
    ensures Admissions(key, State(map[], 0), Burst(key, limit, windowMs, n)) == AtZero(n)
  {
    BurstSnoc(key, limit, windowMs, n - 1);
    AfterSnoc(key, State(map[], 0), Burst(key, limit, windowMs, n - 1), Call(key, limit, windowMs, 0));
    OneMoreZero(n - 1);
    if n == 1 {
      assert Burst(key, limit, windowMs, 0) == [];
      NewKeyCall(0, Call(key, limit, windowMs, 0));
    } else {
      BurstIsAdmitted(key, limit, windowMs, n - 1);
      ZeroCall(key, limit, windowMs, n - 1);
    }
  }

  lemma {:induction false} AllBetween(ts: seq<int>, after: int, upTo: int)
    requires forall i :: 0 <= i < |ts| ==> after < ts[i] <= upTo
    ensures Between(ts, after, upTo) == ts
  {
    if ts != [] { AllBetween(ts[..|ts| - 1], after, upTo); }
  }

  function LongWindowRun(limit: int, windowMs: int): seq<Call>
    requires limit >= 1
  {
    Burst("", limit, windowMs, limit) + [LateCall("", limit, windowMs)]
  }

  lemma {:induction false} LongWindowRunInOrder(limit: int, windowMs: int)
    requires limit >= 1
    ensures InOrder(LongWindowRun(limit, windowMs), 0) && UniformOn(LongWindowRun(limit, windowMs), "", limit, windowMs)
  {
    var calls := LongWindowRun(limit, windowMs);
    forall i | 0 <= i < |calls|
      ensures calls[i] == if i < limit then Call("", limit, windowMs, 0) else LateCall("", limit, windowMs)
    {
    }
  }

  /** Pruning forgets the full burst, and the late call is admitted. */
  lemma {:induction false} LongWindowAdmissions(limit: int, windowMs: int)
    requires limit >= 1 && windowMs > IDLE_CUTOFF_MS + 1
    ensures Admissions("", State(map[], 0), LongWindowRun(limit, windowMs)) == AtZero(limit) + [IDLE_CUTOFF_MS + 1]
  {
    var s, late := State(map[], 0), LateCall("", limit, windowMs);
    BurstIsAdmitted("", limit, windowMs, limit);
    AfterSnoc("", s, Burst("", limit, windowMs, limit), late);
    assert Prune(OneKey("", AtZero(limit), 0, 0), late.now) == State(map[], late.now);
    assert Newer([], late.now - late.windowMs) == [];
  }

  lemma {:induction false} LateAdmissionsCount(limit: int, windowMs: int)
    requires limit >= 1 && windowMs > IDLE_CUTOFF_MS + 1
    ensures |Between(AtZero(limit) + [IDLE_CUTOFF_MS + 1], -1, -1 + windowMs)| == limit + 1
  {
    AllBetween(AtZero(limit) + [IDLE_CUTOFF_MS + 1], -1, -1 + windowMs);
  }

  lemma {:induction false} LongWindowCalls(limit: int, windowMs: int) returns (calls: seq<Call>)
    requires limit >= 1 && windowMs > IDLE_CUTOFF_MS + 1
    ensures InOrder(calls, 0) && UniformOn(calls, "", limit, windowMs)
    ensures |Between(Admissions("", State(map[], 0), calls), -1, -1 + windowMs)| == limit + 1
  {
    calls := LongWindowRun(limit, windowMs);
    LongWindowRunInOrder(limit, windowMs);
    LongWindowAdmissions(limit, windowMs);
    LateAdmissionsCount(limit, windowMs);
  }

  /** For every window over 120001 ms and every limit: a run on which one window length
      holds a call more than the limit, read off the verdicts. */
  lemma {:induction false} LongWindowAdmitsTooMany(limit: int, windowMs: int) returns (calls: seq<Call>)
    requires limit >= 1 && windowMs > IDLE_CUTOFF_MS + 1
    ensures InOrder(calls, 0) && UniformOn(calls, "", limit, windowMs)
    ensures |Verdicts(State(map[], 0), calls)| == |calls|
    ensures |Between(AdmissionTimes("", calls, Verdicts(State(map[], 0), calls)), -1, -1 + windowMs)| == limit + 1
  {
    calls := LongWindowCalls(limit, windowMs);
    AdmissionsAreTimes("", State(map[], 0), calls);
  }

  /** The interval (a, a + windowMs] holds at most the limit of admitted calls of this key. */
  ghost predicate WithinLimit(limit: int, windowMs: int, calls: seq<Call>, startedAt: int, key: string, a: int) {
    |Between(Admissions(key, State(map[], startedAt), calls), a, a + windowMs)| <= limit
  }

  ghost predicate BurstBounded(limit: int, windowMs: int) {
    forall calls: seq<Call>, startedAt, key, a | InOrder(calls, startedAt) && UniformOn(calls, key, limit, windowMs) ::
      WithinLimit(limit, windowMs, calls, startedAt, key, a)
  }

  lemma {:induction false} ShortWindowIsBounded(
      limit: int, windowMs: int, calls: seq<Call>, startedAt: int, key: string, a: int)
    requires limit >= 1 && windowMs <= IDLE_CUTOFF_MS + 1
    requires InOrder(calls, startedAt) && UniformOn(calls, key, limit, windowMs)
    ensures WithinLimit(limit, windowMs, calls, startedAt, key, a)
  {
    NoBurstExceedsLimit(calls, startedAt, key, limit, windowMs, a);
    AdmissionsAreTimes(key, State(map[], startedAt), calls);
  }

  /** The burst bound of a key called with one setting is kept, over every run and whatever
      other keys do, exactly for windows of at most 120001 ms. */
  lemma {:induction false} BurstBoundIff(limit: int, windowMs: int)
    requires limit >= 1
    ensures BurstBounded(limit, windowMs) <==> windowMs <= IDLE_CUTOFF_MS + 1
  {
    if windowMs <= IDLE_CUTOFF_MS + 1 {
      forall calls: seq<Call>, startedAt, key, a |
        InOrder(calls, startedAt) && UniformOn(calls, key, limit, windowMs)
        ensures WithinLimit(limit, windowMs, calls, startedAt, key, a)
      {
        ShortWindowIsBounded(limit, windowMs, calls, startedAt, key, a);
      }
    } else {
      var calls := LongWindowCalls(limit, windowMs);
      assert !WithinLimit(limit, windowMs, calls, 0, "", -1);
    }
  }

  lemma {:induction false} ShortWindowIsIdeal(limit: int, windowMs: int)
    requires windowMs <= IDLE_CUTOFF_MS + 1
    ensures AlwaysIdeal(limit, windowMs)
  {
    forall calls: seq<Call>, startedAt, key | InOrder(calls, startedAt) && UniformOn(calls, key, limit, windowMs)
      ensures SameOn(calls, key, Verdicts(State(map[], startedAt), calls), IdealVerdicts(map[], calls))
    {
      PrunedLimiterIsIdeal(calls, startedAt, key, windowMs);
    }
  }

  /** A run that exceeds the limit is not answered as the ideal limiter would. */
  lemma {:induction false} ExcessIsNotIdeal(limit: int, windowMs: int, calls: seq<Call>, a: int)
    requires limit >= 0 && InOrder(calls, 0) && UniformOn(calls, "", limit, windowMs)
    requires |Between(Admissions("", State(map[], 0), calls), a, a + windowMs)| > limit
    ensures !SameOn(calls, "", Verdicts(State(map[], 0), calls), IdealVerdicts(map[], calls))
  {
    AdmissionsAreTimes("", State(map[], 0), calls);
    IdealNeverExceedsLimit(calls, 0, "", limit, windowMs, a);
    if SameOn(calls, "", Verdicts(State(map[], 0), calls), IdealVerdicts(map[], calls)) {
      SameAdmissionTimes("", calls, Verdicts(State(map[], 0), calls), IdealVerdicts(map[], calls));
    }
  }

  lemma {:induction false} NotAlwaysIdeal(limit: int, windowMs: int, calls: seq<Call>, key: string)
    requires InOrder(calls, 0) && UniformOn(calls, key, limit, windowMs)
    requires !SameOn(calls, key, Verdicts(State(map[], 0), calls), IdealVerdicts(map[], calls))
    ensures !AlwaysIdeal(limit, windowMs)
  {
  }

  lemma {:induction false} LongWindowIsNotIdeal(limit: int, windowMs: int)
    requires limit >= 1 && windowMs > IDLE_CUTOFF_MS + 1
    ensures !AlwaysIdeal(limit, windowMs)
  {
    var calls := LongWindowCalls(limit, windowMs);
    ExcessIsNotIdeal(limit, windowMs, calls, -1);
    NotAlwaysIdeal(limit, windowMs, calls, "");
  }

  /** So for every positive limit, pruning never changes a verdict if and only if the window
      is at most 120001 ms. */
  lemma {:induction false} PruningIsInvisibleIff(limit: int, windowMs: int)
    requires limit >= 1
    ensures AlwaysIdeal(limit, windowMs) <==> windowMs <= IDLE_CUTOFF_MS + 1
  {
    if windowMs <= IDLE_CUTOFF_MS + 1 {
      ShortWindowIsIdeal(limit, windowMs);
    } else {
      LongWindowIsNotIdeal(limit, windowMs);
    }
  }
}
