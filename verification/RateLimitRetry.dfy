/** retryAfter over whole runs: for which calls, and for which settings of a key, the seconds
    a refused call is told are exactly the wait. */
module RateLimitRetry {
  import opened Wrappers
  import opened RateLimit
  import opened RateLimitTheorems
  import opened RateLimitRuns
  import opened RateLimitWindows

  function RetryAt(c: Call, m: nat): Call {
    c.(now := c.now + 1000 * m)
  }

  /** A call, then calls on other keys, then the call again `m` whole seconds later. */
  function RetryRun(before: seq<Call>, c: Call, others: seq<Call>, m: nat): seq<Call> {
    before + [c] + others + [RetryAt(c, m)]
  }

  function Answers(before: seq<Call>, c: Call, others: seq<Call>, m: nat, startedAt: int): seq<Verdict> {
    Verdicts(State(map[], startedAt), RetryRun(before, c, others, m))
  }

  /** What the call finds in force for its key. */
  function SeenBy(before: seq<Call>, c: Call, startedAt: int): seq<int> {
    Seen(After(State(map[], startedAt), before), c)
  }

  /** If the verdict at `n` refuses, it says exactly after how many seconds `m` the last
      verdict, on a retry that much later, no longer does. */
  predicate RetryExact(vs: seq<Verdict>, n: nat, m: nat) {
    n < |vs| && (vs[n].limited ==> vs[n].retryAfter.Some? && (!vs[|vs| - 1].limited <==> m >= vs[n].retryAfter.value))
  }

  ghost predicate OthersOnly(calls: seq<Call>, key: string) {
    forall i :: 0 <= i < |calls| ==> calls[i].key != key
  }

  /** Whatever other keys do in the meantime, and whenever the retry comes. */
  ghost predicate RetryIsExact(before: seq<Call>, c: Call, startedAt: int) {
    forall others: seq<Call>, m: nat |
      InOrder(RetryRun(before, c, others, m), startedAt) && OthersOnly(others, c.key) ::
      RetryExact(Answers(before, c, others, m, startedAt), |before|, m)
  }

  // ---- Verdicts of a retry run --------------------------------------------------------------

  lemma {:induction false} AfterConcat(s: State, a: seq<Call>, b: seq<Call>)
    ensures After(s, a + b) == After(After(s, a), b)
    decreases |b|
  {
    if b == [] {
      assert a + b == a;
    } else {
      var front, d := b[..|b| - 1], b[|b| - 1];
      assert b == front + [d];
      Assoc(a, front, [d]);
      AfterConcat(s, a, front);
      AfterSnoc("", s, a + front, d);
      AfterSnoc("", After(s, a), front, d);
    }
  }

  ghost predicate VerdictIs(s: State, a: seq<Call>, t: seq<Call>) {
    t != [] && |Verdicts(s, a + t)| == |a| + |t| && Verdicts(s, a + t)[|a|] == Checked(After(s, a), t[0]).0
  }

  lemma {:induction false} ConsVerdictIs(s: State, c: Call, rest: seq<Call>, t: seq<Call>)
    requires VerdictIs(Checked(s, c).1, rest, t)
    ensures VerdictIs(s, [c] + rest, t)
  {
    Assoc([c], rest, t);
    assert ([c] + (rest + t))[1..] == rest + t;
    assert Verdicts(s, [c] + (rest + t)) == [Checked(s, c).0] + Verdicts(Checked(s, c).1, rest + t);
    AfterFront(s, c, rest);
  }

  /** The verdict on a call depends on what came before it. */
  lemma {:induction false} VerdictAt(s: State, a: seq<Call>, t: seq<Call>)
    requires t != []
    ensures VerdictIs(s, a, t)
    decreases |a|
  {
    if a == [] {
      assert a + t == t;
      OneVerdictPerCall(s, t);
    } else {
      assert a == [a[0]] + a[1..];
      VerdictAt(Checked(s, a[0]).1, a[1..], t);
      ConsVerdictIs(s, a[0], a[1..], t);
    }
  }

  /** The verdict on the retry of a call made in this state. */
  function Retried(s: State, c: Call, others: seq<Call>, m: nat): Verdict {
    Checked(After(Checked(s, c).1, others), RetryAt(c, m)).0
  }

  predicate LastIs(vs: seq<Verdict>, last: Verdict) {
    vs != [] && vs[|vs| - 1] == last
  }

  predicate FirstAndLast(vs: seq<Verdict>, n: nat, first: Verdict, last: Verdict) {
    n < |vs| && vs[n] == first && LastIs(vs, last)
  }

  lemma {:induction false} FirstVerdict(s: State, before: seq<Call>, c: Call, rest: seq<Call>)
    ensures var vs := Verdicts(s, before + ([c] + rest));
            |vs| == |before| + 1 + |rest| && vs[|before|] == Checked(After(s, before), c).0
  {
    VerdictAt(s, before, [c] + rest);
  }

  lemma {:induction false} LastVerdict(s: State, all: seq<Call>, last: Call)
    ensures LastIs(Verdicts(s, all + [last]), Checked(After(s, all), last).0)
  {
    VerdictAt(s, all, [last]);
  }

  lemma {:induction false} AfterCallAndOthers(s: State, before: seq<Call>, c: Call, others: seq<Call>)
    ensures After(s, before + [c] + others) == After(Checked(After(s, before), c).1, others)
  {
    AfterConcat(s, before + [c], others);
    AfterSnoc("", s, before, c);
  }

  lemma {:induction false} FirstAnswer(before: seq<Call>, c: Call, others: seq<Call>, m: nat, startedAt: int)
    ensures var vs := Answers(before, c, others, m, startedAt);
            |vs| > |before| && vs[|before|] == Checked(After(State(map[], startedAt), before), c).0
  {
    Assoc(before + [c], others, [RetryAt(c, m)]);
    Assoc(before, [c], others + [RetryAt(c, m)]);
    FirstVerdict(State(map[], startedAt), before, c, others + [RetryAt(c, m)]);
  }

  lemma {:induction false} LastAnswer(before: seq<Call>, c: Call, others: seq<Call>, m: nat, startedAt: int)
    ensures LastIs(Answers(before, c, others, m, startedAt),
                   Checked(After(State(map[], startedAt), before + [c] + others), RetryAt(c, m)).0)
  {
    LastVerdict(State(map[], startedAt), before + [c] + others, RetryAt(c, m));
  }

  /** The two verdicts of a retry run, by the states they are given in. */
  lemma {:induction false} RetryVerdicts(before: seq<Call>, c: Call, others: seq<Call>, m: nat, startedAt: int)
    ensures var s := After(State(map[], startedAt), before);
            FirstAndLast(Answers(before, c, others, m, startedAt), |before|, Checked(s, c).0, Retried(s, c, others, m))
  {
    FirstAnswer(before, c, others, m, startedAt);
    LastAnswer(before, c, others, m, startedAt);
    AfterCallAndOthers(State(map[], startedAt), before, c, others);
  }

  // ---- What a run leaves of a key -----------------------------------------------------------

  predicate Sorted(ts: seq<int>) {
    forall i, j :: 0 <= i < j < |ts| ==> ts[i] <= ts[j]
  }

  ghost predicate OrderlyUntil(ts: seq<int>, now: int) {
    Sorted(ts) && NotAfter(ts, now)
  }

  lemma {:induction false} NewerAreOf(ts: seq<int>, start: int)
    ensures forall t :: t in Newer(ts, start) ==> t in ts && t > start
  {
    if ts != [] { NewerAreOf(ts[1..], start); }
  }

  lemma {:induction false} ConsSorted(t: int, ts: seq<int>)
    requires Sorted(ts) && forall x :: x in ts ==> t <= x
    ensures Sorted([t] + ts)
  {
    var all := [t] + ts;
    forall i, j | 0 <= i < j < |all| ensures all[i] <= all[j] {
      assert all[j] == ts[j - 1] && ts[j - 1] in ts;
    }
  }

  lemma {:induction false} NewerIsSorted(ts: seq<int>, start: int)
    requires Sorted(ts)
    ensures Sorted(Newer(ts, start))
  {
    if ts != [] {
      var kept := Newer(ts[1..], start);
      NewerIsSorted(ts[1..], start);
      NewerAreOf(ts[1..], start);
      ConsSorted(ts[0], kept);
      assert [] + kept == kept;
    }
  }

  lemma {:induction false} NewerIsOrderly(ts: seq<int>, start: int, now: int)
    requires OrderlyUntil(ts, now)
    ensures OrderlyUntil(Newer(ts, start), now)
    ensures forall i :: 0 <= i < |Newer(ts, start)| ==> Newer(ts, start)[i] in ts && Newer(ts, start)[i] > start
  {
    NewerIsSorted(ts, start);
    NewerMembers(ts, start, now);
    NewerAreOf(ts, start);
  }

  /** A call on another key leaves this one, or prunes it. */
  lemma {:induction false} OtherCallLeaves(s: State, key: string, c: Call)
    requires c.key != key
    ensures Timestamps(Checked(s, c).1, key) == Timestamps(s, key) || Timestamps(Checked(s, c).1, key) == []
  {
  }

  lemma {:induction false} SeenIsOrderly(s: State, c: Call)
    requires OrderlyUntil(Timestamps(s, c.key), c.now)
    ensures OrderlyUntil(Seen(s, c), c.now)
    ensures forall i :: 0 <= i < |Seen(s, c)| ==> c.now - c.windowMs < Seen(s, c)[i] <= c.now
  {
    NewerIsOrderly(Timestamps(Prune(s, c.now), c.key), c.now - c.windowMs, c.now);
  }

  lemma {:induction false} RunIsOrderly(key: string, calls: seq<Call>, startedAt: int)
    requires InOrder(calls, startedAt)
    ensures var s := After(State(map[], startedAt), calls);
            && OrderlyUntil(Timestamps(s, key), Clock(calls, startedAt))
            && s.lastGlobalCleanup <= Clock(calls, startedAt)
    decreases |calls|
  {
    if calls != [] {
      var front, c := calls[..|calls| - 1], calls[|calls| - 1];
      assert calls == front + [c];
      InOrderFront(front, c, startedAt);
      RunIsOrderly(key, front, startedAt);
      AfterSnoc(key, State(map[], startedAt), front, c);
      CallIsOrderly(After(State(map[], startedAt), front), key, c);
    }
  }

  lemma {:induction false} CallIsOrderly(s: State, key: string, c: Call)
    requires OrderlyUntil(Timestamps(s, key), c.now) && s.lastGlobalCleanup <= c.now
    ensures OrderlyUntil(Timestamps(Checked(s, c).1, key), c.now) && Checked(s, c).1.lastGlobalCleanup <= c.now
  {
    if c.key == key {
      SeenIsOrderly(s, c);
      OwnEntry(s, c);
    } else {
      OtherCallLeaves(s, key, c);
    }
  }

  // ---- What a retry finds -------------------------------------------------------------------

  predicate Has(s: State, key: string, entry: Entry) {
    key in s.store && s.store[key] == entry
  }

  /** The entry of a key nobody calls stays as it is until it is pruned. */
  lemma {:induction false} OthersLeaveOrPrune(s: State, key: string, entry: Entry, others: seq<Call>, now: int)
    requires Has(s, key, entry) && OthersOnly(others, key)
    requires forall i :: 0 <= i < |others| ==> others[i].now <= now
    ensures var t := After(s, others);
            Has(t, key, entry) || (key !in t.store && now - entry.lastSeen > IDLE_CUTOFF_MS)
    decreases |others|
  {
    if others != [] {
      var front, d := others[..|others| - 1], others[|others| - 1];
      assert others == front + [d];
      OthersLeaveOrPrune(s, key, entry, front, now);
      AfterSnoc("", s, front, d);
    }
  }

  /** A retry sees what is left of what the refused call saw, or, after more than two
      minutes, perhaps nothing. */
  lemma {:induction false} RetrySees(s: State, c: Call, seen: seq<int>, others: seq<Call>, m: nat)
    requires Has(s, c.key, Entry(seen, c.now)) && OthersOnly(others, c.key)
    requires forall i :: 0 <= i < |others| ==> others[i].now <= c.now + 1000 * m
    ensures var found := Seen(After(s, others), RetryAt(c, m));
            found == Newer(seen, c.now + 1000 * m - c.windowMs) || (found == [] && m > 120)
  {
    OthersLeaveOrPrune(s, c.key, Entry(seen, c.now), others, c.now + 1000 * m);
  }

  lemma {:induction false} RefusedEntry(s: State, c: Call)
    requires |Seen(s, c)| >= c.limit
    ensures Has(Checked(s, c).1, c.key, Entry(Seen(s, c), c.now))
    ensures Checked(s, c).1.lastGlobalCleanup == CleanedAt(s.lastGlobalCleanup, c.now)
  {
  }

  // ---- The wait -----------------------------------------------------------------------------

  /** Whole seconds until the `i`th admission leaves the window of the call. */
  function Wait(ts: seq<int>, i: nat, c: Call): int
    requires i < |ts|
  {
    CeilSeconds(ts[i] + c.windowMs - c.now)
  }

  lemma CeilSecondsIsLeast(ms: int, m: int)
    ensures m >= CeilSeconds(ms) <==> 1000 * m >= ms
  {
  }

  /** Room for one more means that all but the latest `limit - 1` have left. */
  lemma {:induction false} RoomIff(ts: seq<int>, start: int, limit: int)
    requires Sorted(ts) && limit >= 1
    ensures |Newer(ts, start)| < limit <==> |ts| < limit || ts[|ts| - limit] <= start
  {
    if ts == [] {
    } else if ts[0] > start {
      AllNewer(ts, start);
    } else {
      RoomIff(ts[1..], start, limit);
    }
  }

  /** Unless the key is pruned, the retry is admitted from this second on. */
  lemma {:induction false} AdmittedFrom(seen: seq<int>, c: Call, m: nat)
    requires Sorted(seen) && 1 <= c.limit <= |seen|
    ensures |Newer(seen, c.now + 1000 * m - c.windowMs)| < c.limit <==> m >= Wait(seen, |seen| - c.limit, c)
  {
    RoomIff(seen, c.now + 1000 * m - c.windowMs, c.limit);
    CeilSecondsIsLeast(seen[|seen| - c.limit] + c.windowMs - c.now, m);
  }

  /** What the refused call is told: when the oldest admission it saw will have left. */
  lemma {:induction false} ToldOldest(s: State, c: Call)
    requires OrderlyUntil(Timestamps(s, c.key), c.now) && |Seen(s, c)| >= c.limit && Seen(s, c) != []
    ensures Checked(s, c).0 == Verdict(true, Some(Wait(Seen(s, c), 0, c))) && Wait(Seen(s, c), 0, c) >= 1
  {
    SeenIsOrderly(s, c);
    CeilSecondsIsLeast(Seen(s, c)[0] + c.windowMs - c.now, 0);
  }

  lemma {:induction false} WaitsGrow(ts: seq<int>, i: nat, c: Call)
    requires Sorted(ts) && i < |ts|
    ensures Wait(ts, 0, c) <= Wait(ts, i, c)
  {
  }

  // ---- One call -----------------------------------------------------------------------------

  const PRUNED_AFTER_S := 121

  /** The oldest admission the call saw leaves in the same second as the last that must, and
      no later than the key may be pruned. */
  predicate ToldRight(seen: seq<int>, c: Call) {
    |seen| >= c.limit ==>
      c.limit >= 1 && Wait(seen, 0, c) == Wait(seen, |seen| - c.limit, c) <= PRUNED_AFTER_S
  }

  lemma {:induction false} ToldRightIsExact(s: State, c: Call, others: seq<Call>, m: nat)
    requires OrderlyUntil(Timestamps(s, c.key), c.now) && |Seen(s, c)| >= c.limit && ToldRight(Seen(s, c), c)
    requires OthersOnly(others, c.key) && forall i :: 0 <= i < |others| ==> others[i].now <= c.now + 1000 * m
    ensures !Retried(s, c, others, m).limited <==> m >= Wait(Seen(s, c), 0, c)
  {
    var seen := Seen(s, c);
    SeenIsOrderly(s, c);
    RefusedEntry(s, c);
    RetrySees(Checked(s, c).1, c, seen, others, m);
    AdmittedFrom(seen, c, m);
    OwnEntry(After(Checked(s, c).1, others), RetryAt(c, m));
  }

  lemma {:induction false} OthersInTime(before: seq<Call>, c: Call, others: seq<Call>, m: nat, startedAt: int)
    requires InOrder(RetryRun(before, c, others, m), startedAt)
    ensures forall i :: 0 <= i < |others| ==> others[i].now <= c.now + 1000 * m
  {
    var calls := RetryRun(before, c, others, m);
    assert calls[|calls| - 1] == RetryAt(c, m);
    forall i | 0 <= i < |others| ensures others[i].now <= c.now + 1000 * m {
      assert calls[|before| + 1 + i] == others[i];
    }
  }

  lemma {:induction false} CallIsInOrder(before: seq<Call>, c: Call, startedAt: int)
    requires InOrder(before + [c], startedAt)
    ensures OrderlyUntil(Timestamps(After(State(map[], startedAt), before), c.key), c.now)
    ensures After(State(map[], startedAt), before).lastGlobalCleanup <= c.now
  {
    InOrderFront(before, c, startedAt);
    RunIsOrderly(c.key, before, startedAt);
  }

  lemma {:induction false} RightIsExact(before: seq<Call>, c: Call, others: seq<Call>, m: nat, startedAt: int)
    requires InOrder(before + [c], startedAt) && ToldRight(SeenBy(before, c, startedAt), c)
    requires InOrder(RetryRun(before, c, others, m), startedAt) && OthersOnly(others, c.key)
    ensures RetryExact(Answers(before, c, others, m, startedAt), |before|, m)
  {
    var s := After(State(map[], startedAt), before);
    RetryVerdicts(before, c, others, m, startedAt);
    CallIsInOrder(before, c, startedAt);
    OwnEntry(s, c);
    if |Seen(s, c)| >= c.limit {
      OthersInTime(before, c, others, m, startedAt);
      ToldOldest(s, c);
      ToldRightIsExact(s, c, others, m);
    }
  }

  // ---- Told too much or too little ----------------------------------------------------------

  /** The call is told more than 121 seconds, and admitted after 121. */
  predicate AdmittedEarly(vs: seq<Verdict>, n: nat) {
    && n < |vs| && vs[n].limited && vs[n].retryAfter.Some? && vs[n].retryAfter.value > PRUNED_AFTER_S
    && !vs[|vs| - 1].limited
  }

  /** The call is told `m` seconds, and refused after them. */
  predicate RefusedAgain(vs: seq<Verdict>, n: nat, m: nat) {
    n < |vs| && vs[n] == Verdict(true, Some(m)) && vs[|vs| - 1].limited
  }

  lemma {:induction false} AdmittedAfterPruning(s: State, c: Call)
    requires OrderlyUntil(Timestamps(s, c.key), c.now) && s.lastGlobalCleanup <= c.now && 1 <= c.limit <= |Seen(s, c)|
    ensures Checked(s, c).0 == Verdict(true, Some(Wait(Seen(s, c), 0, c)))
    ensures !Retried(s, c, [], PRUNED_AFTER_S).limited
  {
    ToldOldest(s, c);
    RefusedEntry(s, c);
    RetryPrunes(Checked(s, c).1, c, Seen(s, c));
  }

  /** After 121 seconds without calls the retry itself prunes the key. */
  lemma {:induction false} LongWaitIsTooLong(before: seq<Call>, c: Call, startedAt: int)
    requires InOrder(before + [c], startedAt) && 1 <= c.limit <= |SeenBy(before, c, startedAt)|
    requires Wait(SeenBy(before, c, startedAt), 0, c) > PRUNED_AFTER_S
    ensures AdmittedEarly(Answers(before, c, [], PRUNED_AFTER_S, startedAt), |before|)
  {
    CallIsInOrder(before, c, startedAt);
    AdmittedAfterPruning(After(State(map[], startedAt), before), c);
    RetryVerdicts(before, c, [], PRUNED_AFTER_S, startedAt);
  }

  lemma {:induction false} RetryPrunes(t: State, c: Call, seen: seq<int>)
    requires Has(t, c.key, Entry(seen, c.now)) && t.lastGlobalCleanup <= c.now && c.limit >= 1
    ensures !Checked(t, RetryAt(c, PRUNED_AFTER_S)).0.limited
  {
    OwnEntry(t, RetryAt(c, PRUNED_AFTER_S));
    assert c.key !in Prune(t, c.now + 1000 * PRUNED_AFTER_S).store;
  }

  /** A call on another key two minutes on, which cleans up just before the key is idle for
      long enough. */
  function Cleaner(c: Call): Call {
    Call(c.key + "x", 1, 1, c.now + IDLE_CUTOFF_MS)
  }

  /** What may happen before a retry after `m` seconds without the key being pruned. */
  function Keeping(c: Call, m: nat): seq<Call> {
    if m <= 120 then [] else [Cleaner(c)]
  }

  lemma {:induction false} KeptForRetry(t: State, c: Call, seen: seq<int>, m: nat)
    requires Has(t, c.key, Entry(seen, c.now)) && t.lastGlobalCleanup <= c.now && m <= PRUNED_AFTER_S
    ensures Seen(After(t, Keeping(c, m)), RetryAt(c, m)) == Newer(seen, c.now + 1000 * m - c.windowMs)
  {
    if m <= 120 {
      RetrySees(t, c, seen, [], m);
    } else {
      SoleCall("", t, Cleaner(c));
      assert Has(Checked(t, Cleaner(c)).1, c.key, Entry(seen, c.now));
    }
  }

  lemma {:induction false} KeepingIsOther(c: Call, m: nat)
    ensures OthersOnly(Keeping(c, m), c.key)
  {
    assert |c.key + "x"| != |c.key|;
  }

  lemma {:induction false} RetryRunInOrder(before: seq<Call>, c: Call, others: seq<Call>, m: nat, startedAt: int)
    requires InOrder(before + [c], startedAt)
    requires |others| <= 1 && forall i :: 0 <= i < |others| ==> c.now <= others[i].now <= c.now + 1000 * m
    ensures InOrder(RetryRun(before, c, others, m), startedAt)
  {
    var calls, start := RetryRun(before, c, others, m), before + [c];
    assert start[|before|] == c;
    forall i | 0 <= i < |start| ensures calls[i] == start[i] && startedAt <= start[i].now <= c.now {
    }
    forall i | |start| <= i < |calls| ensures c.now <= calls[i].now <= c.now + 1000 * m {
      if i < |calls| - 1 { assert calls[i] == others[i - |start|]; }
    }
    assert calls[|calls| - 1] == RetryAt(c, m);
  }

  /** The oldest admission the call saw leaves in second `m`, the last that must in a later one. */
  predicate ToldShort(seen: seq<int>, c: Call, m: int) {
    1 <= c.limit <= |seen| && m == Wait(seen, 0, c) < Wait(seen, |seen| - c.limit, c) && m <= PRUNED_AFTER_S
  }

  lemma {:induction false} RefusedAfterWait(s: State, c: Call, m: nat)
    requires OrderlyUntil(Timestamps(s, c.key), c.now) && s.lastGlobalCleanup <= c.now && ToldShort(Seen(s, c), c, m)
    ensures Checked(s, c).0 == Verdict(true, Some(m))
    ensures Retried(s, c, Keeping(c, m), m).limited
  {
    ToldOldest(s, c);
    SeenIsOrderly(s, c);
    RefusedEntry(s, c);
    KeptForRetry(Checked(s, c).1, c, Seen(s, c), m);
    AdmittedFrom(Seen(s, c), c, m);
    OwnEntry(After(Checked(s, c).1, Keeping(c, m)), RetryAt(c, m));
  }

  lemma {:induction false} ToldAndRefused(vs: seq<Verdict>, n: nat, first: Verdict, last: Verdict, m: nat)
    requires FirstAndLast(vs, n, first, last) && first == Verdict(true, Some(m)) && last.limited
    ensures RefusedAgain(vs, n, m)
  {
  }

  /** Where more than `limit` admissions are in force, the one that must leave is not the
      oldest; if it leaves in a later second, the retry comes too soon. */
  lemma {:induction false} ShortWaitIsTooShort(before: seq<Call>, c: Call, m: nat, startedAt: int)
    requires InOrder(before + [c], startedAt) && ToldShort(SeenBy(before, c, startedAt), c, m)
    ensures RefusedAgain(Answers(before, c, Keeping(c, m), m, startedAt), |before|, m)
  {
    CallIsInOrder(before, c, startedAt);
    var s := After(State(map[], startedAt), before);
    RefusedAfterWait(s, c, m);
    RetryVerdicts(before, c, Keeping(c, m), m, startedAt);
    ToldAndRefused(Answers(before, c, Keeping(c, m), m, startedAt), |before|, Checked(s, c).0,
                   Retried(s, c, Keeping(c, m), m), m);
  }

  /** With no positive limit there is no second from which a retry is admitted. */
  lemma {:induction false} NoLimitIsNeverExact(before: seq<Call>, c: Call, startedAt: int) returns (m: nat)
    requires InOrder(before + [c], startedAt) && c.limit < 1
    ensures !RetryExact(Answers(before, c, [], m, startedAt), |before|, m)
  {
    var s := After(State(map[], startedAt), before);
    var told := Checked(s, c).0.retryAfter;
    m := if told.Some? && told.value > 0 then told.value else 0;
    RetryVerdicts(before, c, [], m, startedAt);
    OwnEntry(s, c);
    OwnEntry(Checked(s, c).1, RetryAt(c, m));
  }

  lemma {:induction false} NotExact(before: seq<Call>, c: Call, others: seq<Call>, m: nat, startedAt: int)
    requires InOrder(RetryRun(before, c, others, m), startedAt) && OthersOnly(others, c.key)
    requires !RetryExact(Answers(before, c, others, m, startedAt), |before|, m)
    ensures !RetryIsExact(before, c, startedAt)
  {
  }

  lemma {:induction false} LongWaitIsNotExact(before: seq<Call>, c: Call, startedAt: int)
    requires InOrder(before + [c], startedAt) && 1 <= c.limit <= |SeenBy(before, c, startedAt)|
    requires Wait(SeenBy(before, c, startedAt), 0, c) > PRUNED_AFTER_S
    ensures !RetryIsExact(before, c, startedAt)
  {
    LongWaitIsTooLong(before, c, startedAt);
    RetryRunInOrder(before, c, [], PRUNED_AFTER_S, startedAt);
    NotExact(before, c, [], PRUNED_AFTER_S, startedAt);
  }

  lemma {:induction false} ShortWaitIsNotExact(before: seq<Call>, c: Call, m: nat, startedAt: int)
    requires InOrder(before + [c], startedAt) && ToldShort(SeenBy(before, c, startedAt), c, m)
    ensures !RetryIsExact(before, c, startedAt)
  {
    ShortWaitIsTooShort(before, c, m, startedAt);
    KeepingIsOther(c, m);
    RetryRunInOrder(before, c, Keeping(c, m), m, startedAt);
    NotExact(before, c, Keeping(c, m), m, startedAt);
  }

  lemma {:induction false} NoLimitIsNeverRight(before: seq<Call>, c: Call, startedAt: int)
    requires InOrder(before + [c], startedAt) && c.limit < 1
    ensures !RetryIsExact(before, c, startedAt)
  {
    var m := NoLimitIsNeverExact(before, c, startedAt);
    RetryRunInOrder(before, c, [], m, startedAt);
    NotExact(before, c, [], m, startedAt);
  }

  lemma {:induction false} FirstWait(before: seq<Call>, c: Call, startedAt: int)
    requires InOrder(before + [c], startedAt) && 1 <= c.limit <= |SeenBy(before, c, startedAt)|
    ensures var seen := SeenBy(before, c, startedAt);
            1 <= Wait(seen, 0, c) <= Wait(seen, |seen| - c.limit, c)
  {
    var s := After(State(map[], startedAt), before);
    CallIsInOrder(before, c, startedAt);
    SeenIsOrderly(s, c);
    ToldOldest(s, c);
    WaitsGrow(Seen(s, c), |Seen(s, c)| - c.limit, c);
  }

  lemma {:induction false} WrongIsNotExact(before: seq<Call>, c: Call, startedAt: int)
    requires InOrder(before + [c], startedAt) && !ToldRight(SeenBy(before, c, startedAt), c)
    ensures !RetryIsExact(before, c, startedAt)
  {
    if c.limit < 1 {
      NoLimitIsNeverRight(before, c, startedAt);
    } else {
      FirstWait(before, c, startedAt);
      if Wait(SeenBy(before, c, startedAt), 0, c) > PRUNED_AFTER_S {
        LongWaitIsNotExact(before, c, startedAt);
      } else {
        ShortWaitIsNotExact(before, c, Wait(SeenBy(before, c, startedAt), 0, c), startedAt);
      }
    }
  }

  /** For any call of any run, whatever settings its key and the others have been called
      with: what it is told is exact, over everything other keys may do and every later
      second, exactly if it is admitted, or told when the last admission that must leave
      does, and no more than 121 seconds. */
  lemma {:induction false} RetryIsExactIff(before: seq<Call>, c: Call, startedAt: int)
    requires InOrder(before + [c], startedAt)
    ensures RetryIsExact(before, c, startedAt) <==> ToldRight(SeenBy(before, c, startedAt), c)
  {
    if ToldRight(SeenBy(before, c, startedAt), c) {
      forall others: seq<Call>, m: nat |
        InOrder(RetryRun(before, c, others, m), startedAt) && OthersOnly(others, c.key)
        ensures RetryExact(Answers(before, c, others, m, startedAt), |before|, m)
      {
        RightIsExact(before, c, others, m, startedAt);
      }
    } else {
      WrongIsNotExact(before, c, startedAt);
    }
  }

  // ---- Which settings are told right --------------------------------------------------------

  function SettingOf(c: Call): Setting {
    Setting(c.limit, c.windowMs)
  }

  /** On a key called with these settings only, a call with this one is told right. */
  ghost predicate AlwaysExact(settings: set<Setting>, g: Setting) {
    forall before: seq<Call>, c: Call, startedAt |
      InOrder(before + [c], startedAt) && Uses(before + [c], c.key, settings) && SettingOf(c) == g ::
      RetryIsExact(before, c, startedAt)
  }

  const LONGEST_TOLD_MS := 1000 * PRUNED_AFTER_S

  /** No larger limit shares the key, unless its window has no length to speak of; and the
      window is at most 121 seconds. A window of at most one second is always told right. */
  predicate Reliable(settings: set<Setting>, g: Setting) {
    g.limit >= 1 &&
    (g.windowMs <= 1000 ||
     (g.windowMs <= LONGEST_TOLD_MS && forall h | h in settings && h.limit > g.limit :: h.windowMs <= 1))
  }

  predicate Flat(ts: seq<int>) {
    forall i, j :: 0 <= i < |ts| && 0 <= j < |ts| ==> ts[i] == ts[j]
  }

  /** No more than the limit, or all admitted in the same millisecond. */
  predicate Few(ts: seq<int>, limit: int) {
    |ts| <= limit || Flat(ts)
  }

  lemma {:induction false} FewStaysFew(ts: seq<int>, start: int, limit: int, now: int)
    requires Few(ts, limit) && OrderlyUntil(ts, now)
    ensures Few(Newer(ts, start), limit)
  {
    NewerIsOrderly(ts, start, now);
    NewerMembers(ts, start, now);
    var kept := Newer(ts, start);
    if |ts| > limit {
      forall i, j | 0 <= i < |kept| && 0 <= j < |kept| ensures kept[i] == kept[j] {
        assert kept[i] in ts && kept[j] in ts;
      }
    }
  }

  lemma {:induction false} CallKeepsFew(s: State, c: Call, limit: int)
    requires OrderlyUntil(Timestamps(s, c.key), c.now) && Few(Timestamps(s, c.key), limit) && limit >= 1
    requires c.limit > limit ==> c.windowMs <= 1
    ensures Few(Timestamps(Checked(s, c).1, c.key), limit) && Few(Seen(s, c), limit)
  {
    FewStaysFew(Timestamps(Prune(s, c.now), c.key), c.now - c.windowMs, limit, c.now);
    SeenIsOrderly(s, c);
    OwnEntry(s, c);
    assert Seen(s, c) + [] == Seen(s, c);
  }

  ghost predicate NoLarger(settings: set<Setting>, limit: int) {
    forall h | h in settings && h.limit > limit :: h.windowMs <= 1
  }

  lemma {:induction false} RunKeepsFew(key: string, calls: seq<Call>, settings: set<Setting>, limit: int,
                                       startedAt: int)
    requires InOrder(calls, startedAt) && Uses(calls, key, settings) && NoLarger(settings, limit) && limit >= 1
    ensures Few(Timestamps(After(State(map[], startedAt), calls), key), limit)
    decreases |calls|
  {
    if calls != [] {
      var front, c := calls[..|calls| - 1], calls[|calls| - 1];
      assert calls == front + [c];
      InOrderFront(front, c, startedAt);
      UsesFront(front, c, key, settings);
      RunKeepsFew(key, front, settings, limit, startedAt);
      AfterSnoc(key, State(map[], startedAt), front, c);
      RunIsOrderly(key, front, startedAt);
      if c.key == key {
        CallKeepsFew(After(State(map[], startedAt), front), c, limit);
      } else {
        OtherCallLeaves(After(State(map[], startedAt), front), key, c);
      }
    }
  }

  lemma {:induction false} FewIsToldRight(seen: seq<int>, c: Call)
    requires c.limit >= 1 && Few(seen, c.limit) && c.windowMs <= LONGEST_TOLD_MS
    requires forall i :: 0 <= i < |seen| ==> seen[i] <= c.now
    ensures ToldRight(seen, c)
  {
  }

  lemma {:induction false} ShortIsToldRight(seen: seq<int>, c: Call)
    requires c.limit >= 1 && c.windowMs <= 1000
    requires forall i :: 0 <= i < |seen| ==> c.now - c.windowMs < seen[i] <= c.now
    ensures ToldRight(seen, c)
  {
  }

  lemma {:induction false} ReliableIsExact(settings: set<Setting>, before: seq<Call>, c: Call, startedAt: int)
    requires Reliable(settings, SettingOf(c))
    requires InOrder(before + [c], startedAt) && Uses(before + [c], c.key, settings)
    ensures RetryIsExact(before, c, startedAt)
  {
    var s := After(State(map[], startedAt), before);
    CallIsInOrder(before, c, startedAt);
    SeenIsOrderly(s, c);
    RetryIsExactIff(before, c, startedAt);
    if c.windowMs <= 1000 {
      ShortIsToldRight(Seen(s, c), c);
    } else {
      InOrderFront(before, c, startedAt);
      UsesFront(before, c, c.key, settings);
      RunKeepsFew(c.key, before, settings, c.limit, startedAt);
      CallKeepsFew(s, c, c.limit);
      FewIsToldRight(Seen(s, c), c);
    }
  }

  lemma {:induction false} NotAlwaysExact(settings: set<Setting>, g: Setting, before: seq<Call>, c: Call,
                                          startedAt: int)
    requires InOrder(before + [c], startedAt) && Uses(before + [c], c.key, settings) && SettingOf(c) == g
    requires !RetryIsExact(before, c, startedAt)
    ensures !AlwaysExact(settings, g)
  {
  }

  lemma {:induction false} FirstCallSeesNothing(c: Call, startedAt: int)
    ensures Seen(After(State(map[], startedAt), []), c) == []
  {
  }

  lemma {:induction false} OneCall(settings: set<Setting>, g: Setting)
    requires g in settings
    ensures InOrder([] + [CallAt("", g, 0)], 0) && Uses([] + [CallAt("", g, 0)], "", settings)
  {
  }

  lemma {:induction false} FirstCallIsNotExact(g: Setting)
    requires g.limit < 1
    ensures !RetryIsExact([], CallAt("", g, 0), 0)
  {
    OneCall({g}, g);
    FirstCallSeesNothing(CallAt("", g, 0), 0);
    RetryIsExactIff([], CallAt("", g, 0), 0);
  }

  lemma {:induction false} NoLimitIsNotExact(settings: set<Setting>, g: Setting)
    requires g in settings && g.limit < 1
    ensures !AlwaysExact(settings, g)
  {
    OneCall(settings, g);
    FirstCallIsNotExact(g);
    NotAlwaysExact(settings, g, [], CallAt("", g, 0), 0);
  }

  // A window of more than 121 seconds.

  function FullBurst(g: Setting): seq<Call>
    requires g.limit >= 1
  {
    Burst("", g.limit, g.windowMs, g.limit)
  }

  lemma {:induction false} BurstInOrder(g: Setting)
    requires g.limit >= 1
    ensures InOrder(FullBurst(g) + [CallAt("", g, 0)], 0)
    ensures UniformOn(FullBurst(g) + [CallAt("", g, 0)], "", g.limit, g.windowMs)
  {
  }

  lemma {:induction false} BurstIsSeen(g: Setting)
    requires g.limit >= 1 && g.windowMs > 0
    ensures SeenBy(FullBurst(g), CallAt("", g, 0), 0) == AtZero(g.limit)
  {
    BurstIsAdmitted("", g.limit, g.windowMs, g.limit);
    AllNewer(AtZero(g.limit), 0 - g.windowMs);
    assert Prune(OneKey("", AtZero(g.limit), 0, 0), 0) == OneKey("", AtZero(g.limit), 0, 0);
  }

  /** For every window of more than 121 seconds and every limit: a burst, a refused call that
      is told more than 121 seconds, and a retry after 121 that is admitted. */
  lemma {:induction false} LongWindowIsToldTooLong(g: Setting)
    requires g.limit >= 1 && g.windowMs > LONGEST_TOLD_MS
    ensures AdmittedEarly(Answers(FullBurst(g), CallAt("", g, 0), [], PRUNED_AFTER_S, 0), g.limit)
  {
    BurstInOrder(g);
    BurstIsSeen(g);
    CeilSecondsIsLeast(g.windowMs, PRUNED_AFTER_S);
    LongWaitIsTooLong(FullBurst(g), CallAt("", g, 0), 0);
  }

  lemma {:induction false} LongWindowIsNotExact(settings: set<Setting>, g: Setting)
    requires g in settings && g.limit >= 1 && g.windowMs > LONGEST_TOLD_MS
    ensures !AlwaysExact(settings, g)
  {
    BurstInOrder(g);
    BurstIsSeen(g);
    CeilSecondsIsLeast(g.windowMs, PRUNED_AFTER_S);
    RetryIsExactIff(FullBurst(g), CallAt("", g, 0), 0);
    UniformUses(FullBurst(g) + [CallAt("", g, 0)], "", g, settings);
    NotAlwaysExact(settings, g, FullBurst(g), CallAt("", g, 0), 0);
  }

  // A larger limit on the same key.

  /** One call with the larger limit at 0, and `n` more a millisecond later. */
  function Spread(larger: Setting, n: nat): seq<Call> {
    [CallAt("", larger, 0)] + seq(n, _ => CallAt("", larger, 1))
  }

  function ZeroAndOnes(n: nat): seq<int> {
    [0] + seq(n, _ => 1)
  }

  lemma {:induction false} SpreadSnoc(larger: Setting, n: nat)
    ensures Spread(larger, n + 1) == Spread(larger, n) + [CallAt("", larger, 1)]
    ensures ZeroAndOnes(n + 1) == ZeroAndOnes(n) + [1]
  {
  }

  lemma {:induction false} SpreadCall(larger: Setting, n: nat, lastSeen: int)
    requires n + 1 < larger.limit && larger.windowMs >= 2 && 0 <= lastSeen <= 1
    ensures Checked(OneKey("", ZeroAndOnes(n), lastSeen, 0), CallAt("", larger, 1))
         == (Verdict(false, Some(0)), OneKey("", ZeroAndOnes(n + 1), 1, 0))
  {
    SpreadSnoc(larger, n);
    AllNewer(ZeroAndOnes(n), 1 - larger.windowMs);
    OneKeyCall("", ZeroAndOnes(n), lastSeen, 0, CallAt("", larger, 1));
  }

  lemma {:induction false} SpreadStarts(larger: Setting)
    requires larger.limit >= 1
    ensures After(State(map[], 0), Spread(larger, 0)) == OneKey("", ZeroAndOnes(0), 0, 0)
  {
    assert Spread(larger, 0) == [CallAt("", larger, 0)];
    assert ZeroAndOnes(0) == [0];
    SoleCall("", State(map[], 0), CallAt("", larger, 0));
    NewKeyCall(0, CallAt("", larger, 0));
  }

  lemma {:induction false} SpreadIsAdmitted(larger: Setting, n: nat)
    requires n < larger.limit && larger.windowMs >= 2
    ensures After(State(map[], 0), Spread(larger, n)) == OneKey("", ZeroAndOnes(n), if n == 0 then 0 else 1, 0)
  {
    if n == 0 {
      SpreadStarts(larger);
    } else {
      SpreadIsAdmitted(larger, n - 1);
      SpreadSnoc(larger, n - 1);
      AfterSnoc("", State(map[], 0), Spread(larger, n - 1), CallAt("", larger, 1));
      SpreadCall(larger, n - 1, if n == 1 then 0 else 1);
    }
  }

  /** The whole seconds left when the first admission has just so many more to go. */
  function WholeSeconds(g: Setting): int {
    CeilSeconds(g.windowMs) - 1
  }

  function LateCallOf(g: Setting): Call {
    CallAt("", g, g.windowMs - 1000 * WholeSeconds(g))
  }

  lemma {:induction false} CallTime(g: Setting)
    requires g.windowMs > 1000
    ensures 1 <= LateCallOf(g).now <= 1000 && WholeSeconds(g) >= 1
  {
  }

  lemma {:induction false} SpreadIsSeen(larger: Setting, g: Setting)
    requires 1 <= g.limit < larger.limit && larger.windowMs >= 2 && g.windowMs > 1000
    ensures SeenBy(Spread(larger, g.limit), LateCallOf(g), 0) == ZeroAndOnes(g.limit)
  {
    var c, ts := LateCallOf(g), ZeroAndOnes(g.limit);
    CallTime(g);
    SpreadIsAdmitted(larger, g.limit);
    AllNewer(ts, c.now - g.windowMs);
    assert Prune(OneKey("", ts, 1, 0), c.now) == OneKey("", ts, 1, 0);
  }

  lemma {:induction false} SpreadInOrder(larger: Setting, g: Setting)
    requires g.limit >= 1 && g.windowMs > 1000
    ensures InOrder(Spread(larger, g.limit) + [LateCallOf(g)], 0)
  {
    var calls := Spread(larger, g.limit) + [LateCallOf(g)];
    CallTime(g);
    forall i | 0 <= i < |calls|
      ensures calls[i].now == if i == 0 then 0 else if i < |calls| - 1 then 1 else LateCallOf(g).now
    {
    }
  }

  lemma {:induction false} SpreadWaits(g: Setting)
    requires g.limit >= 1 && g.windowMs > 1000
    ensures Wait(ZeroAndOnes(g.limit), 0, LateCallOf(g)) == WholeSeconds(g)
    ensures Wait(ZeroAndOnes(g.limit), 1, LateCallOf(g)) == WholeSeconds(g) + 1
  {
  }

  /** For every limit, every larger one with any window to speak of, and every window of more
      than a second and at most 121: a run in which a call with the smaller limit is refused,
      told some seconds, and refused again after them. */
  lemma {:induction false} LargerLimitIsToldTooLittle(larger: Setting, g: Setting)
    requires 1 <= g.limit < larger.limit && larger.windowMs >= 2 && 1000 < g.windowMs <= LONGEST_TOLD_MS
    ensures 1 <= WholeSeconds(g) <= 120
    ensures RefusedAgain(Answers(Spread(larger, g.limit), LateCallOf(g), [], WholeSeconds(g), 0), g.limit + 1,
                         WholeSeconds(g))
  {
    CallTime(g);
    SpreadInOrder(larger, g);
    SpreadIsSeen(larger, g);
    SpreadWaits(g);
    ShortWaitIsTooShort(Spread(larger, g.limit), LateCallOf(g), WholeSeconds(g), 0);
  }

  lemma {:induction false} SpreadUses(larger: Setting, g: Setting, settings: set<Setting>)
    requires larger in settings && g in settings && g.limit >= 1
    ensures Uses(Spread(larger, g.limit) + [LateCallOf(g)], "", settings)
  {
  }

  lemma {:induction false} LargerLimitIsNotExact(settings: set<Setting>, larger: Setting, g: Setting)
    requires larger in settings && g in settings && g.windowMs > 1000
    requires 1 <= g.limit < larger.limit && larger.windowMs >= 2
    ensures !AlwaysExact(settings, g)
  {
    SpreadInOrder(larger, g);
    SpreadIsSeen(larger, g);
    SpreadWaits(g);
    SpreadUses(larger, g, settings);
    RetryIsExactIff(Spread(larger, g.limit), LateCallOf(g), 0);
    NotAlwaysExact(settings, g, Spread(larger, g.limit), LateCallOf(g), 0);
  }

  /** Exactly which settings are told right, over every run that calls a key with these
      settings and other keys with any: a positive limit, and a window of at most a second,
      or of at most 121 beside no larger limit. */
  lemma {:induction false} AlwaysExactIff(settings: set<Setting>, g: Setting)
    requires g in settings
    ensures AlwaysExact(settings, g) <==> Reliable(settings, g)
  {
    if Reliable(settings, g) {
      forall before: seq<Call>, c: Call, startedAt |
        InOrder(before + [c], startedAt) && Uses(before + [c], c.key, settings) && SettingOf(c) == g
        ensures RetryIsExact(before, c, startedAt)
      {
        ReliableIsExact(settings, before, c, startedAt);
      }
    } else if g.limit < 1 {
      NoLimitIsNotExact(settings, g);
    } else if g.windowMs > LONGEST_TOLD_MS {
      LongWindowIsNotExact(settings, g);
    } else {
      var h :| h in settings && h.limit > g.limit && h.windowMs > 1;
      LargerLimitIsNotExact(settings, h, g);
    }
  }

  /** So a key that is always called with one setting is told right exactly for windows of
      at most 121 seconds. */
  lemma {:induction false} OneSettingIsExactIff(g: Setting)
    requires g.limit >= 1
    ensures AlwaysExact({g}, g) <==> g.windowMs <= LONGEST_TOLD_MS
  {
    AlwaysExactIff({g}, g);
  }
}
