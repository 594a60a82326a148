/** The pruned limiter against the ideal one that remembers every admitted call. */
module RateLimitTheorems {
  import opened Wrappers
  import opened RateLimit

  datatype Call = Call(key: string, limit: int, windowMs: int, now: int)

  // ---- The ideal limiter --------------------------------------------------------------

  /** Admission times of every call ever admitted, per key, oldest first. */
  type History = map<string, seq<int>>

  function Admitted(h: History, key: string): seq<int> {
    if key in h then h[key] else []
  }

  function IdealCheck(h: History, c: Call): (Verdict, History) {
    var v := Decide(Newer(Admitted(h, c.key), c.now - c.windowMs), c.limit, c.windowMs, c.now);
    (v, if v.limited then h else h[c.key := Admitted(h, c.key) + [c.now]])
  }

  function Verdicts(s: State, calls: seq<Call>): seq<Verdict>
    decreases |calls|
  {
    if calls == [] then []
    else
      var (v, t) := Check(s, calls[0].key, calls[0].limit, calls[0].windowMs, calls[0].now);
      [v] + Verdicts(t, calls[1..])
  }

  function IdealVerdicts(h: History, calls: seq<Call>): seq<Verdict>
    decreases |calls|
  {
    if calls == [] then []
    else
      var (v, g) := IdealCheck(h, calls[0]);
      [v] + IdealVerdicts(g, calls[1..])
  }

  function IdealHistory(h: History, calls: seq<Call>): History
    decreases |calls|
  {
    if calls == [] then h else IdealHistory(IdealCheck(h, calls[0]).1, calls[1..])
  }

  // ---- Filtering by time --------------------------------------------------------------

  lemma Assoc<T>(a: seq<T>, b: seq<T>, c: seq<T>)
    ensures a + b + c == a + (b + c)
  {
  }

  lemma NewerCons(t: int, ts: seq<int>, start: int)
    ensures Newer([t] + ts, start) == (if t > start then [t] else []) + Newer(ts, start)
  {
    assert ([t] + ts)[1..] == ts;
  }

  lemma {:induction false} NewerConcat(a: seq<int>, b: seq<int>, start: int)
    ensures Newer(a + b, start) == Newer(a, start) + Newer(b, start)
  {
    if a == [] {
      assert a + b == b;
    } else {
      var rest := a[1..];
      NewerConcat(rest, b, start);
      assert a == [a[0]] + rest;
      Assoc([a[0]], rest, b);
      NewerCons(a[0], rest + b, start);
      NewerCons(a[0], rest, start);
      Assoc(if a[0] > start then [a[0]] else [], Newer(rest, start), Newer(b, start));
    }
  }

  lemma {:induction false} NewerTwice(ts: seq<int>, early: int, late: int)
    requires early <= late
    ensures Newer(Newer(ts, early), late) == Newer(ts, late)
  {
    if ts != [] {
      NewerTwice(ts[1..], early, late);
      NewerConcat(if ts[0] > early then [ts[0]] else [], Newer(ts[1..], early), late);
    }
  }

  ghost predicate NotAfter(ts: seq<int>, bound: int) {
    forall i :: 0 <= i < |ts| ==> ts[i] <= bound
  }

  lemma {:induction false} NoneNewer(ts: seq<int>, start: int)
    requires NotAfter(ts, start)
    ensures Newer(ts, start) == []
  {
    if ts != [] { NoneNewer(ts[1..], start); }
  }

  lemma {:induction false} NewerMembers(ts: seq<int>, start: int, bound: int)
    requires NotAfter(ts, bound)
    ensures NotAfter(Newer(ts, start), bound)
    ensures forall i :: 0 <= i < |Newer(ts, start)| ==> Newer(ts, start)[i] > start
    ensures |Newer(ts, start)| <= |ts|
  {
    if ts != [] { NewerMembers(ts[1..], start, bound); }
  }

  // ---- Refinement ---------------------------------------------------------------------

  /** Up to what has left the window, the store knows of the key what the full history knows. */
  ghost predicate Agree(s: State, h: History, key: string, windowMs: int, now: int) {
    Newer(Timestamps(s, key), now - windowMs) == Newer(Admitted(h, key), now - windowMs)
  }

  /** An entry was last seen no earlier than its last admission, and not in the future. */
  ghost predicate WellTimed(s: State, now: int) {
    forall k :: k in s.store ==> NotAfter(s.store[k].timestamps, s.store[k].lastSeen) && s.store[k].lastSeen <= now
  }

  lemma NewerLater(a: seq<int>, b: seq<int>, early: int, late: int)
    requires early <= late && Newer(a, early) == Newer(b, early)
    ensures Newer(a, late) == Newer(b, late)
  {
    NewerTwice(a, early, late);
    NewerTwice(b, early, late);
  }

  /** Pruning forgets only what the window has already forgotten, provided it is no longer
      than the idle cutoff plus one millisecond. */
  lemma AgreePruned(s: State, h: History, key: string, windowMs: int, now: int)
    requires Agree(s, h, key, windowMs, now) && WellTimed(s, now) && windowMs <= IDLE_CUTOFF_MS + 1
    ensures Agree(Prune(s, now), h, key, windowMs, now) && WellTimed(Prune(s, now), now)
  {
    if key in s.store && key !in Prune(s, now).store {
      assert NotAfter(s.store[key].timestamps, s.store[key].lastSeen);
      NoneNewer(Timestamps(s, key), now - windowMs);
    }
  }

  lemma TimestampsAreOld(s: State, key: string, now: int)
    requires WellTimed(s, now)
    ensures NotAfter(Timestamps(s, key), now)
  {
    if key in s.store { assert NotAfter(s.store[key].timestamps, s.store[key].lastSeen); }
  }

  function Checked(s: State, c: Call): (Verdict, State) {
    Check(s, c.key, c.limit, c.windowMs, c.now)
  }

  lemma StepStaysWellTimed(s: State, c: Call)
    requires WellTimed(s, c.now)
    ensures WellTimed(Checked(s, c).1, c.now)
  {
    var p := Prune(s, c.now);
    var t := Checked(s, c).1;
    TimestampsAreOld(p, c.key, c.now);
    NewerMembers(Timestamps(p, c.key), c.now - c.windowMs, c.now);
    forall k | k in t.store
      ensures NotAfter(t.store[k].timestamps, t.store[k].lastSeen) && t.store[k].lastSeen <= c.now
    {
      if k != c.key { assert t.store[k] == p.store[k]; }
    }
  }

  /** What a call finds in force for its key. */
  function Seen(s: State, c: Call): seq<int> {
    Newer(Timestamps(Prune(s, c.now), c.key), c.now - c.windowMs)
  }

  lemma {:induction false} OwnEntry(s: State, c: Call)
    ensures Checked(s, c).0 == Decide(Seen(s, c), c.limit, c.windowMs, c.now)
    ensures Timestamps(Checked(s, c).1, c.key) == Seen(s, c) + if Checked(s, c).0.limited then [] else [c.now]
  {
    assert Seen(s, c) + [] == Seen(s, c);
  }

  lemma {:induction false} OwnHistory(h: History, c: Call)
    ensures var limited := IdealCheck(h, c).0.limited;
            Admitted(IdealCheck(h, c).1, c.key) == Admitted(h, c.key) + if limited then [] else [c.now]
  {
    assert Admitted(h, c.key) + [] == Admitted(h, c.key);
  }

  lemma {:induction false} OwnCallRefines(s: State, h: History, c: Call)
    requires Agree(Prune(s, c.now), h, c.key, c.windowMs, c.now)
    ensures Checked(s, c).0 == IdealCheck(h, c).0
    ensures Agree(Checked(s, c).1, IdealCheck(h, c).1, c.key, c.windowMs, c.now)
  {
    var start, added := c.now - c.windowMs, if Checked(s, c).0.limited then [] else [c.now];
    OwnEntry(s, c);
    OwnHistory(h, c);
    NewerTwice(Timestamps(Prune(s, c.now), c.key), start, start);
    NewerConcat(Seen(s, c), added, start);
    NewerConcat(Admitted(h, c.key), added, start);
  }

  lemma {:induction false} OtherCallRefines(s: State, h: History, key: string, windowMs: int, c: Call)
    requires Agree(Prune(s, c.now), h, key, windowMs, c.now) && c.key != key
    ensures Agree(Checked(s, c).1, IdealCheck(h, c).1, key, windowMs, c.now)
  {
    assert Timestamps(Checked(s, c).1, key) == Timestamps(Prune(s, c.now), key);
    assert Admitted(IdealCheck(h, c).1, key) == Admitted(h, key);
  }

  /** One call: the same verdict if it is on the key, and the store keeps up with the history. */
  lemma {:induction false} StepRefines(s: State, h: History, key: string, windowMs: int, c: Call)
    requires Agree(s, h, key, windowMs, c.now) && WellTimed(s, c.now) && windowMs <= IDLE_CUTOFF_MS + 1
    requires c.key == key ==> c.windowMs == windowMs
    ensures c.key == key ==> Checked(s, c).0 == IdealCheck(h, c).0
    ensures Agree(Checked(s, c).1, IdealCheck(h, c).1, key, windowMs, c.now)
  {
    AgreePruned(s, h, key, windowMs, c.now);
    if c.key == key {
      OwnCallRefines(s, h, c);
    } else {
      OtherCallRefines(s, h, key, windowMs, c);
    }
  }

  /** Calls in clock order, starting no earlier than `from`. */
  ghost predicate InOrder(calls: seq<Call>, from: int) {
    && (forall i :: 0 <= i < |calls| ==> from <= calls[i].now)
    && (forall i, j :: 0 <= i < j < |calls| ==> calls[i].now <= calls[j].now)
  }

  /** Every call on `key` asks for this window. */
  ghost predicate FixedWindow(calls: seq<Call>, key: string, windowMs: int) {
    forall i :: 0 <= i < |calls| && calls[i].key == key ==> calls[i].windowMs == windowMs
  }

  /** The calls on `key` are answered alike. */
  ghost predicate SameOn(calls: seq<Call>, key: string, vs: seq<Verdict>, ws: seq<Verdict>) {
    |vs| == |calls| == |ws| && forall i :: 0 <= i < |calls| && calls[i].key == key ==> vs[i] == ws[i]
  }

  lemma {:induction false} TailInOrder(calls: seq<Call>, from: int)
    requires calls != [] && InOrder(calls, from)
    ensures from <= calls[0].now && InOrder(calls[1..], calls[0].now)
  {
  }

  lemma {:induction false} RunRefines(s: State, h: History, key: string, windowMs: int, calls: seq<Call>, from: int)
    requires Agree(s, h, key, windowMs, from) && WellTimed(s, from) && windowMs <= IDLE_CUTOFF_MS + 1
    requires InOrder(calls, from) && FixedWindow(calls, key, windowMs)
    ensures SameOn(calls, key, Verdicts(s, calls), IdealVerdicts(h, calls))
    decreases |calls|
  {
    if calls != [] {
      var c := calls[0];
      TailInOrder(calls, from);
      NewerLater(Timestamps(s, key), Admitted(h, key), from - windowMs, c.now - windowMs);
      StepRefines(s, h, key, windowMs, c);
      StepStaysWellTimed(s, c);
      RunRefines(Checked(s, c).1, IdealCheck(h, c).1, key, windowMs, calls[1..], c.now);
      FirstIsTheSame(s, h, key, calls);
    }
  }

  lemma {:induction false} FirstIsTheSame(s: State, h: History, key: string, calls: seq<Call>)
    requires calls != [] && (calls[0].key == key ==> Checked(s, calls[0]).0 == IdealCheck(h, calls[0]).0)
    requires SameOn(calls[1..], key, Verdicts(Checked(s, calls[0]).1, calls[1..]),
                    IdealVerdicts(IdealCheck(h, calls[0]).1, calls[1..]))
    ensures SameOn(calls, key, Verdicts(s, calls), IdealVerdicts(h, calls))
  {
    var c, rest := calls[0], calls[1..];
    SameOnCons(key, c, rest, Checked(s, c).0, IdealCheck(h, c).0,
               Verdicts(Checked(s, c).1, rest), IdealVerdicts(IdealCheck(h, c).1, rest));
    assert calls == [c] + rest;
  }

  lemma {:induction false} SameOnCons(key: string, c: Call, rest: seq<Call>, v: Verdict, w: Verdict, vs: seq<Verdict>,
                                      ws: seq<Verdict>)
    requires SameOn(rest, key, vs, ws) && (c.key == key ==> v == w)
    ensures SameOn([c] + rest, key, [v] + vs, [w] + ws)
  {
  }

  /** The pruned limiter answers the calls on a key, in every run, exactly as the limiter that
      forgets nothing: the key keeps one window of at most 120001 ms, its limit may change
      from call to call, and other keys call as they like. */
  lemma PrunedLimiterIsIdeal(calls: seq<Call>, startedAt: int, key: string, windowMs: int)
    requires windowMs <= IDLE_CUTOFF_MS + 1 && InOrder(calls, startedAt) && FixedWindow(calls, key, windowMs)
    ensures SameOn(calls, key, Verdicts(State(map[], startedAt), calls), IdealVerdicts(map[], calls))
  {
    RunRefines(State(map[], startedAt), map[], key, windowMs, calls, startedAt);
  }

  /** And if every key keeps such a window, every call. */
  lemma {:induction false} EveryVerdictIsIdeal(window: string -> int, calls: seq<Call>, startedAt: int)
    requires InOrder(calls, startedAt)
    requires forall key :: window(key) <= IDLE_CUTOFF_MS + 1 && FixedWindow(calls, key, window(key))
    ensures Verdicts(State(map[], startedAt), calls) == IdealVerdicts(map[], calls)
  {
    var vs, ws := Verdicts(State(map[], startedAt), calls), IdealVerdicts(map[], calls);
    PrunedLimiterIsIdeal(calls, startedAt, "", window(""));
    forall i | 0 <= i < |calls| ensures vs[i] == ws[i] {
      PrunedLimiterIsIdeal(calls, startedAt, calls[i].key, window(calls[i].key));
    }
  }

  lemma {:induction false} AllNewer(ts: seq<int>, start: int)
    requires forall i :: 0 <= i < |ts| ==> ts[i] > start
    ensures Newer(ts, start) == ts
  {
    if ts != [] { AllNewer(ts[1..], start); }
  }

  // ---- No burst exceeds the limit ---------------------------------------------------

  function Between(ts: seq<int>, after: int, upTo: int): seq<int> {
    if ts == [] then []
    else Between(ts[..|ts| - 1], after, upTo) + if after < ts[|ts| - 1] <= upTo then [ts[|ts| - 1]] else []
  }

  /** Each admission found fewer than `limit` admissions in the window before it. */
  ghost predicate EachWithinLimit(ts: seq<int>, limit: int, windowMs: int) {
    ts != [] ==>
      var front, last := ts[..|ts| - 1], ts[|ts| - 1];
      EachWithinLimit(front, limit, windowMs) && |Newer(front, last - windowMs)| < limit && NotAfter(front, last)
  }

  lemma {:induction false} BetweenIsNewer(ts: seq<int>, after: int, upTo: int)
    requires NotAfter(ts, upTo)
    ensures Between(ts, after, upTo) == Newer(ts, after)
  {
    if ts != [] {
      var front := ts[..|ts| - 1];
      BetweenIsNewer(front, after, upTo);
      assert ts == front + [ts[|ts| - 1]];
      NewerConcat(front, [ts[|ts| - 1]], after);
    }
  }

  lemma {:induction false} NewerShrinks(ts: seq<int>, early: int, late: int)
    requires early <= late
    ensures |Newer(ts, late)| <= |Newer(ts, early)|
  {
    if ts != [] { NewerShrinks(ts[1..], early, late); }
  }

  lemma {:induction false} WindowHoldsAtMostLimit(ts: seq<int>, limit: int, windowMs: int, a: int)
    requires EachWithinLimit(ts, limit, windowMs) && limit >= 0
    ensures |Between(ts, a, a + windowMs)| <= limit
  {
    if ts != [] {
      var front, last := ts[..|ts| - 1], ts[|ts| - 1];
      WindowHoldsAtMostLimit(front, limit, windowMs, a);
      if a < last <= a + windowMs {
        BetweenIsNewer(front, a, a + windowMs);
        NewerShrinks(front, last - windowMs, a);
      }
    }
  }

  /** Every call on `key` asks for this limit and window; other keys ask for any. */
  ghost predicate UniformOn(calls: seq<Call>, key: string, limit: int, windowMs: int) {
    forall i :: 0 <= i < |calls| && calls[i].key == key ==> calls[i].limit == limit && calls[i].windowMs == windowMs
  }

  lemma {:induction false} WithinLimitSnoc(ts: seq<int>, limit: int, windowMs: int, now: int)
    requires EachWithinLimit(ts, limit, windowMs) && NotAfter(ts, now) && |Newer(ts, now - windowMs)| < limit
    ensures EachWithinLimit(ts + [now], limit, windowMs)
  {
    assert (ts + [now])[..|ts|] == ts;
  }

  lemma {:induction false} StepStaysWithinLimit(h: History, key: string, limit: int, windowMs: int, c: Call)
    requires EachWithinLimit(Admitted(h, key), limit, windowMs) && NotAfter(Admitted(h, key), c.now)
    requires c.key == key ==> c.limit == limit && c.windowMs == windowMs
    ensures EachWithinLimit(Admitted(IdealCheck(h, c).1, key), limit, windowMs)
    ensures NotAfter(Admitted(IdealCheck(h, c).1, key), c.now)
  {
    if c.key == key && !IdealCheck(h, c).0.limited { WithinLimitSnoc(Admitted(h, key), limit, windowMs, c.now); }
  }

  lemma {:induction false} HistoryStaysWithinLimit(
      h: History, key: string, limit: int, windowMs: int, calls: seq<Call>, from: int)
    requires EachWithinLimit(Admitted(h, key), limit, windowMs) && NotAfter(Admitted(h, key), from)
    requires InOrder(calls, from) && UniformOn(calls, key, limit, windowMs)
    ensures EachWithinLimit(Admitted(IdealHistory(h, calls), key), limit, windowMs)
    decreases |calls|
  {
    if calls != [] {
      TailInOrder(calls, from);
      StepStaysWithinLimit(h, key, limit, windowMs, calls[0]);
      HistoryStaysWithinLimit(IdealCheck(h, calls[0]).1, key, limit, windowMs, calls[1..], calls[0].now);
    }
  }

  /** When each call on `key` was admitted, read off the verdicts. */
  function AdmissionTimes(key: string, calls: seq<Call>, verdicts: seq<Verdict>): seq<int>
    requires |calls| == |verdicts|
  {
    if calls == [] then []
    else (if calls[0].key == key && !verdicts[0].limited then [calls[0].now] else [])
         + AdmissionTimes(key, calls[1..], verdicts[1..])
  }

  lemma {:induction false} OneVerdictPerCall(s: State, calls: seq<Call>)
    ensures |Verdicts(s, calls)| == |calls|
    decreases |calls|
  {
    if calls != [] { OneVerdictPerCall(Checked(s, calls[0]).1, calls[1..]); }
  }

  lemma {:induction false} HistoryIsAdmissionTimes(h: History, calls: seq<Call>, key: string)
    ensures |IdealVerdicts(h, calls)| == |calls|
    ensures Admitted(IdealHistory(h, calls), key)
            == Admitted(h, key) + AdmissionTimes(key, calls, IdealVerdicts(h, calls))
    decreases |calls|
  {
    if calls != [] {
      HistoryIsAdmissionTimes(IdealCheck(h, calls[0]).1, calls[1..], key);
    }
  }

  lemma {:induction false} SameAdmissionTimes(key: string, calls: seq<Call>, vs: seq<Verdict>, ws: seq<Verdict>)
    requires SameOn(calls, key, vs, ws)
    ensures AdmissionTimes(key, calls, vs) == AdmissionTimes(key, calls, ws)
  {
    if calls != [] { SameAdmissionTimes(key, calls[1..], vs[1..], ws[1..]); }
  }

  /** The ideal limiter: any interval of one window length holds at most `limit` admitted
      calls of a key, for windows of any length. */
  lemma IdealNeverExceedsLimit(calls: seq<Call>, startedAt: int, key: string, limit: int, windowMs: int, a: int)
    requires InOrder(calls, startedAt) && UniformOn(calls, key, limit, windowMs) && limit >= 0
    ensures |IdealVerdicts(map[], calls)| == |calls|
    ensures |Between(AdmissionTimes(key, calls, IdealVerdicts(map[], calls)), a, a + windowMs)| <= limit
  {
    HistoryIsAdmissionTimes(map[], calls, key);
    var times := AdmissionTimes(key, calls, IdealVerdicts(map[], calls));
    assert [] + times == times;
    HistoryStaysWithinLimit(map[], key, limit, windowMs, calls, startedAt);
    WindowHoldsAtMostLimit(Admitted(IdealHistory(map[], calls), key), limit, windowMs, a);
  }

  /** The limiter as it runs does the same while the key's window fits, whatever limits and
      windows other keys are called with. */
  lemma NoBurstExceedsLimit(calls: seq<Call>, startedAt: int, key: string, limit: int, windowMs: int, a: int)
    requires windowMs <= IDLE_CUTOFF_MS + 1 && InOrder(calls, startedAt)
    requires UniformOn(calls, key, limit, windowMs) && limit >= 0
    ensures |Verdicts(State(map[], startedAt), calls)| == |calls|
    ensures |Between(AdmissionTimes(key, calls, Verdicts(State(map[], startedAt), calls)), a, a + windowMs)| <= limit
  {
    PrunedLimiterIsIdeal(calls, startedAt, key, windowMs);
    SameAdmissionTimes(key, calls, Verdicts(State(map[], startedAt), calls), IdealVerdicts(map[], calls));
    IdealNeverExceedsLimit(calls, startedAt, key, limit, windowMs, a);
  }
}
