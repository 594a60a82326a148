/** Where every configuration handed to a caller comes from, over all runs. */
module ChainConfigTheorems {
  import opened Wrappers
  import opened ChainConfig

  // ---- Cache keys ---------------------------------------------------------------------

  /** `a` continues `b` with a colon. */
  predicate Extends(a: string, b: string) {
    |a| > |b| && a[..|b|] == b && a[|b|] == ':'
  }

  lemma LongerExtends(e1: string, s1: string, e2: string, s2: string)
    requires CacheKey(e1, Some(s1)) == CacheKey(e2, Some(s2)) && |e1| > |e2|
    ensures Extends(e1, e2)
  {
    var k := CacheKey(e1, Some(s1));
    assert k[..|e1|] == e1 && k[..|e2|] == e2 && k[|e2|] == ':';
    assert e1[..|e2|] == k[..|e1|][..|e2|];
  }

  lemma CacheKeyIdentifies(e1: string, s1: string, e2: string, s2: string)
    requires CacheKey(e1, Some(s1)) == CacheKey(e2, Some(s2)) && !Extends(e1, e2) && !Extends(e2, e1)
    ensures e1 == e2 && s1 == s2
  {
    var k := CacheKey(e1, Some(s1));
    if |e1| > |e2| { LongerExtends(e1, s1, e2, s2); }
    if |e2| > |e1| { LongerExtends(e2, s2, e1, s1); }
    assert k[..|e1|] == e1 && k[..|e2|] == e2;
    assert k[|e1| + 1..] == s1 && k[|e2| + 1..] == s2;
  }

  ghost predicate ShareAKey(e1: string, e2: string) {
    exists s1, s2 :: CacheKey(e1, Some(s1)) == CacheKey(e2, Some(s2))
  }

  lemma ExtensionSharesAKey(e1: string, e2: string, s1: string) returns (s2: string)
    requires Extends(e1, e2)
    ensures CacheKey(e1, Some(s1)) == CacheKey(e2, Some(s2))
  {
    s2 := e1[|e2| + 1..] + ":" + s1;
    assert e1 == e2 + ":" + e1[|e2| + 1..];
  }

  /** Two event types have a cache key in common exactly when one continues the other
      with a colon; so never, for event types without colons. */
  lemma KeysCollideIff(e1: string, e2: string)
    requires e1 != e2
    ensures ShareAKey(e1, e2) <==> Extends(e1, e2) || Extends(e2, e1)
  {
    if ShareAKey(e1, e2) {
      var s1, s2 :| CacheKey(e1, Some(s1)) == CacheKey(e2, Some(s2));
      if !Extends(e1, e2) && !Extends(e2, e1) { CacheKeyIdentifies(e1, s1, e2, s2); }
    }
    if Extends(e1, e2) { var s2 := ExtensionSharesAKey(e1, e2, []); }
    if Extends(e2, e1) { var s1 := ExtensionSharesAKey(e2, e1, []); }
  }

  // ---- Runs ---------------------------------------------------------------------------

  ghost predicate IsRun(h: seq<State>, es: seq<Event>) {
    && |h| == |es| + 1
    && h[0].cache == map[] && h[0].inFlight == map[] && h[0].returned == None
    && (forall i :: 0 <= i < |es| ==> Enabled(h[i], es[i]) && h[i + 1] == Step(h[i], es[i]))
  }

  ghost predicate CallsOnly(es: seq<Event>, types: set<string>) {
    forall i :: 0 <= i < |es| && es[i].Call? ==> es[i].eventType in types
  }

  /** No fetch is in flight for longer than this. */
  ghost predicate Prompt(h: seq<State>, ms: int) {
    forall i, id :: 0 <= i < |h| && id in h[i].inFlight ==> h[i].now - h[i].inFlight[id].startedAt <= ms
  }

  function Last(h: seq<State>): State
    requires h != []
  {
    h[|h| - 1]
  }

  /** The fetch that produced a configuration: its handle, what it was for, and the steps of
      the run at which it was called, its first and its last query ran, and its result was
      stored. They are the same query where the first one failed or hit. */
  datatype Origin = Origin(id: nat, eventType: string, scope: string,
                           calledAt: nat, scopedAt: nat, defaultAt: nat, setAt: nat)

  /** In the state before step `k` the fetch is in flight, and waits for what it should. */
  ghost predicate InFlightAt(h: seq<State>, o: Origin, k: nat)
    requires o.calledAt < k < |h|
  {
    && o.id in h[k].inFlight
    && var f := h[k].inFlight[o.id];
    && f.eventType == o.eventType && f.scope == o.scope && f.startedAt == h[o.calledAt].now
    && (f.stage.AwaitScoped? <==> k <= o.scopedAt)
    && (f.stage.AwaitDefault? <==> o.scopedAt < k <= o.defaultAt)
  }

  /** One and the same fetch, from its call to step `n`. */
  ghost predicate Tracked(h: seq<State>, es: seq<Event>, o: Origin, n: nat) {
    && o.calledAt < n < |h| && o.calledAt < |es| && es[o.calledAt] == Call(o.id, o.eventType, o.scope)
    && forall k :: o.calledAt < k <= n ==> InFlightAt(h, o, k)
  }

  /** The scoped query decides: it fails, or it finds a row. */
  predicate Decides(env: Env, eventType: string, scope: string) {
    !env.up || ShowsScoped(env, eventType, scope)
  }

  /** Its scoped query ran at its step; `missed` if a second query was to follow. */
  ghost predicate RanScoped(h: seq<State>, es: seq<Event>, o: Origin, missed: bool) {
    && o.scopedAt < |es| && o.scopedAt < |h| && es[o.scopedAt] == RunScoped(o.id)
    && (missed <==> !Decides(h[o.scopedAt].env, o.eventType, o.scope))
  }

  /** Its queries ran at their steps, and this is the lookup they made. */
  ghost predicate Queried(h: seq<State>, es: seq<Event>, o: Origin, n: nat, config: Option<Chain>) {
    && o.calledAt < o.scopedAt <= o.defaultAt < n && o.defaultAt < |es| && o.defaultAt < |h|
    && RanScoped(h, es, o, o.scopedAt < o.defaultAt)
    && (o.scopedAt < o.defaultAt ==> es[o.defaultAt] == RunDefault(o.id))
    && config == Lookup(h[o.scopedAt].env, h[o.defaultAt].env, o.eventType, o.scope)
  }

  /** `ms` is any bound on how long fetches take; it limits the age only if it holds. */
  ghost predicate Explains(h: seq<State>, es: seq<Event>, types: set<string>, ms: int, o: Origin,
                           config: Option<Chain>) {
    && o.eventType in types && o.setAt < |es| && es[o.setAt] == Settle(o.id)
    && Tracked(h, es, o, o.setAt) && Queried(h, es, o, o.setAt, config)
    && (Prompt(h, ms) ==> h[o.setAt].now - h[o.calledAt].now <= ms)
  }

  /** This step stores a result under this key. */
  ghost predicate Stores(s: State, e: Event, key: string) {
    e.Settle? && e.id in s.inFlight && CacheKey(s.inFlight[e.id].eventType, Some(s.inFlight[e.id].scope)) == key
  }

  ghost predicate StoredLast(h: seq<State>, es: seq<Event>, key: string, at: nat)
    requires |es| <= |h|
  {
    forall k :: at < k < |es| ==> !Stores(h[k], es[k], key)
  }

  ghost predicate EntryFrom(h: seq<State>, es: seq<Event>, types: set<string>, ms: int, o: Origin, key: string,
                            entry: CacheEntry) {
    && Explains(h, es, types, ms, o, entry.config)
    && key == CacheKey(o.eventType, Some(o.scope)) && |es| <= |h| && StoredLast(h, es, key, o.setAt)
    && entry.expiresAt == h[o.setAt].now + CACHE_TTL_MS
  }

  ghost predicate EntryExplained(h: seq<State>, es: seq<Event>, types: set<string>, ms: int, key: string,
                                 entry: CacheEntry) {
    exists o :: EntryFrom(h, es, types, ms, o, key, entry)
  }

  /** What is known of a fetch in flight in the last state. */
  ghost predicate FetchFrom(h: seq<State>, es: seq<Event>, types: set<string>, o: Origin)
    requires h != []
  {
    var n := |h| - 1;
    && o.eventType in types && Tracked(h, es, o, n) && o.id in h[n].inFlight
    && match h[n].inFlight[o.id].stage
       case AwaitScoped => o.scopedAt == o.defaultAt == n
       case AwaitDefault => o.calledAt < o.scopedAt < o.defaultAt == n && RanScoped(h, es, o, true)
       case Fetched(config) => Queried(h, es, o, n, config)
  }

  ghost predicate FetchExplained(h: seq<State>, es: seq<Event>, types: set<string>, id: nat)
    requires h != []
  {
    exists o: Origin :: o.id == id && FetchFrom(h, es, types, o)
  }

  ghost predicate Inv(h: seq<State>, es: seq<Event>, types: set<string>, ms: int) {
    && |h| == |es| + 1
    && (forall key :: key in Last(h).cache ==> EntryExplained(h, es, types, ms, key, Last(h).cache[key]))
    && (forall id :: id in Last(h).inFlight ==> FetchExplained(h, es, types, id))
  }

  const FIVE_MINUTES_MS := 300_000

  /** The answer is the result of this fetch: its key is the caller's, and no other fetch
      has stored a result under that key since. */
  ghost predicate AnswerFrom(h: seq<State>, es: seq<Event>, types: set<string>, ms: int, o: Origin, r: Response) {
    && Explains(h, es, types, ms, o, r.config) && |es| <= |h|
    && CacheKey(r.eventType, Some(r.scope)) == CacheKey(o.eventType, Some(o.scope))
    && StoredLast(h, es, CacheKey(r.eventType, Some(r.scope)), o.setAt)
    && h[o.setAt].now <= Last(h).now <= h[o.setAt].now + FIVE_MINUTES_MS
  }

  lemma {:induction false} ClockMonotone(h: seq<State>, es: seq<Event>, i: nat, j: nat)
    requires IsRun(h, es) && i <= j < |h|
    ensures h[i].now <= h[j].now
    decreases j
  {
    if i < j {
      ClockMonotone(h, es, i, j - 1);
      assert h[j - 1 + 1] == Step(h[j - 1], es[j - 1]);
    }
  }

  lemma PromptBefore(h: seq<State>, t: State, ms: int)
    ensures Prompt(h + [t], ms) ==> Prompt(h, ms)
  {
    assert forall i :: 0 <= i < |h| ==> (h + [t])[i] == h[i];
  }

  lemma {:induction false} TrackedLasts(h: seq<State>, es: seq<Event>, t: State, e: Event, o: Origin, n: nat)
    requires Tracked(h, es, o, n)
    ensures Tracked(h + [t], es + [e], o, n)
  {
    forall k | o.calledAt < k <= n ensures InFlightAt(h + [t], o, k) {
      assert InFlightAt(h, o, k);
    }
  }

  lemma {:induction false} ExplainsLasts(h: seq<State>, es: seq<Event>, t: State, e: Event, types: set<string>, ms: int,
                                         o: Origin, config: Option<Chain>)
    requires Explains(h, es, types, ms, o, config)
    ensures Explains(h + [t], es + [e], types, ms, o, config)
  {
    TrackedLasts(h, es, t, e, o, o.setAt);
    PromptBefore(h, t, ms);
  }

  lemma {:induction false} StoredLastSnoc(h: seq<State>, es: seq<Event>, t: State, e: Event, key: string, at: nat)
    requires |h| == |es| + 1 && (at < |es| ==> StoredLast(h, es, key, at) && !Stores(Last(h), e, key))
    ensures StoredLast(h + [t], es + [e], key, at)
  {
    forall k | at < k < |es| + 1 ensures !Stores((h + [t])[k], (es + [e])[k], key) {
      if k < |es| { assert !Stores(h[k], es[k], key); }
    }
  }

  lemma {:induction false} EntryLasts(h: seq<State>, es: seq<Event>, t: State, e: Event, types: set<string>, ms: int,
                                      key: string, entry: CacheEntry)
    requires |h| == |es| + 1 && EntryExplained(h, es, types, ms, key, entry) && !Stores(Last(h), e, key)
    ensures EntryExplained(h + [t], es + [e], types, ms, key, entry)
  {
    var o :| EntryFrom(h, es, types, ms, o, key, entry);
    ExplainsLasts(h, es, t, e, types, ms, o, entry.config);
    StoredLastSnoc(h, es, t, e, key, o.setAt);
    assert EntryFrom(h + [t], es + [e], types, ms, o, key, entry);
  }

  /** The next state of a fetch that stays in flight: one more step of the same fetch. */
  lemma {:induction false} TrackedSnoc(h: seq<State>, es: seq<Event>, t: State, e: Event, o: Origin, p: Origin)
    requires |h| == |es| + 1 && Tracked(h, es, o, |h| - 1)
    requires p == o.(scopedAt := p.scopedAt, defaultAt := p.defaultAt)
    requires p.scopedAt == o.scopedAt || (|h| - 1 <= o.scopedAt && |h| - 1 <= p.scopedAt)
    requires p.defaultAt == o.defaultAt || (|h| - 1 <= o.defaultAt && |h| - 1 <= p.defaultAt)
    requires InFlightAt(h + [t], p, |h|)
    ensures Tracked(h + [t], es + [e], p, |h|)
  {
    forall k | p.calledAt < k <= |h| ensures InFlightAt(h + [t], p, k) {
      if k < |h| { assert InFlightAt(h, o, k); }
    }
  }

  lemma {:induction false} FetchStays(h: seq<State>, es: seq<Event>, e: Event, types: set<string>, id: nat)
    requires |h| == |es| + 1 && Enabled(Last(h), e) && FetchExplained(h, es, types, id)
    requires id in Last(h).inFlight && id in Step(Last(h), e).inFlight
    requires Step(Last(h), e).inFlight[id] == Last(h).inFlight[id]
    ensures FetchExplained(h + [Step(Last(h), e)], es + [e], types, id)
  {
    var t, n := Step(Last(h), e), |h| - 1;
    var o: Origin :| o.id == id && FetchFrom(h, es, types, o);
    assert InFlightAt(h, o, n);
    var p := match h[n].inFlight[id].stage
      case AwaitScoped => o.(scopedAt := n + 1, defaultAt := n + 1)
      case AwaitDefault => o.(defaultAt := n + 1)
      case Fetched(_) => o;
    TrackedSnoc(h, es, t, e, o, p);
    assert FetchFrom(h + [t], es + [e], types, p);
  }

  lemma {:induction false} CalledFetch(h: seq<State>, es: seq<Event>, e: Event, types: set<string>)
    requires |h| == |es| + 1 && Enabled(Last(h), e) && e.Call? && e.eventType in types
    requires e.id in Step(Last(h), e).inFlight
    ensures FetchExplained(h + [Step(Last(h), e)], es + [e], types, e.id)
  {
    var t, n := Step(Last(h), e), |h| - 1;
    var o := Origin(e.id, e.eventType, e.scope, n, n + 1, n + 1, 0);
    assert InFlightAt(h + [t], o, n + 1);
    assert FetchFrom(h + [t], es + [e], types, o);
  }

  lemma {:induction false} ScopedQueryRan(h: seq<State>, es: seq<Event>, e: Event, types: set<string>)
    requires |h| == |es| + 1 && Enabled(Last(h), e) && e.RunScoped? && FetchExplained(h, es, types, e.id)
    ensures FetchExplained(h + [Step(Last(h), e)], es + [e], types, e.id)
  {
    var t, n := Step(Last(h), e), |h| - 1;
    var o: Origin :| o.id == e.id && FetchFrom(h, es, types, o);
    assert InFlightAt(h, o, n);
    var p := if t.inFlight[e.id].stage.Fetched? then o else o.(defaultAt := n + 1);
    TrackedSnoc(h, es, t, e, o, p);
    assert FetchFrom(h + [t], es + [e], types, p);
  }

  lemma {:induction false} DefaultQueryRan(h: seq<State>, es: seq<Event>, e: Event, types: set<string>)
    requires |h| == |es| + 1 && Enabled(Last(h), e) && e.RunDefault? && FetchExplained(h, es, types, e.id)
    ensures FetchExplained(h + [Step(Last(h), e)], es + [e], types, e.id)
  {
    var t, n := Step(Last(h), e), |h| - 1;
    var o: Origin :| o.id == e.id && FetchFrom(h, es, types, o);
    assert InFlightAt(h, o, n);
    TrackedSnoc(h, es, t, e, o, o);
    assert FetchFrom(h + [t], es + [e], types, o);
  }

  /** Where the result of a fetch that settles now came from. */
  lemma {:induction false} SettledOrigin(h: seq<State>, es: seq<Event>, e: Event, types: set<string>, ms: int)
    returns (o: Origin)
    requires |h| == |es| + 1 && Enabled(Last(h), e) && e.Settle? && FetchExplained(h, es, types, e.id)
    ensures var f := Last(h).inFlight[e.id];
            && o.eventType == f.eventType && o.scope == f.scope && o.setAt == |h| - 1
            && Explains(h + [Step(Last(h), e)], es + [e], types, ms, o, f.stage.config)
  {
    var t, n := Step(Last(h), e), |h| - 1;
    var p: Origin :| p.id == e.id && FetchFrom(h, es, types, p);
    assert InFlightAt(h, p, n);
    o := p.(setAt := n);
    forall k | o.calledAt < k <= n ensures InFlightAt(h, o, k) {
      assert InFlightAt(h, p, k);
    }
    TrackedLasts(h, es, t, e, o, n);
    PromptBefore(h, t, ms);
  }

  lemma {:induction false} SettledEntry(h: seq<State>, es: seq<Event>, e: Event, types: set<string>, ms: int)
    requires |h| == |es| + 1 && Enabled(Last(h), e) && e.Settle? && FetchExplained(h, es, types, e.id)
    ensures var t, f := Step(Last(h), e), Last(h).inFlight[e.id];
            var key := CacheKey(f.eventType, Some(f.scope));
            EntryExplained(h + [t], es + [e], types, ms, key, t.cache[key])
  {
    var t, f := Step(Last(h), e), Last(h).inFlight[e.id];
    var key := CacheKey(f.eventType, Some(f.scope));
    var o := SettledOrigin(h, es, e, types, ms);
    assert EntryFrom(h + [t], es + [e], types, ms, o, key, t.cache[key]);
  }

  lemma {:induction false} EntriesStayExplained(h: seq<State>, es: seq<Event>, e: Event, types: set<string>, ms: int)
    requires Inv(h, es, types, ms) && Enabled(Last(h), e)
    ensures var t := Step(Last(h), e);
            forall key :: key in t.cache ==> EntryExplained(h + [t], es + [e], types, ms, key, t.cache[key])
  {
    var t := Step(Last(h), e);
    forall key | key in t.cache ensures EntryExplained(h + [t], es + [e], types, ms, key, t.cache[key]) {
      if Stores(Last(h), e, key) {
        SettledEntry(h, es, e, types, ms);
      } else {
        assert key in Last(h).cache && t.cache[key] == Last(h).cache[key];
        EntryLasts(h, es, t, e, types, ms, key, t.cache[key]);
      }
    }
  }

  lemma {:induction false} FetchesStayExplained(h: seq<State>, es: seq<Event>, e: Event, types: set<string>, ms: int)
    requires Inv(h, es, types, ms) && Enabled(Last(h), e) && (e.Call? ==> e.eventType in types)
    ensures var t := Step(Last(h), e);
            forall id :: id in t.inFlight ==> FetchExplained(h + [t], es + [e], types, id)
  {
    var t := Step(Last(h), e);
    forall id | id in t.inFlight ensures FetchExplained(h + [t], es + [e], types, id) {
      if id in Last(h).inFlight && t.inFlight[id] == Last(h).inFlight[id] {
        FetchStays(h, es, e, types, id);
      } else if e.RunScoped? {
        ScopedQueryRan(h, es, e, types);
      } else if e.RunDefault? {
        DefaultQueryRan(h, es, e, types);
      } else {
        CalledFetch(h, es, e, types);
      }
    }
  }

  lemma RunPrefix(h: seq<State>, es: seq<Event>)
    requires IsRun(h, es) && es != []
    ensures var n := |es| - 1;
            && IsRun(h[..n + 1], es[..n]) && h == h[..n + 1] + [h[n + 1]] && es == es[..n] + [es[n]]
            && Enabled(h[n], es[n]) && h[n + 1] == Step(h[n], es[n]) && Last(h[..n + 1]) == h[n]
  {
  }

  lemma {:induction false} InvHolds(h: seq<State>, es: seq<Event>, types: set<string>, ms: int)
    requires IsRun(h, es) && CallsOnly(es, types)
    ensures Inv(h, es, types, ms)
    decreases |es|
  {
    if es != [] {
      var n := |es| - 1;
      RunPrefix(h, es);
      InvHolds(h[..n + 1], es[..n], types, ms);
      EntriesStayExplained(h[..n + 1], es[..n], es[n], types, ms);
      FetchesStayExplained(h[..n + 1], es[..n], es[n], types, ms);
    }
  }

  /** An answer from the cache. */
  lemma {:induction false} EntryAnswers(h: seq<State>, es: seq<Event>, t: State, e: Event, types: set<string>, ms: int,
                                        o: Origin, r: Response, entry: CacheEntry)
    requires |h| == |es| + 1 && EntryFrom(h, es, types, ms, o, CacheKey(r.eventType, Some(r.scope)), entry)
    requires r.config == entry.config && !Stores(Last(h), e, CacheKey(r.eventType, Some(r.scope)))
    requires h[o.setAt].now <= t.now <= entry.expiresAt
    ensures AnswerFrom(h + [t], es + [e], types, ms, o, r)
  {
    ExplainsLasts(h, es, t, e, types, ms, o, entry.config);
    StoredLastSnoc(h, es, t, e, CacheKey(r.eventType, Some(r.scope)), o.setAt);
  }

  ghost predicate InThePast(h: seq<State>, now: int) {
    forall i :: 0 <= i < |h| ==> h[i].now <= now
  }

  lemma {:induction false} RunIsInThePast(h: seq<State>, es: seq<Event>)
    requires IsRun(h, es)
    ensures InThePast(h, Last(h).now)
  {
    forall i | 0 <= i < |h| ensures h[i].now <= Last(h).now { ClockMonotone(h, es, i, |h| - 1); }
  }

  lemma {:induction false} CachedOrigin(h: seq<State>, es: seq<Event>, t: State, e: Event, types: set<string>, ms: int,
                                        r: Response, entry: CacheEntry)
    returns (o: Origin)
    requires |h| == |es| + 1 && EntryExplained(h, es, types, ms, CacheKey(r.eventType, Some(r.scope)), entry)
    requires e.Call? && r.config == entry.config && InThePast(h, t.now) && t.now <= entry.expiresAt
    ensures AnswerFrom(h + [t], es + [e], types, ms, o, r)
  {
    o :| EntryFrom(h, es, types, ms, o, CacheKey(r.eventType, Some(r.scope)), entry);
    EntryAnswers(h, es, t, e, types, ms, o, r, entry);
  }

  /** Every configuration handed out is the result of one fetch of the run: called, queried
      once or twice, and stored, in this order, and the last to be stored under the
      caller's key, no more than the time to live ago. It is the lookup made of what its
      queries met when they ran. If fetches take at most `ms`, that one was called at most
      the time to live plus `ms` ago. */
  lemma {:induction false} EveryAnswerIsALookup(h: seq<State>, es: seq<Event>, types: set<string>, ms: int)
    returns (o: Origin)
    requires IsRun(h, es) && CallsOnly(es, types) && Last(h).returned.Some?
    ensures AnswerFrom(h, es, types, ms, o, Last(h).returned.value)
  {
    var n := |es| - 1;
    RunPrefix(h, es);
    var before, earlier, e := h[..n + 1], es[..n], es[n];
    InvHolds(before, earlier, types, ms);
    if e.Settle? {
      o := SettledOrigin(before, earlier, e, types, ms);
    } else {
      var key := CacheKey(e.eventType, Some(e.scope));
      RunIsInThePast(before, earlier);
      o := CachedOrigin(before, earlier, h[n + 1], e, types, ms, Last(h).returned.value, h[n].cache[key]);
    }
  }

  lemma {:induction false} SameSettle(h: seq<State>, es: seq<Event>, types: set<string>, ms: int, o: Origin, p: Origin,
                                      r: Response)
    requires AnswerFrom(h, es, types, ms, o, r) && AnswerFrom(h, es, types, ms, p, r)
    ensures o.setAt == p.setAt && o.id == p.id
  {
    assert InFlightAt(h, o, o.setAt) && InFlightAt(h, p, p.setAt);
    assert Stores(h[o.setAt], es[o.setAt], CacheKey(r.eventType, Some(r.scope)));
    assert Stores(h[p.setAt], es[p.setAt], CacheKey(r.eventType, Some(r.scope)));
  }

  lemma {:induction false} NotCalledTwice(h: seq<State>, es: seq<Event>, o: Origin, p: Origin, n: nat)
    requires IsRun(h, es) && Tracked(h, es, o, n) && Tracked(h, es, p, n) && o.id == p.id
    ensures o.calledAt >= p.calledAt
  {
    assert Enabled(h[p.calledAt], es[p.calledAt]);
    assert o.calledAt < p.calledAt ==> InFlightAt(h, o, p.calledAt);
  }

  /** There is only one such fetch, so its steps are those of the answer itself. */
  lemma {:induction false} OriginIsUnique(h: seq<State>, es: seq<Event>, types: set<string>, ms: int, o: Origin,
                                          p: Origin, r: Response)
    requires IsRun(h, es) && AnswerFrom(h, es, types, ms, o, r) && AnswerFrom(h, es, types, ms, p, r)
    ensures o == p
  {
    SameSettle(h, es, types, ms, o, p, r);
    NotCalledTwice(h, es, o, p, o.setAt);
    NotCalledTwice(h, es, p, o, o.setAt);
    assert InFlightAt(h, o, o.scopedAt) && InFlightAt(h, p, o.scopedAt);
    assert InFlightAt(h, o, p.scopedAt) && InFlightAt(h, p, p.scopedAt);
    assert InFlightAt(h, o, o.defaultAt) && InFlightAt(h, p, o.defaultAt);
    assert InFlightAt(h, o, p.defaultAt) && InFlightAt(h, p, p.defaultAt);
  }

  // ---- When a call is answered from the cache ------------------------------------------------

  /** Step `k` stored a result under this key, and none did since. */
  ghost predicate LastStoredAt(h: seq<State>, es: seq<Event>, key: string, k: nat) {
    |es| <= |h| && k < |es| && Stores(h[k], es[k], key) && StoredLast(h, es, key, k)
  }

  lemma {:induction false} StoredBefore(h: seq<State>, es: seq<Event>, key: string, k: nat)
    requires IsRun(h, es) && k < |es| - 1 && LastStoredAt(h, es, key, k)
    ensures var n := |es| - 1; LastStoredAt(h[..n + 1], es[..n], key, k) && !Stores(h[n], es[n], key)
  {
    var n := |es| - 1;
    forall i | k < i < n ensures !Stores(h[..n + 1][i], es[..n][i], key) { assert !Stores(h[i], es[i], key); }
  }

  /** What is stored stays until five minutes have passed. */
  lemma {:induction false} KeptFiveMinutes(h: seq<State>, es: seq<Event>, key: string, k: nat)
    requires IsRun(h, es) && LastStoredAt(h, es, key, k) && Last(h).now <= h[k].now + FIVE_MINUTES_MS
    ensures key in Last(h).cache && Last(h).cache[key].expiresAt == h[k].now + FIVE_MINUTES_MS
    decreases |es|
  {
    var n := |es| - 1;
    RunPrefix(h, es);
    if k < n {
      StoredBefore(h, es, key, k);
      ClockMonotone(h, es, n, n + 1);
      KeptFiveMinutes(h[..n + 1], es[..n], key, k);
    }
  }

  lemma {:induction false} HitWasStored(h: seq<State>, es: seq<Event>, types: set<string>, key: string) returns (k: nat)
    requires IsRun(h, es) && CallsOnly(es, types) && key in Last(h).cache
    ensures LastStoredAt(h, es, key, k) && Last(h).cache[key].expiresAt == h[k].now + FIVE_MINUTES_MS
  {
    InvHolds(h, es, types, 0);
    var entry := Last(h).cache[key];
    assert EntryExplained(h, es, types, 0, key, entry);
    var o :| EntryFrom(h, es, types, 0, o, key, entry);
    assert InFlightAt(h, o, o.setAt);
    k := o.setAt;
  }

  /** A call is answered at once exactly when a result was stored under its key in the last
      five minutes; otherwise it starts a fetch of its own. */
  lemma {:induction false} CallAnsweredIff(h: seq<State>, es: seq<Event>, types: set<string>, e: Event)
    requires IsRun(h, es) && CallsOnly(es, types) && e.Call? && Enabled(Last(h), e)
    ensures var t, key := Step(Last(h), e), CacheKey(e.eventType, Some(e.scope));
            && (t.returned.Some? <==>
                  exists k: nat :: LastStoredAt(h, es, key, k) && Last(h).now <= h[k].now + FIVE_MINUTES_MS)
            && (t.returned.None? ==>
                  t.inFlight == Last(h).inFlight[e.id := Fetch(e.eventType, e.scope, Last(h).now, AwaitScoped)])
  {
    var key := CacheKey(e.eventType, Some(e.scope));
    if Hit(Last(h), key) {
      var k := HitWasStored(h, es, types, key);
    }
    if k: nat :| LastStoredAt(h, es, key, k) && Last(h).now <= h[k].now + FIVE_MINUTES_MS {
      KeptFiveMinutes(h, es, key, k);
    }
  }

  /** The chain two environments yield: the scoped row the first shows, else the node
      default the second shows, else the hardcoded reactors. */
  ghost predicate IsChainFor(defaults: map<string, seq<ReactorConfig>>, first: Env, second: Env,
                             eventType: string, scope: string, chain: Chain) {
    if ShowsScoped(first, eventType, scope) then
      chain == Chain(eventType, Some(scope), ReactorsOf(first.table[(eventType, Some(scope))]), Db)
    else if first.up && second.up && (eventType, None) in second.table then
      chain == Chain(eventType, None, ReactorsOf(second.table[(eventType, None)]), Db)
    else
      chain == Chain(eventType, None, if eventType in defaults then defaults[eventType] else [], Defaults)
  }

  function ReactorsOf(row: DbRow): seq<ReactorConfig> {
    if row.enabled then row.reactors else []
  }

  /** A query for the scoped row would be answered, and with a row. */
  predicate ShowsScoped(env: Env, eventType: string, scope: string) {
    env.up && (eventType, Some(scope)) in env.table
  }

  ghost predicate NoneExtends(types: set<string>) {
    forall a, b :: a in types && b in types ==> !Extends(a, b)
  }

  /** And it is the lookup the caller asked for, unless two event types in use are such
      that one continues the other with a colon: the chain getChainConfig makes of it is
      the scoped row, the node default or the hardcoded fallback of the caller's own event
      type and scope. */
  lemma EveryAnswerIsItsOwnLookup(h: seq<State>, es: seq<Event>, types: set<string>, ms: int,
                                  defaults: map<string, seq<ReactorConfig>>)
    returns (o: Origin)
    requires IsRun(h, es) && CallsOnly(es, types) && Last(h).returned.Some? && NoneExtends(types)
    requires Last(h).returned.value.eventType in types
    ensures AnswerFrom(h, es, types, ms, o, Last(h).returned.value)
    ensures var r := Last(h).returned.value;
            && o.eventType == r.eventType && o.scope == r.scope
            && IsChainFor(defaults, h[o.scopedAt].env, h[o.defaultAt].env, r.eventType, r.scope,
                          OrFallback(defaults, r.eventType, r.config))
  {
    o := EveryAnswerIsALookup(h, es, types, ms);
    var r := Last(h).returned.value;
    CacheKeyIdentifies(r.eventType, r.scope, o.eventType, o.scope);
  }

  function Start(env: Env): State {
    State(0, env, map[], map[], None)
  }

  function After(s: State, es: seq<Event>): Option<State>
    decreases |es|
  {
    if es == [] then Some(s)
    else if Enabled(s, es[0]) then After(Step(s, es[0]), es[1..])
    else None
  }

  lemma AfterCons(s: State, e: Event, es: seq<Event>)
    requires Enabled(s, e)
    ensures After(s, [e] + es) == After(Step(s, e), es)
  {
    assert ([e] + es)[1..] == es;
  }

  function FetchThen(eventType: string, scope: string, rest: seq<Event>): seq<Event> {
    [Call(0, eventType, scope)] + ([RunScoped(0)] + ([Settle(0)] + rest))
  }

  lemma {:induction false} FetchThenRuns(eventType: string, scope: string, row: DbRow, rest: seq<Event>)
    returns (s: State)
    ensures var env := Env(map[(eventType, Some(scope)) := row], true);
            && After(Start(env), FetchThen(eventType, scope, rest)) == After(s, rest)
            && s.now == 0 && s.env == env && s.inFlight == map[]
            && s.cache == map[CacheKey(eventType, Some(scope)) :=
                              CacheEntry(FromTable(env.table, eventType, Some(scope)), CACHE_TTL_MS)]
  {
    var env := Env(map[(eventType, Some(scope)) := row], true);
    var a := Step(Start(env), Call(0, eventType, scope));
    var b := Step(a, RunScoped(0));
    s := Step(b, Settle(0));
    AfterCons(Start(env), Call(0, eventType, scope), [RunScoped(0)] + ([Settle(0)] + rest));
    AfterCons(a, RunScoped(0), [Settle(0)] + rest);
    AfterCons(b, Settle(0), rest);
  }

  /** With such a pair, on a table that never changes, a caller is handed the other
      event type's chain although its own lookup finds nothing. */
  lemma ExtendingTypesCrossTalk(longer: string, shorter: string, scope: string, row: DbRow) returns (other: string)
    requires Extends(longer, shorter)
    ensures var env := Env(map[(shorter, Some(other)) := row], true);
            var t := After(Start(env), FetchThen(shorter, other, [Call(1, longer, scope)] + []));
            && Lookup(env, env, longer, scope) == None
            && t.Some? && t.value.env == env
            && t.value.returned == Some(Response(longer, scope, Lookup(env, env, shorter, other)))
            && Lookup(env, env, shorter, other).Some?
  {
    other := ExtensionSharesAKey(longer, shorter, scope);
    var s := FetchThenRuns(shorter, other, row, [Call(1, longer, scope)] + []);
    AfterCons(s, Call(1, longer, scope), []);
  }

  // ---- One moment or two --------------------------------------------------------------

  /** The node default a query would be answered with; a failed query answers none. */
  function NodeDefault(env: Env, eventType: string): Option<Chain> {
    if env.up then FromTable(env.table, eventType, None) else None
  }

  /** The lookup made at moments `i` and `j` is the lookup of the database as it stood at
      some one moment from `i` to `j`. */
  ghost predicate TrueAtSomeMoment(h: seq<State>, i: nat, j: nat, eventType: string, scope: string)
    requires i <= j < |h|
  {
    exists k :: i <= k <= j
      && Lookup(h[i].env, h[j].env, eventType, scope) == Lookup(h[k].env, h[k].env, eventType, scope)
  }

  /** At some moment from `i` to `j` no scoped row shows and the node default reads as it
      does at `j`. */
  ghost predicate DefaultAloneAtSomeMoment(h: seq<State>, i: nat, j: nat, eventType: string, scope: string)
    requires i <= j < |h|
  {
    exists k :: i <= k <= j && !ShowsScoped(h[k].env, eventType, scope)
      && NodeDefault(h[k].env, eventType) == NodeDefault(h[j].env, eventType)
  }

  /** Exactly when an answer is true at a single moment: the first query failed or hit, or
      at some moment no scoped row showed beside the node default that was read. */
  lemma OneMomentIff(h: seq<State>, i: nat, j: nat, eventType: string, scope: string)
    requires i <= j < |h|
    ensures TrueAtSomeMoment(h, i, j, eventType, scope)
       <==> || !h[i].env.up
            || ShowsScoped(h[i].env, eventType, scope)
            || DefaultAloneAtSomeMoment(h, i, j, eventType, scope)
  {
    if h[i].env.up && !ShowsScoped(h[i].env, eventType, scope) {
      forall k | i <= k <= j
        ensures Lookup(h[i].env, h[j].env, eventType, scope) == Lookup(h[k].env, h[k].env, eventType, scope)
           <==> && !ShowsScoped(h[k].env, eventType, scope)
                && NodeDefault(h[k].env, eventType) == NodeDefault(h[j].env, eventType)
      {
      }
    } else {
      assert Lookup(h[i].env, h[j].env, eventType, scope) == Lookup(h[i].env, h[i].env, eventType, scope);
    }
  }

  /** So for every answer of every run: it is the lookup at some one moment between its two
      queries, or the run shows how it was torn. */
  lemma EveryAnswerTrueAtSomeMomentIff(h: seq<State>, es: seq<Event>, types: set<string>, ms: int) returns (o: Origin)
    requires IsRun(h, es) && CallsOnly(es, types) && Last(h).returned.Some?
    ensures AnswerFrom(h, es, types, ms, o, Last(h).returned.value)
    ensures (exists k :: o.scopedAt <= k <= o.defaultAt
              && Last(h).returned.value.config == Lookup(h[k].env, h[k].env, o.eventType, o.scope))
       <==> || !h[o.scopedAt].env.up
            || ShowsScoped(h[o.scopedAt].env, o.eventType, o.scope)
            || DefaultAloneAtSomeMoment(h, o.scopedAt, o.defaultAt, o.eventType, o.scope)
  {
    o := EveryAnswerIsALookup(h, es, types, ms);
    OneMomentIff(h, o.scopedAt, o.defaultAt, o.eventType, o.scope);
  }

  /** All that a lookup for this event type and scope can see of the database. */
  datatype View = View(up: bool, scoped: Option<DbRow>, node: Option<DbRow>)

  function ViewOf(env: Env, eventType: string, scope: string): View {
    View(env.up, RowAt(env.table, eventType, Some(scope)), RowAt(env.table, eventType, None))
  }

  function RowAt(table: Table, eventType: string, scope: Option<string>): Option<DbRow> {
    if (eventType, scope) in table then Some(table[(eventType, scope)]) else None
  }

  /** The database goes down or comes up, or one of the two rows is written, or neither. */
  predicate OneAspect(v: View, w: View) {
    v == w.(up := v.up) || v == w.(scoped := v.scoped) || v == w.(node := v.node)
  }

  /** How many steps from `i` to `j` change what the lookup can see, among any number that
      change other rows. */
  function Touches(h: seq<State>, i: nat, j: nat, eventType: string, scope: string): nat
    requires i <= j < |h|
  {
    if i == j then 0
    else Touches(h, i, j - 1, eventType, scope)
         + if ViewOf(h[j - 1].env, eventType, scope) == ViewOf(h[j].env, eventType, scope) then 0 else 1
  }

  ghost predicate AspectByAspect(h: seq<State>, i: nat, j: nat, eventType: string, scope: string)
    requires i <= j < |h|
  {
    forall k :: i <= k < j ==> OneAspect(ViewOf(h[k].env, eventType, scope), ViewOf(h[k + 1].env, eventType, scope))
  }

  lemma {:induction false} UntouchedIsConstant(h: seq<State>, i: nat, j: nat, eventType: string, scope: string)
    requires i <= j < |h| && Touches(h, i, j, eventType, scope) == 0
    ensures ViewOf(h[i].env, eventType, scope) == ViewOf(h[j].env, eventType, scope)
  {
    if i < j { UntouchedIsConstant(h, i, j - 1, eventType, scope); }
  }

  /** With one touch at most, there is one step at which the view turns from the first to
      the last. */
  lemma {:induction false} TurningStep(h: seq<State>, i: nat, j: nat, eventType: string, scope: string)
    returns (m: nat)
    requires i < j < |h| && Touches(h, i, j, eventType, scope) <= 1
    ensures i <= m < j
    ensures ViewOf(h[m].env, eventType, scope) == ViewOf(h[i].env, eventType, scope)
    ensures ViewOf(h[m + 1].env, eventType, scope) == ViewOf(h[j].env, eventType, scope)
  {
    if Touches(h, i, j - 1, eventType, scope) == 0 {
      UntouchedIsConstant(h, i, j - 1, eventType, scope);
      m := j - 1;
    } else {
      m := TurningStep(h, i, j - 1, eventType, scope);
    }
  }

  lemma {:induction false} LookupReadsTheViews(a: Env, b: Env, c: Env, d: Env, eventType: string, scope: string)
    requires ViewOf(a, eventType, scope) == ViewOf(c, eventType, scope)
    requires ViewOf(b, eventType, scope) == ViewOf(d, eventType, scope)
    ensures Lookup(a, b, eventType, scope) == Lookup(c, d, eventType, scope)
  {
  }

  lemma {:induction false} OneAspectNeverTears(a: Env, b: Env, eventType: string, scope: string)
    requires OneAspect(ViewOf(a, eventType, scope), ViewOf(b, eventType, scope))
    ensures || Lookup(a, b, eventType, scope) == Lookup(a, a, eventType, scope)
            || Lookup(a, b, eventType, scope) == Lookup(b, b, eventType, scope)
  {
  }

  /** However often the database changes between the two queries: if at most one of the
      changes is an outage, or a write to one of the two rows the lookup reads, the answer
      is true at some moment. TornLookup needs two. */
  lemma {:induction false} OneTouchIsHarmless(h: seq<State>, i: nat, j: nat, eventType: string, scope: string)
    requires i <= j < |h| && AspectByAspect(h, i, j, eventType, scope)
    requires Touches(h, i, j, eventType, scope) <= 1
    ensures TrueAtSomeMoment(h, i, j, eventType, scope)
  {
    if i == j {
      assert Lookup(h[i].env, h[j].env, eventType, scope) == Lookup(h[i].env, h[i].env, eventType, scope);
    } else {
      var m := TurningStep(h, i, j, eventType, scope);
      var a, b := h[m].env, h[m + 1].env;
      assert OneAspect(ViewOf(h[m].env, eventType, scope), ViewOf(h[m + 1].env, eventType, scope));
      OneAspectNeverTears(a, b, eventType, scope);
      LookupReadsTheViews(h[i].env, h[j].env, a, b, eventType, scope);
      var k := if Lookup(a, b, eventType, scope) == Lookup(a, a, eventType, scope) then m else m + 1;
      assert Lookup(h[i].env, h[j].env, eventType, scope) == Lookup(h[k].env, h[k].env, eventType, scope);
    }
  }

  /** So in every run: an answer between whose two queries at most one such change fell is
      the lookup at some one moment between them. */
  lemma {:induction false} EveryAnswerSurvivesOneTouch(h: seq<State>, es: seq<Event>, types: set<string>, ms: int)
    returns (o: Origin)
    requires IsRun(h, es) && CallsOnly(es, types) && Last(h).returned.Some?
    ensures AnswerFrom(h, es, types, ms, o, Last(h).returned.value)
    ensures AspectByAspect(h, o.scopedAt, o.defaultAt, o.eventType, o.scope)
            && Touches(h, o.scopedAt, o.defaultAt, o.eventType, o.scope) <= 1
            ==> TrueAtSomeMoment(h, o.scopedAt, o.defaultAt, o.eventType, o.scope)
  {
    o := EveryAnswerIsALookup(h, es, types, ms);
    if AspectByAspect(h, o.scopedAt, o.defaultAt, o.eventType, o.scope)
       && Touches(h, o.scopedAt, o.defaultAt, o.eventType, o.scope) <= 1 {
      OneTouchIsHarmless(h, o.scopedAt, o.defaultAt, o.eventType, o.scope);
    }
  }

  function NodeOnly(eventType: string, row: DbRow): Env {
    Env(map[(eventType, None) := row], true)
  }

  function Both(eventType: string, scope: string, row: DbRow): Env {
    Env(map[(eventType, None) := row, (eventType, Some(scope)) := row], true)
  }

  function ScopedOnly(eventType: string, scope: string, row: DbRow): Env {
    Env(map[(eventType, Some(scope)) := row], true)
  }

  function TornRun(eventType: string, scope: string, row: DbRow): seq<Event> {
    [Call(0, eventType, scope)] + ([RunScoped(0)] + ([SetEnv(Both(eventType, scope, row))]
    + ([SetEnv(ScopedOnly(eventType, scope, row))] + ([RunDefault(0)] + ([Settle(0)] + [])))))
  }

  /** Two changes can tear an answer, so that it is true at no moment: the table always holds
      a chain for this event, yet the caller gets the hardcoded fallback. A scoped row is added and
      then the node default removed, both between the two queries. */
  lemma TornLookup(eventType: string, scope: string, row: DbRow)
    ensures var stages := {NodeOnly(eventType, row), Both(eventType, scope, row), ScopedOnly(eventType, scope, row)};
            forall env :: env in stages ==> Lookup(env, env, eventType, scope).Some?
    ensures var t := After(Start(NodeOnly(eventType, row)), TornRun(eventType, scope, row));
            t.Some? && t.value.returned == Some(Response(eventType, scope, None))
  {
    var s := Start(NodeOnly(eventType, row));
    var a := Step(s, Call(0, eventType, scope));
    var b := Step(a, RunScoped(0));
    var c := Step(b, SetEnv(Both(eventType, scope, row)));
    var d := Step(c, SetEnv(ScopedOnly(eventType, scope, row)));
    var e := Step(d, RunDefault(0));
    AfterCons(e, Settle(0), []);
    AfterCons(d, RunDefault(0), [Settle(0)] + []);
    AfterCons(c, SetEnv(d.env), [RunDefault(0)] + ([Settle(0)] + []));
    AfterCons(b, SetEnv(c.env), [SetEnv(d.env)] + ([RunDefault(0)] + ([Settle(0)] + [])));
    AfterCons(a, RunScoped(0), [SetEnv(c.env)] + ([SetEnv(d.env)] + ([RunDefault(0)] + ([Settle(0)] + []))));
    AfterCons(s, Call(0, eventType, scope),
              [RunScoped(0)] + ([SetEnv(c.env)] + ([SetEnv(d.env)] + ([RunDefault(0)] + ([Settle(0)] + [])))));
  }
}
