/** The sliding-window rate limiter, as functions on its module-level state and as the
    code that updates that state in place. Times are whole milliseconds. */
module RateLimit {
  import opened Wrappers

  datatype Entry = Entry(timestamps: seq<int>, lastSeen: int)

  datatype State = State(store: map<string, Entry>, lastGlobalCleanup: int)

  /** `retryAfter` is None where the code computes NaN: refused with no call on record,
      which takes a limit of zero or less. */
  datatype Verdict = Verdict(limited: bool, retryAfter: Option<int>)

  const CLEANUP_INTERVAL_MS := 60_000
  const IDLE_CUTOFF_MS := 120_000

  function Newer(ts: seq<int>, start: int): seq<int> {
    if ts == [] then [] else (if ts[0] > start then [ts[0]] else []) + Newer(ts[1..], start)
  }

  function CeilSeconds(ms: int): int {
    -(-ms / 1000)
  }

  function Prune(s: State, now: int): State {
    if now - s.lastGlobalCleanup < CLEANUP_INTERVAL_MS then s
    else State(map k | k in s.store && now - s.store[k].lastSeen <= IDLE_CUTOFF_MS :: s.store[k], now)
  }

  function Timestamps(s: State, key: string): seq<int> {
    if key in s.store then s.store[key].timestamps else []
  }

  /** The verdict on a call whose admitted predecessors inside the window are `recent`. */
  function Decide(recent: seq<int>, limit: int, windowMs: int, now: int): Verdict {
    if |recent| < limit then Verdict(false, Some(0))
    else if recent == [] then Verdict(true, None)
    else
      var wait := CeilSeconds(recent[0] + windowMs - now);
      Verdict(true, Some(if wait > 1 then wait else 1))
  }

  function Check(s: State, key: string, limit: int, windowMs: int, now: int): (Verdict, State) {
    var t := Prune(s, now);
    var recent := Newer(Timestamps(t, key), now - windowMs);
    var v := Decide(recent, limit, windowMs, now);
    (v, t.(store := t.store[key := Entry(if v.limited then recent else recent + [now], now)]))
  }

  class Limiter {
    var store: map<string, Entry>
    var lastGlobalCleanup: int

    function Snapshot(): State
      reads this
    {
      State(store, lastGlobalCleanup)
    }

    constructor (now: int)
      ensures Snapshot() == State(map[], now)
    {
      store, lastGlobalCleanup := map[], now;
    }

    method PruneStore(now: int)
      modifies this
      ensures Snapshot() == Prune(old(Snapshot()), now)
    {
      if now - lastGlobalCleanup < CLEANUP_INTERVAL_MS { return; }
      ghost var before := store;
      var todo := store.Keys;
      while todo != {}
        invariant todo <= store.Keys <= before.Keys
        invariant forall k :: k in store ==> store[k] == before[k]
        invariant forall k :: k in before && k !in todo ==> (k in store <==> now - before[k].lastSeen <= IDLE_CUTOFF_MS)
        decreases todo
      {
        var key :| key in todo;
        todo := todo - {key};
        if now - store[key].lastSeen > IDLE_CUTOFF_MS {
          store := store - {key};
        }
      }
      lastGlobalCleanup := now;
      assert store == Prune(old(Snapshot()), now).store;
    }

    method Filter(ts: seq<int>, start: int) returns (kept: seq<int>)
      ensures kept == Newer(ts, start)
    {
      kept := [];
      assert ts[0..] == ts;
      for i := 0 to |ts|
        invariant Newer(ts, start) == kept + Newer(ts[i..], start)
      {
        assert ts[i..][1..] == ts[i + 1..];
        if ts[i] > start { kept := kept + [ts[i]]; }
      }
    }

    method RateLimit(key: string, limit: int, windowMs: int, now: int) returns (verdict: Verdict)
      modifies this
      ensures (verdict, Snapshot()) == Check(old(Snapshot()), key, limit, windowMs, now)
    {
      PruneStore(now);
      var windowStart := now - windowMs;
      var entry := if key in store then store[key] else Entry([], now);
      var recent := Filter(entry.timestamps, windowStart);
      entry := entry.(timestamps := recent);
      entry := entry.(lastSeen := now);
      if |entry.timestamps| >= limit {
        store := store[key := entry];
        if entry.timestamps == [] { return Verdict(true, None); }
        var retryAfter := CeilSeconds(entry.timestamps[0] + windowMs - now);
        return Verdict(true, Some(if retryAfter > 1 then retryAfter else 1));
      }
      entry := entry.(timestamps := entry.timestamps + [now]);
      store := store[key := entry];
      return Verdict(false, Some(0));
    }
  }
}
