/** Chain configuration lookup: a cache with a time to live in front of a table that
    changes, filled by a fetch that awaits two queries. A fetch is one step up to each
    await, so other calls, table changes and outages fall in between. */
module ChainConfig {
  import opened Wrappers

  const CACHE_TTL_MS := 5 * 60 * 1000

  datatype ReactorConfig = ReactorConfig(kind: string, config: string, awaited: bool, enabled: bool)

  datatype Source = Db | Defaults

  datatype Chain = Chain(eventType: string, scope: Option<string>, reactors: seq<ReactorConfig>, source: Source)

  datatype DbRow = DbRow(reactors: seq<ReactorConfig>, enabled: bool)

  /** At most one row per event type and scope, the null scope included. */
  type Table = map<(string, Option<string>), DbRow>

  /** What a query meets: the table, and whether the database answers at all. */
  datatype Env = Env(table: Table, up: bool)

  datatype CacheEntry = CacheEntry(config: Option<Chain>, expiresAt: int)

  /** A fetch waits for the scoped query, for the node-default query, or to store its result. */
  datatype Stage = AwaitScoped | AwaitDefault | Fetched(config: Option<Chain>)

  datatype Fetch = Fetch(eventType: string, scope: string, startedAt: int, stage: Stage)

  datatype Response = Response(eventType: string, scope: string, config: Option<Chain>)

  /** `returned`: what the latest step handed back to a caller, if anything. */
  datatype State = State(now: int, env: Env, cache: map<string, CacheEntry>, inFlight: map<nat, Fetch>,
                         returned: Option<Response>)

  datatype Event =
    | SetEnv(env: Env)
    | Tick(ms: nat)
    | Call(id: nat, eventType: string, scope: string)
    | RunScoped(id: nat)
    | RunDefault(id: nat)
    | Settle(id: nat)

  // ---- The lookup itself --------------------------------------------------------------

  function CacheKey(eventType: string, scope: Option<string>): string {
    match scope
    case None => eventType + ":null"
    case Some(s) => eventType + ":" + s
  }

  /** The configuration a row stands for; a disabled row is a chain of no reactors. */
  function FromTable(table: Table, eventType: string, scope: Option<string>): Option<Chain> {
    if (eventType, scope) !in table then None
    else
      var row := table[(eventType, scope)];
      Some(Chain(eventType, scope, if row.enabled then row.reactors else [], Db))
  }

  /** The scoped row, else the node default, the two looked up in two environments;
      a query that fails ends the lookup as a miss. */
  function Lookup(first: Env, second: Env, eventType: string, scope: string): Option<Chain> {
    if !first.up then None
    else if (eventType, Some(scope)) in first.table then FromTable(first.table, eventType, Some(scope))
    else if !second.up then None
    else FromTable(second.table, eventType, None)
  }

  /** getChainConfig on a fetched configuration: hardcoded defaults where there is none. */
  function OrFallback(defaults: map<string, seq<ReactorConfig>>, eventType: string, config: Option<Chain>): Chain {
    match config
    case Some(c) => c
    case None => Chain(eventType, None, if eventType in defaults then defaults[eventType] else [], Defaults)
  }

  // ---- Steps --------------------------------------------------------------------------

  /** A cached entry answers until the millisecond after it expires. */
  predicate Hit(s: State, key: string) {
    key in s.cache && s.now <= s.cache[key].expiresAt
  }

  function OnCall(s: State, id: nat, eventType: string, scope: string): State {
    var key := CacheKey(eventType, Some(scope));
    if Hit(s, key) then s.(returned := Some(Response(eventType, scope, s.cache[key].config)))
    else
      s.(cache := s.cache - {key},
         inFlight := s.inFlight[id := Fetch(eventType, scope, s.now, AwaitScoped)],
         returned := None)
  }

  function OnScoped(s: State, id: nat): State
    requires id in s.inFlight
  {
    var f := s.inFlight[id];
    var stage :=
      if !s.env.up then Fetched(None)
      else if (f.eventType, Some(f.scope)) in s.env.table
          then Fetched(FromTable(s.env.table, f.eventType, Some(f.scope)))
      else AwaitDefault;
    s.(inFlight := s.inFlight[id := f.(stage := stage)], returned := None)
  }

  function OnDefault(s: State, id: nat): State
    requires id in s.inFlight
  {
    var f := s.inFlight[id];
    var config := if s.env.up then FromTable(s.env.table, f.eventType, None) else None;
    s.(inFlight := s.inFlight[id := f.(stage := Fetched(config))], returned := None)
  }

  function OnSettle(s: State, id: nat): State
    requires id in s.inFlight && s.inFlight[id].stage.Fetched?
  {
    var f := s.inFlight[id];
    var config := f.stage.config;
    s.(cache := s.cache[CacheKey(f.eventType, Some(f.scope)) := CacheEntry(config, s.now + CACHE_TTL_MS)],
       inFlight := s.inFlight - {id},
       returned := Some(Response(f.eventType, f.scope, config)))
  }

  /** Whether the runtime can deliver this event now. */
  predicate Enabled(s: State, e: Event) {
    match e
    case SetEnv(_) => true
    case Tick(_) => true
    case Call(id, _, _) => id !in s.inFlight
    case RunScoped(id) => id in s.inFlight && s.inFlight[id].stage.AwaitScoped?
    case RunDefault(id) => id in s.inFlight && s.inFlight[id].stage.AwaitDefault?
    case Settle(id) => id in s.inFlight && s.inFlight[id].stage.Fetched?
  }

  function Step(s: State, e: Event): State
    requires Enabled(s, e)
  {
    match e
    case SetEnv(env) => s.(env := env, returned := None)
    case Tick(ms) => s.(now := s.now + ms, returned := None)
    case Call(id, eventType, scope) => OnCall(s, id, eventType, scope)
    case RunScoped(id) => OnScoped(s, id)
    case RunDefault(id) => OnDefault(s, id)
    case Settle(id) => OnSettle(s, id)
  }

  // ---- The module-level cache, updated in place -----------------------------------------

  class Configs {
    var cache: map<string, CacheEntry>
    var inFlight: map<nat, Fetch>

    constructor ()
      ensures cache == map[] && inFlight == map[]
    {
      cache, inFlight := map[], map[];
    }

    /** None: nothing usable; Some(None): a remembered miss. */
    method GetCached(now: int, key: string) returns (entry: Option<Option<Chain>>)
      modifies `cache
      ensures entry == if key in old(cache) && now <= old(cache)[key].expiresAt
                       then Some(old(cache)[key].config) else None
      ensures cache == if entry.Some? then old(cache) else old(cache) - {key}
    {
      if key !in cache { return None; }
      if now > cache[key].expiresAt {
        cache := cache - {key};
        return None;
      }
      return Some(cache[key].config);
    }

    method SetCached(now: int, key: string, config: Option<Chain>)
      modifies `cache
      ensures cache == old(cache)[key := CacheEntry(config, now + CACHE_TTL_MS)]
    {
      cache := cache[key := CacheEntry(config, now + CACHE_TTL_MS)];
    }

    /** fetchChainConfigFromDb up to its first await, or to the end on a cache hit. */
    method Begin(id: nat, now: int, eventType: string, scope: string) returns (answer: Option<Response>)
      requires id !in inFlight
      modifies this
      ensures forall env, before: Option<Response> ::
                State(now, env, cache, inFlight, answer)
                    == Step(State(now, env, old(cache), old(inFlight), before), Call(id, eventType, scope))
    {
      var key := CacheKey(eventType, Some(scope));
      var cached := GetCached(now, key);
      if cached.Some? { return Some(Response(eventType, scope, cached.value)); }
      inFlight := inFlight[id := Fetch(eventType, scope, now, AwaitScoped)];
      return None;
    }

    method AfterScopedQuery(id: nat, now: int, env: Env)
      requires id in inFlight && inFlight[id].stage.AwaitScoped?
      modifies `inFlight
      ensures forall before: Option<Response> ::
                State(now, env, cache, inFlight, None)
                    == Step(State(now, env, old(cache), old(inFlight), before), RunScoped(id))
    {
      var f := inFlight[id];
      if !env.up {
        f := f.(stage := Fetched(None));
      } else if (f.eventType, Some(f.scope)) in env.table {
        f := f.(stage := Fetched(FromTable(env.table, f.eventType, Some(f.scope))));
      } else {
        f := f.(stage := AwaitDefault);
      }
      inFlight := inFlight[id := f];
    }

    method AfterDefaultQuery(id: nat, now: int, env: Env)
      requires id in inFlight && inFlight[id].stage.AwaitDefault?
      modifies `inFlight
      ensures forall before: Option<Response> ::
                State(now, env, cache, inFlight, None)
                    == Step(State(now, env, old(cache), old(inFlight), before), RunDefault(id))
    {
      var config := None;
      if env.up { config := FromTable(env.table, inFlight[id].eventType, None); }
      inFlight := inFlight[id := inFlight[id].(stage := Fetched(config))];
    }

    method Finish(id: nat, now: int) returns (answer: Response)
      requires id in inFlight && inFlight[id].stage.Fetched?
      modifies this
      ensures forall env, before: Option<Response> ::
                State(now, env, cache, inFlight, Some(answer))
                    == Step(State(now, env, old(cache), old(inFlight), before), Settle(id))
    {
      var f := inFlight[id];
      SetCached(now, CacheKey(f.eventType, Some(f.scope)), f.stage.config);
      inFlight := inFlight - {id};
      answer := Response(f.eventType, f.scope, f.stage.config);
    }
  }
}
