/** Fan-out of one event to the agents whose live grants entitle them to it. */
module Subscriptions {
  import opened Wrappers

  datatype ScopeEntry = ScopeEntry(scope: string, eventTypes: seq<string>)

  datatype Audience = All | Dids(values: seq<string>)

  /** A delegation grant and the state of each capability on it. */
  datatype Grant = Grant(grantId: string, agentDid: string, active: bool, expiresAt: int, audience: Audience,
                         capabilities: map<string, bool>)

  datatype GrantRow = GrantRow(agentDid: string, grantId: string, audience: Audience)

  datatype Push = Push(agentDid: string, grantId: string)

  // ---- The scope table and its reverse index ----------------------------------------------

  /** The map from scope to entry: of entries sharing a scope, the last. */
  function ScopeEntryOf(registry: seq<ScopeEntry>, scope: string): Option<ScopeEntry> {
    if registry == [] then None
    else if registry[|registry| - 1].scope == scope then Some(registry[|registry| - 1])
    else ScopeEntryOf(registry[..|registry| - 1], scope)
  }

  /** The scope table says this scope covers this event type. */
  predicate Covers(registry: seq<ScopeEntry>, scope: string, eventType: string) {
    ScopeEntryOf(registry, scope).Some? && eventType in ScopeEntryOf(registry, scope).value.eventTypes
  }

  /** The scopes of `entries`, in table order, that cover the event type in `registry`. */
  function Covering(registry: seq<ScopeEntry>, entries: seq<ScopeEntry>, eventType: string): seq<string> {
    if entries == [] then []
    else
      var last := entries[|entries| - 1].scope;
      Covering(registry, entries[..|entries| - 1], eventType) + if Covers(registry, last, eventType) then [last] else []
  }

  lemma CoveringSnoc(registry: seq<ScopeEntry>, entries: seq<ScopeEntry>, n: nat, eventType: string)
    requires n < |entries|
    ensures Covering(registry, entries[..n + 1], eventType)
         == Covering(registry, entries[..n], eventType)
            + if Covers(registry, entries[n].scope, eventType) then [entries[n].scope] else []
  {
    assert entries[..n + 1][..n] == entries[..n];
  }

  /** eventTypesForGrantScopes on one scope: the entry's event types, each once. */
  method EventTypesForScope(registry: seq<ScopeEntry>, scope: string) returns (eventTypes: seq<string>)
    ensures forall t :: t in eventTypes <==> Covers(registry, scope, t)
    ensures forall i, j :: 0 <= i < j < |eventTypes| ==> eventTypes[i] != eventTypes[j]
  {
    eventTypes := [];
    var entry := ScopeEntryOf(registry, scope);
    if entry.None? { return; }
    var ts := entry.value.eventTypes;
    for i := 0 to |ts|
      invariant forall t :: t in eventTypes <==> t in ts[..i]
      invariant forall i, j :: 0 <= i < j < |eventTypes| ==> eventTypes[i] != eventTypes[j]
    {
      if ts[i] !in eventTypes { eventTypes := eventTypes + [ts[i]]; }
    }
  }

  function Listed(index: map<string, seq<string>>, eventType: string): seq<string> {
    if eventType in index then index[eventType] else []
  }

  ghost predicate IndexesFirst(registry: seq<ScopeEntry>, index: map<string, seq<string>>, n: nat)
    requires n <= |registry|
  {
    forall t :: Listed(index, t) == Covering(registry, registry[..n], t)
  }

  /** One scope's event types, appended to their lists. */
  method IndexScope(registry: seq<ScopeEntry>, index0: map<string, seq<string>>, n: nat)
    returns (index: map<string, seq<string>>)
    requires n < |registry| && IndexesFirst(registry, index0, n)
    ensures IndexesFirst(registry, index, n + 1)
  {
    var scope := registry[n].scope;
    var types := EventTypesForScope(registry, scope);
    index := index0;
    for i := 0 to |types|
      invariant forall t :: Listed(index, t) == Listed(index0, t) + if t in types[..i] then [scope] else []
    {
      assert types[i] !in types[..i];
      assert types[..i + 1] == types[..i] + [types[i]];
      index := index[types[i] := Listed(index, types[i]) + [scope]];
    }
    assert types[..|types|] == types;
    forall t
      ensures Listed(index, t) == Covering(registry, registry[..n + 1], t)
    {
      CoveringSnoc(registry, registry, n, t);
    }
  }

  /** The index, built on first use and kept. */
  class ReverseIndex {
    const registry: seq<ScopeEntry>
    var capabilitiesByEventType: Option<map<string, seq<string>>>

    ghost predicate Valid()
      reads this
    {
      capabilitiesByEventType.Some? ==> IndexesFirst(registry, capabilitiesByEventType.value, |registry|)
    }

    constructor (table: seq<ScopeEntry>)
      ensures Valid() && registry == table
    {
      registry, capabilitiesByEventType := table, None;
    }

    /** The scopes that entitle an event type: the same on the first call and on every later one. */
    method CapabilitiesEntitling(eventType: string) returns (capabilities: seq<string>)
      requires Valid()
      modifies `capabilitiesByEventType
      ensures Valid() && capabilitiesByEventType.Some?
      ensures old(capabilitiesByEventType).Some? ==> capabilitiesByEventType == old(capabilitiesByEventType)
      ensures capabilities == Covering(registry, registry, eventType)
    {
      if capabilitiesByEventType.None? {
        var index: map<string, seq<string>> := map[];
        for n := 0 to |registry|
          invariant IndexesFirst(registry, index, n)
          invariant capabilitiesByEventType.None?
        {
          index := IndexScope(registry, index, n);
        }
        capabilitiesByEventType := Some(index);
      }
      assert registry[..|registry|] == registry;
      capabilities := Listed(capabilitiesByEventType.value, eventType);
    }
  }

  lemma {:induction false} EntryOfListed(registry: seq<ScopeEntry>, scope: string)
    ensures ScopeEntryOf(registry, scope).Some? <==> exists i :: 0 <= i < |registry| && registry[i].scope == scope
  {
    if registry != [] {
      var front := registry[..|registry| - 1];
      EntryOfListed(front, scope);
      if i :| 0 <= i < |registry| && registry[i].scope == scope {
        assert i < |front| ==> front[i].scope == scope;
      }
    }
  }

  lemma {:induction false} InCovering(registry: seq<ScopeEntry>, entries: seq<ScopeEntry>, eventType: string,
                                      scope: string)
    ensures scope in Covering(registry, entries, eventType)
       <==> (exists i :: 0 <= i < |entries| && entries[i].scope == scope) && Covers(registry, scope, eventType)
  {
    if entries != [] {
      var front := entries[..|entries| - 1];
      InCovering(registry, front, eventType, scope);
      if i :| 0 <= i < |entries| && entries[i].scope == scope {
        assert i < |front| ==> front[i].scope == scope;
      }
    }
  }

  /** The reverse index is the exact inverse of the scope table. */
  lemma IndexIsTheInverse(registry: seq<ScopeEntry>, eventType: string, scope: string)
    ensures scope in Covering(registry, registry, eventType) <==> Covers(registry, scope, eventType)
  {
    InCovering(registry, registry, eventType, scope);
    EntryOfListed(registry, scope);
  }

  ghost predicate DistinctScopes(registry: seq<ScopeEntry>) {
    forall i, j :: 0 <= i < j < |registry| ==> registry[i].scope != registry[j].scope
  }

  /** Given a table without repeated scopes, it lists none twice. */
  lemma {:induction false} IndexListsOnce(registry: seq<ScopeEntry>, entries: seq<ScopeEntry>, eventType: string)
    requires DistinctScopes(entries)
    ensures var cs := Covering(registry, entries, eventType); forall i, j :: 0 <= i < j < |cs| ==> cs[i] != cs[j]
  {
    if entries != [] {
      var front, last := entries[..|entries| - 1], entries[|entries| - 1].scope;
      IndexListsOnce(registry, front, eventType);
      InCovering(registry, front, eventType, last);
      var cs := Covering(registry, front, eventType);
      forall i | 0 <= i < |cs| ensures cs[i] != last { assert cs[i] in cs; }
    }
  }

  // ---- Who is pushed to ---------------------------------------------------------------------

  predicate AudienceAllows(audience: Audience, target: string) {
    match audience
    case All => true
    case Dids(values) => target in values
  }

  /** The grant is live now and one of its live capabilities is in the list. */
  predicate Entitled(g: Grant, capabilities: seq<string>, now: int) {
    g.active && g.expiresAt > now && exists i :: 0 <= i < |capabilities| && LiveCapability(g, capabilities[i])
  }

  predicate LiveCapability(g: Grant, capability: string) {
    capability in g.capabilities && g.capabilities[capability]
  }

  function RowOf(g: Grant): GrantRow {
    GrantRow(g.agentDid, g.grantId, g.audience)
  }

  /** What the lookup may return: the distinct rows of the entitled grants, in any order. */
  ghost predicate LookedUp(rows: seq<GrantRow>, grants: set<Grant>, capabilities: seq<string>, now: int) {
    && (forall r :: r in rows <==> exists g :: g in grants && Entitled(g, capabilities, now) && RowOf(g) == r)
    && (forall i, j :: 0 <= i < j < |rows| ==> rows[i] != rows[j])
  }

  ghost predicate OnePerAgent(pushes: seq<Push>) {
    forall i, j :: 0 <= i < j < |pushes| ==> pushes[i].agentDid != pushes[j].agentDid
  }

  /** The push's grant is the first row of its agent that admits the subject. */
  ghost predicate FirstMatch(rows: seq<GrantRow>, subject: string, p: Push) {
    exists i :: 0 <= i < |rows| && rows[i].agentDid == p.agentDid && rows[i].grantId == p.grantId
      && AudienceAllows(rows[i].audience, subject)
      && forall k :: 0 <= k < i && rows[k].agentDid == p.agentDid ==> !AudienceAllows(rows[k].audience, subject)
  }

  ghost predicate AllFirst(rows: seq<GrantRow>, subject: string, pushes: seq<Push>) {
    forall i :: 0 <= i < |pushes| ==> FirstMatch(rows, subject, pushes[i])
  }

  predicate Reached(pushes: seq<Push>, agent: string) {
    exists i :: 0 <= i < |pushes| && pushes[i].agentDid == agent
  }

  ghost predicate SomeRowAdmits(rows: seq<GrantRow>, subject: string, agent: string) {
    exists i :: 0 <= i < |rows| && rows[i].agentDid == agent && AudienceAllows(rows[i].audience, subject)
  }

  /** The per-agent loop: one push to every agent with a row that admits the subject, and
      to no other, carrying the first such row's grant. */
  method Dedupe(rows: seq<GrantRow>, subject: string) returns (pushes: seq<Push>)
    ensures OnePerAgent(pushes) && AllFirst(rows, subject, pushes)
    ensures forall agent :: Reached(pushes, agent) <==> SomeRowAdmits(rows, subject, agent)
  {
    pushes := [];
    var seen: set<string> := {};
    for n := 0 to |rows|
      invariant forall agent :: agent in seen <==> Reached(pushes, agent)
      invariant forall agent :: agent in seen <==> SomeRowAdmits(rows[..n], subject, agent)
      invariant OnePerAgent(pushes) && AllFirst(rows, subject, pushes)
    {
      var row := rows[n];
      if !AudienceAllows(row.audience, subject) { continue; }
      if row.agentDid !in seen {
        var p := Push(row.agentDid, row.grantId);
        ReachedSnoc(pushes, p);
        pushes := pushes + [p];
        seen := seen + {row.agentDid};
      }
    }
    assert rows[..|rows|] == rows;
  }

  lemma ReachedSnoc(pushes: seq<Push>, p: Push)
    ensures forall agent :: Reached(pushes + [p], agent) <==> Reached(pushes, agent) || agent == p.agentDid
  {
    forall agent ensures Reached(pushes + [p], agent) <==> Reached(pushes, agent) || agent == p.agentDid {
      assert (pushes + [p])[|pushes|] == p;
      assert forall i :: 0 <= i < |pushes| ==> (pushes + [p])[i] == pushes[i];
    }
  }

  // ---- From grants to pushes ----------------------------------------------------------------

  /** The scope table lists the event type for this scope: under its last entry. */
  ghost predicate TableCovers(registry: seq<ScopeEntry>, scope: string, eventType: string) {
    exists i :: 0 <= i < |registry| && registry[i].scope == scope && eventType in registry[i].eventTypes
                && forall k :: i < k < |registry| ==> registry[k].scope != scope
  }

  lemma {:induction false} CoversIsTable(registry: seq<ScopeEntry>, scope: string, eventType: string)
    ensures Covers(registry, scope, eventType) <==> TableCovers(registry, scope, eventType)
  {
    if registry != [] {
      var front, last := registry[..|registry| - 1], registry[|registry| - 1];
      CoversIsTable(front, scope, eventType);
      if last.scope != scope {
        if i :| 0 <= i < |registry| && registry[i].scope == scope && eventType in registry[i].eventTypes
                && forall k :: i < k < |registry| ==> registry[k].scope != scope {
          assert front[i] == registry[i];
          assert forall k :: i < k < |front| ==> front[k] == registry[k];
        }
        if i :| 0 <= i < |front| && front[i].scope == scope && eventType in front[i].eventTypes
                && forall k :: i < k < |front| ==> front[k].scope != scope {
          assert registry[i] == front[i];
          assert forall k :: i < k < |front| ==> registry[k] == front[k];
        }
      }
    }
  }

  /** This grant, live now, entitles its agent to an event of this type about this subject:
      its audience is everyone or names the subject, and one of its capabilities is on and
      covers the type in the scope table. */
  ghost predicate Admits(registry: seq<ScopeEntry>, g: Grant, eventType: string, subject: string, now: int) {
    && g.active && g.expiresAt > now && (g.audience == All || (g.audience.Dids? && subject in g.audience.values))
    && exists capability :: capability in g.capabilities && g.capabilities[capability]
                            && TableCovers(registry, capability, eventType)
  }

  lemma EntitledIffCovered(registry: seq<ScopeEntry>, g: Grant, eventType: string, subject: string, now: int)
    ensures Admits(registry, g, eventType, subject, now)
       <==> Entitled(g, Covering(registry, registry, eventType), now) && AudienceAllows(g.audience, subject)
  {
    var cs := Covering(registry, registry, eventType);
    if Admits(registry, g, eventType, subject, now) {
      var capability :| capability in g.capabilities && g.capabilities[capability]
                        && TableCovers(registry, capability, eventType);
      CoversIsTable(registry, capability, eventType);
      IndexIsTheInverse(registry, eventType, capability);
      var i :| 0 <= i < |cs| && cs[i] == capability;
    }
    if Entitled(g, cs, now) {
      var i :| 0 <= i < |cs| && LiveCapability(g, cs[i]);
      assert cs[i] in cs;
      IndexIsTheInverse(registry, eventType, cs[i]);
      CoversIsTable(registry, cs[i], eventType);
    }
  }

  ghost predicate SomeGrantAdmits(registry: seq<ScopeEntry>, grants: set<Grant>, eventType: string, subject: string,
                                  now: int, agent: string)
  {
    exists g :: g in grants && g.agentDid == agent && Admits(registry, g, eventType, subject, now)
  }

  /** The rows that came back admit an agent exactly when one of its grants does, whatever
      order they came in. */
  lemma RowsAdmitIffGrantsDo(registry: seq<ScopeEntry>, grants: set<Grant>, rows: seq<GrantRow>, eventType: string,
                             subject: string, now: int, agent: string)
    requires LookedUp(rows, grants, Covering(registry, registry, eventType), now)
    ensures SomeRowAdmits(rows, subject, agent) <==> SomeGrantAdmits(registry, grants, eventType, subject, now, agent)
  {
    if SomeRowAdmits(rows, subject, agent) {
      var i :| 0 <= i < |rows| && rows[i].agentDid == agent && AudienceAllows(rows[i].audience, subject);
      assert rows[i] in rows;
      var g :| g in grants && Entitled(g, Covering(registry, registry, eventType), now) && RowOf(g) == rows[i];
      EntitledIffCovered(registry, g, eventType, subject, now);
    }
    if SomeGrantAdmits(registry, grants, eventType, subject, now, agent) {
      var g :| g in grants && g.agentDid == agent && Admits(registry, g, eventType, subject, now);
      EntitledIffCovered(registry, g, eventType, subject, now);
      assert RowOf(g) in rows;
      var i :| 0 <= i < |rows| && rows[i] == RowOf(g);
    }
  }

  /** The provenance a push carries is one of its own agent's grants, and one that admits. */
  lemma ProvenanceAdmits(registry: seq<ScopeEntry>, grants: set<Grant>, rows: seq<GrantRow>, eventType: string,
                         subject: string, now: int, p: Push)
    requires LookedUp(rows, grants, Covering(registry, registry, eventType), now) && FirstMatch(rows, subject, p)
    ensures AdmittedBy(registry, grants, eventType, subject, now, p)
  {
    var i :| 0 <= i < |rows| && rows[i].agentDid == p.agentDid && rows[i].grantId == p.grantId
        && AudienceAllows(rows[i].audience, subject);
    assert rows[i] in rows;
    var g :| g in grants && Entitled(g, Covering(registry, registry, eventType), now) && RowOf(g) == rows[i];
    EntitledIffCovered(registry, g, eventType, subject, now);
  }

  /** Entitling event types are exactly those some scope in the table covers. */
  lemma SomeCapabilityIff(registry: seq<ScopeEntry>, eventType: string)
    ensures Covering(registry, registry, eventType) != [] <==> exists scope :: TableCovers(registry, scope, eventType)
  {
    var cs := Covering(registry, registry, eventType);
    if cs != [] {
      assert cs[0] in cs;
      IndexIsTheInverse(registry, eventType, cs[0]);
      CoversIsTable(registry, cs[0], eventType);
    }
    if scope :| TableCovers(registry, scope, eventType) {
      CoversIsTable(registry, scope, eventType);
      IndexIsTheInverse(registry, eventType, scope);
    }
  }

  /** What the world does to one delivery: whether the event can be logged, what the grant
      lookup answers for a list of capabilities (None: it fails), and whether pushing is
      configured at all. */
  datatype World = World(logs: bool, lookup: seq<string> -> Option<seq<GrantRow>>, configured: bool)

  /** Each push carries a grant of its own agent that admits the event. */
  ghost predicate AllAdmitted(registry: seq<ScopeEntry>, grants: set<Grant>, eventType: string, subject: string,
                              now: int, pushes: seq<Push>)
  {
    forall i :: 0 <= i < |pushes| ==> AdmittedBy(registry, grants, eventType, subject, now, pushes[i])
  }

  ghost predicate AdmittedBy(registry: seq<ScopeEntry>, grants: set<Grant>, eventType: string, subject: string,
                             now: int, p: Push)
  {
    exists g :: g in grants && g.agentDid == p.agentDid && g.grantId == p.grantId
        && Admits(registry, g, eventType, subject, now)
  }

  /** Exactly the agents with an admitting grant are pushed to. */
  ghost predicate ReachesExactly(registry: seq<ScopeEntry>, grants: set<Grant>, eventType: string, subject: string,
                                 now: int, pushes: seq<Push>)
  {
    forall agent :: Reached(pushes, agent) <==> SomeGrantAdmits(registry, grants, eventType, subject, now, agent)
  }

  lemma PushesAreRight(registry: seq<ScopeEntry>, grants: set<Grant>, rows: seq<GrantRow>, eventType: string,
                       subject: string, now: int, pushes: seq<Push>)
    requires LookedUp(rows, grants, Covering(registry, registry, eventType), now)
    requires AllFirst(rows, subject, pushes)
    requires forall agent :: Reached(pushes, agent) <==> SomeRowAdmits(rows, subject, agent)
    ensures ReachesExactly(registry, grants, eventType, subject, now, pushes)
    ensures AllAdmitted(registry, grants, eventType, subject, now, pushes)
  {
    forall agent ensures Reached(pushes, agent) <==> SomeGrantAdmits(registry, grants, eventType, subject, now, agent) {
      RowsAdmitIffGrantsDo(registry, grants, rows, eventType, subject, now, agent);
    }
    forall i | 0 <= i < |pushes| ensures AdmittedBy(registry, grants, eventType, subject, now, pushes[i]) {
      ProvenanceAdmits(registry, grants, rows, eventType, subject, now, pushes[i]);
    }
  }

  /** deliverToSubscribers: for every scope table and every set of grants, the event is
      logged if any scope covers it; then each agent with an admitting grant is pushed to
      once and no other agent is, or no one at all if the log write or the lookup failed
      or pushing is not configured. */
  method Deliver(index: ReverseIndex, eventType: string, subject: string, world: World, ghost grants: set<Grant>,
                 ghost now: int)
    returns (persisted: bool, pushes: seq<Push>)
    requires index.Valid()
    requires var cs := Covering(index.registry, index.registry, eventType);
             world.lookup(cs).Some? ==> LookedUp(world.lookup(cs).value, grants, cs, now)
    modifies index
    ensures index.Valid()
    ensures persisted <==> world.logs && exists scope :: TableCovers(index.registry, scope, eventType)
    ensures OnePerAgent(pushes) && AllAdmitted(index.registry, grants, eventType, subject, now, pushes)
    ensures if persisted && world.lookup(Covering(index.registry, index.registry, eventType)).Some? && world.configured
            then ReachesExactly(index.registry, grants, eventType, subject, now, pushes)
            else pushes == []
  {
    pushes := [];
    var capabilities := index.CapabilitiesEntitling(eventType);
    SomeCapabilityIff(index.registry, eventType);
    persisted := |capabilities| > 0 && world.logs;
    if !persisted { return; }
    var rows := world.lookup(capabilities);
    if rows.None? { return; }
    var matched := Dedupe(rows.value, subject);
    PushesAreRight(index.registry, grants, rows.value, eventType, subject, now, matched);
    if |matched| > 0 && !world.configured { return; }
    pushes := matched;
  }
}
