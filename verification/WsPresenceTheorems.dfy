/** What every run of the WebSocket server keeps, and exactly which callbacks can break it. */
module WsPresenceTheorems {
  import opened Wrappers
  import opened WsPresence

  // ---- Announcements ----------------------------------------------------------------

  lemma AlternatesSnoc(h: seq<bool>, b: bool)
    requires Alternates(h)
    ensures Alternates(h + [b]) <==> b == (|h| % 2 == 0)
  {
    assert (h + [b])[|h|] == b;
  }

  /** Appending an announcement keeps presence right exactly when it is a change. */
  lemma Announce(s: State, t: State, a: Announcement)
    requires PresenceInv(s) && t.announced == s.announced + [a]
    requires forall d :: d != a.did ==> (d in t.didSockets <==> d in s.didSockets)
    requires a.online <==> a.did in t.didSockets
    ensures PresenceInv(t) <==> (a.online <==> a.did !in s.didSockets)
  {
    forall d
      ensures d != a.did ==> PresentRight(t, d)
    {
      assert PresentRight(s, d);
      if d != a.did { assert History(t.announced, d) == History(s.announced, d); }
    }
    assert PresentRight(s, a.did);
    AlternatesSnoc(History(s.announced, a.did), a.online);
    if PresenceInv(t) { assert PresentRight(t, a.did); }
  }

  lemma PresenceFrame(s: State, t: State)
    requires PresenceInv(s) && t.announced == s.announced && t.didSockets.Keys == s.didSockets.Keys
    ensures PresenceInv(t)
  {
    forall d
      ensures PresentRight(t, d)
    {
      assert PresentRight(s, d);
      assert d in t.didSockets.Keys <==> d in s.didSockets.Keys;
    }
  }

  lemma IndexFrame(s: State, t: State)
    requires IndexInv(s)
    requires t.cleanedUp == s.cleanedUp && t.socketMeta == s.socketMeta && t.didSockets == s.didSockets
    requires t.meta.Keys == s.meta.Keys
    requires forall ws :: ws in s.meta ==>
               t.meta[ws].did == s.meta[ws].did && t.meta[ws].authenticated == s.meta[ws].authenticated
    ensures IndexInv(t)
  {
    forall d, ws ensures ws in Sockets(t, d) <==> Owner(t, ws) == Some(d) {
      assert ws in t.meta.Keys <==> ws in s.meta.Keys;
      assert ws in Sockets(s, d) <==> Owner(s, ws) == Some(d);
    }
  }

  // ---- Sockets joining a DID ----------------------------------------------------------

  lemma CardinalityOfAdd<T>(a: set<T>, x: T)
    ensures |a + {x}| == 1 <==> a <= {x}
  {
    if a <= {x} { assert a + {x} == {x}; }
    if |a + {x}| == 1 {
      forall y | y in a ensures y == x {
        if y != x { assert |a + {x}| >= |{x, y}| by { SubsetSize({x, y}, a + {x}); } }
      }
    }
  }

  lemma {:induction false} SubsetSize<T>(a: set<T>, b: set<T>)
    requires a <= b
    ensures |a| <= |b|
    decreases a
  {
    if a != {} {
      var x :| x in a;
      SubsetSize(a - {x}, b - {x});
    }
  }

  lemma SocketsAfterAdd(s: State, ws: Socket, d: Did, e: Did)
    ensures Sockets(AddOwnSocket(s, ws, d), e) == Sockets(s, e) + if e == d then {ws} else {}
  {
  }

  /** A socket that no set holds yet joins its DID's set. */
  lemma AddOwnSocketKeeps(s: State, ws: Socket, d: Did)
    requires PresenceInv(s) && TypingInv(s) && NoEmptySet(s)
    requires ws !in Sockets(s, d)
    ensures PresenceInv(AddOwnSocket(s, ws, d)) && TypingInv(AddOwnSocket(s, ws, d))
            && NoEmptySet(AddOwnSocket(s, ws, d))
  {
    var t := AddOwnSocket(s, ws, d);
    CardinalityOfAdd(Sockets(s, d), ws);
    if Sockets(s, d) == {} {
      Announce(s, t, Announcement(d, true));
    } else {
      assert t.announced == s.announced;
      assert t.didSockets.Keys == s.didSockets.Keys;
      PresenceFrame(s, t);
    }
  }

  /** `t` is `s` with the socket open and owned by `did`. */
  ghost predicate OwnerSet(s: State, t: State, ws: Socket, did: Option<Did>) {
    && t.cleanedUp == s.cleanedUp && t.didSockets == s.didSockets
    && t.socketMeta == s.socketMeta + {ws} && t.meta.Keys == s.meta.Keys + {ws}
    && t.meta[ws].did == did && t.meta[ws].authenticated == did.Some?
    && (forall x :: x in s.meta && x != ws ==> t.meta[x] == s.meta[x])
  }

  lemma OwnerAfterSet(s: State, t: State, ws: Socket, did: Option<Did>, x: Socket)
    requires OwnerSet(s, t, ws, did)
    ensures Owner(t, x) == if x == ws then did else Owner(s, x)
  {
    assert x in t.meta.Keys <==> x in s.meta.Keys + {ws};
  }

  lemma {:induction false} JoinMatches(s: State, t: State, ws: Socket, d: Did)
    requires SocketsMatchOwners(s) && OwnerSet(s, t, ws, Some(d))
    requires Owner(s, ws) == None || Owner(s, ws) == Some(d)
    ensures SocketsMatchOwners(AddOwnSocket(t, ws, d))
  {
    var u := AddOwnSocket(t, ws, d);
    forall e, x ensures x in Sockets(u, e) <==> Owner(u, x) == Some(e) {
      OwnerAfterSet(s, t, ws, Some(d), x);
      SocketsAfterAdd(t, ws, d, e);
      assert Owner(u, x) == Owner(t, x);
      assert Sockets(t, e) == Sockets(s, e);
      assert x in Sockets(s, e) <==> Owner(s, x) == Some(e);
    }
  }

  /** The index after a socket's owner is set to `d` and it joins that DID's set. */
  lemma {:induction false} JoinKeepsIndex(s: State, t: State, ws: Socket, d: Did)
    requires IndexInv(s) && OwnerSet(s, t, ws, Some(d)) && ws !in s.cleanedUp
    requires Owner(s, ws) == None || Owner(s, ws) == Some(d)
    ensures IndexInv(AddOwnSocket(t, ws, d))
  {
    JoinMatches(s, t, ws, d);
    KeysAfterSet(s, t, ws, Some(d));
    assert NoEmptySet(AddOwnSocket(t, ws, d));
  }

  lemma KeysAfterSet(s: State, t: State, ws: Socket, did: Option<Did>)
    requires s.cleanedUp <= s.meta.Keys && s.socketMeta == s.meta.Keys - s.cleanedUp && ws !in s.cleanedUp
    requires forall x :: x in s.meta ==> (s.meta[x].authenticated <==> s.meta[x].did.Some?)
    requires OwnerSet(s, t, ws, did)
    ensures t.cleanedUp <= t.meta.Keys && t.socketMeta == t.meta.Keys - t.cleanedUp
    ensures forall x :: x in t.meta ==> (t.meta[x].authenticated <==> t.meta[x].did.Some?)
  {
    forall x | x in t.meta ensures t.meta[x].authenticated <==> t.meta[x].did.Some? {
      assert x in s.meta.Keys + {ws};
    }
  }

  lemma AnonymousKeepsIndex(s: State, t: State, ws: Socket)
    requires IndexInv(s) && OwnerSet(s, t, ws, None) && ws !in s.meta
    ensures IndexInv(t)
  {
    forall e, x ensures x in Sockets(t, e) <==> Owner(t, x) == Some(e) {
      OwnerAfterSet(s, t, ws, None, x);
      assert x in Sockets(s, e) <==> Owner(s, x) == Some(e);
      assert Sockets(t, e) == Sockets(s, e);
    }
    forall x | x in t.meta ensures t.meta[x].authenticated <==> t.meta[x].did.Some? {
      assert x in s.meta.Keys + {ws};
    }
  }

  lemma ConnectionKeeps(s: State, ws: Socket, did: Option<Did>)
    requires Inv(s) && ws !in s.meta
    ensures Inv(Connection(s, ws, did))
  {
    var t := Registered(s, ws, did);
    PresenceFrame(s, t);
    if did.None? {
      AnonymousKeepsIndex(s, t, ws);
    } else {
      NewSocketJoins(s, t, ws, did.value);
    }
  }

  lemma {:induction false} NewSocketJoins(s: State, t: State, ws: Socket, d: Did)
    requires IndexInv(s) && ws !in s.meta && OwnerSet(s, t, ws, Some(d)) && PresenceInv(t) && TypingInv(t)
    ensures Inv(AddOwnSocket(t, ws, d))
  {
    JoinKeepsIndex(s, t, ws, d);
    assert ws in Sockets(s, d) <==> Owner(s, ws) == Some(d);
    AddOwnSocketKeeps(t, ws, d);
  }

  function Registered(s: State, ws: Socket, did: Option<Did>): State {
    s.(meta := s.meta[ws := Meta(did, did.Some?, {})], socketMeta := s.socketMeta + {ws})
  }

  /** A token check that settles well keeps the invariant exactly when it is benign. */
  lemma FinishAuthExact(s: State, ws: Socket, d: Did)
    requires Inv(s) && ws in s.meta && ws in s.authsInFlight
    ensures Inv(FinishAuth(s, ws, Some(d))) <==> Benign(s, AuthSettles(ws, Some(d)))
  {
    if Benign(s, AuthSettles(ws, Some(d))) {
      FinishAuthKeeps(s, ws, d);
    } else {
      FinishAuthBreaks(s, ws, d);
    }
  }

  lemma FinishAuthKeeps(s: State, ws: Socket, d: Did)
    requires Inv(s) && ws in s.meta && ws in s.authsInFlight && Benign(s, AuthSettles(ws, Some(d)))
    ensures Inv(FinishAuth(s, ws, Some(d)))
  {
    var t := s.(authsInFlight := s.authsInFlight - multiset{ws},
        meta := s.meta[ws := s.meta[ws].(did := Some(d), authenticated := true)]);
    var u := AddOwnSocket(t, ws, d);
    PresenceFrame(s, t);
    assert s.socketMeta + {ws} == s.socketMeta && s.meta.Keys + {ws} == s.meta.Keys;
    JoinKeepsIndex(s, t, ws, d);
    assert ws in Sockets(s, d) <==> Owner(s, ws) == Some(d);
    if ws in Sockets(s, d) {
      assert Sockets(s, d) + {ws} == Sockets(s, d);
      PresenceFrame(s, u);
    } else {
      AddOwnSocketKeeps(t, ws, d);
    }
  }

  lemma SoleSocket(a: set<Socket>, ws: Socket)
    requires ws in a && |a| <= 1
    ensures a == {ws}
  {
    forall y | y in a ensures y == ws {
      SubsetSize({ws, y}, a);
    }
  }

  lemma FinishAuthBreaks(s: State, ws: Socket, d: Did)
    requires Inv(s) && ws in s.meta && ws in s.authsInFlight && !Benign(s, AuthSettles(ws, Some(d)))
    ensures !Inv(FinishAuth(s, ws, Some(d)))
  {
    var u := FinishAuth(s, ws, Some(d));
    assert ws in Sockets(u, d);
    if ws !in s.socketMeta {
      // held by a DID although its connection is gone
      assert Owner(u, ws) == None;
    } else if s.meta[ws].did != Some(d) {
      // left behind in the set of the DID it had before
      var e := s.meta[ws].did.value;
      assert ws in Sockets(s, e) <==> Owner(s, ws) == Some(e);
      assert ws in Sockets(u, e) && Owner(u, ws) == Some(d);
    } else {
      // announced online although it already was
      assert ws in Sockets(s, d) <==> Owner(s, ws) == Some(d);
      SoleSocket(Sockets(s, d), ws);
      assert Sockets(s, d) + {ws} == {ws};
      Announce(s, u, Announcement(d, true));
    }
  }

  // ---- Typing -------------------------------------------------------------------------

  lemma HandleTypingKeeps(s: State, c: Channel, d: Did, name: Option<string>)
    requires TypingInv(s) && d in s.didSockets
    ensures TypingInv(HandleTyping(s, c, d, name))
  {
    var t := HandleTyping(s, c, d, name);
    forall a, e
      ensures TimerOf(t.typingStatus, a, e)
           == if (a, e) == (c, d) then Some(s.nextTimer) else TimerOf(s.typingStatus, a, e)
    {
    }
    forall u | u in t.timers && u != s.nextTimer ensures s.timers[u] != (c, d) {
      assert TimerOf(s.typingStatus, s.timers[u].0, s.timers[u].1) == Some(u);
    }
    forall a, e | TimerOf(s.typingStatus, a, e).Some? && (a, e) != (c, d)
      ensures TimerOf(s.typingStatus, a, e).value in t.timers
    {
      assert s.timers[TimerOf(s.typingStatus, a, e).value] == (a, e);
      if TimerOf(s.typingStatus, c, d).Some? { assert s.timers[TimerOf(s.typingStatus, c, d).value] == (c, d); }
    }
  }

  lemma {:induction false} HandleStopTypingKeeps(s: State, c: Channel, d: Did)
    requires TypingInv(s)
    ensures TypingInv(HandleStopTyping(s, c, d))
  {
    var t := HandleStopTyping(s, c, d);
    if c in s.typingStatus && d in s.typingStatus[c] {
      assert TimerOf(s.typingStatus, c, d).Some?;
      forall a, e
        ensures TimerOf(t.typingStatus, a, e) == if (a, e) == (c, d) then None else TimerOf(s.typingStatus, a, e)
      {
        if a == c && e != d && e in s.typingStatus[c] { assert e in s.typingStatus[c] - {d}; }
      }
      forall u | u in t.timers ensures s.timers[u] != (c, d) {
        assert TimerOf(s.typingStatus, s.timers[u].0, s.timers[u].1) == Some(u);
      }
    }
  }

  /** A fired timer stops the entry it was set for. */
  lemma FiredTimerIsItsEntry(s: State, t: TimerId)
    requires TypingInv(s) && t in s.timers
    ensures Step(s, TimerFires(t)) == HandleStopTyping(s, s.timers[t].0, s.timers[t].1)
  {
    var (c, d) := s.timers[t];
    assert TimerOf(s.typingStatus, c, d) == Some(t);
    assert s.timers - {t} - {t} == s.timers - {t};
  }

  lemma TimerOfStopped(status: map<Channel, map<Did, Typing>>, d: Did, a: Channel, e: Did)
    ensures TimerOf(StatusWithout(status, d, status.Keys), a, e) == if e == d then None else TimerOf(status, a, e)
  {
    if a in status && e in status[a] && e != d { assert e in status[a] - {d}; }
  }

  /** Stopping a DID everywhere keeps the correspondence, and frees the DID to go offline. */
  lemma StopTypingEverywhereKeeps(s: State, d: Did)
    requires TypingInv(s)
    ensures var t := StopTypingEverywhere(s, d);
            TypingOk(t.typingStatus, t.timers, t.nextTimer, s.didSockets.Keys - {d})
  {
    var t := StopTypingEverywhere(s, d);
    forall u | u in t.timers
      ensures u < t.nextTimer && TimerOf(t.typingStatus, t.timers[u].0, t.timers[u].1) == Some(u)
    {
      var (c, e) := s.timers[u];
      assert TimerOf(s.typingStatus, c, e) == Some(u);
      TimerOfStopped(s.typingStatus, d, c, e);
      assert e != d;
    }
    forall a, e | TimerOf(t.typingStatus, a, e).Some?
      ensures var u := TimerOf(t.typingStatus, a, e).value;
              u in t.timers && t.timers[u] == (a, e) && e in s.didSockets.Keys - {d}
    {
      TimerOfStopped(s.typingStatus, d, a, e);
      OtherTimersRemain(s, d, a, e);
    }
  }

  lemma OtherTimersRemain(s: State, d: Did, a: Channel, e: Did)
    requires TypingInv(s) && TimerOf(s.typingStatus, a, e).Some? && e != d
    ensures var u := TimerOf(s.typingStatus, a, e).value;
            u in s.timers && s.timers[u] == (a, e) && e in s.didSockets
                && u !in TimeoutsOf(s.typingStatus, d, s.typingStatus.Keys)
  {
    var u := TimerOf(s.typingStatus, a, e).value;
    forall c | c in s.typingStatus && d in s.typingStatus[c] ensures s.typingStatus[c][d].timeout != u {
      assert TimerOf(s.typingStatus, c, d).Some?;
    }
  }

  // ---- Closing ------------------------------------------------------------------------

  lemma CleanupKeeps(s: State, ws: Socket)
    requires Inv(s) && ws in s.meta
    ensures Inv(CleanupSocket(s, ws))
  {
    if ws !in s.cleanedUp {
      var t := s.(cleanedUp := s.cleanedUp + {ws}, socketMeta := s.socketMeta - {ws});
      var did := s.meta[ws].did;
      var u := CleanupSocket(s, ws);
      assert ws in s.socketMeta;
      if did.None? {
        PresenceFrame(s, u);
      } else {
        var d := did.value;
        assert ws in Sockets(s, d) <==> Owner(s, ws) == Some(d);
        var rest := s.didSockets[d] - {ws};
        if rest != {} {
          assert u.didSockets.Keys == s.didSockets.Keys;
          PresenceFrame(s, u);
        } else {
          assert u.didSockets.Keys == s.didSockets.Keys - {d};
          Announce(s, u, Announcement(d, false));
          StopTypingEverywhereKeeps(s, d);
        }
      }
      CleanupIndex(s, ws);
    }
  }

  lemma CleanupIndex(s: State, ws: Socket)
    requires IndexInv(s) && ws in s.meta && ws !in s.cleanedUp
    ensures IndexInv(CleanupSocket(s, ws))
  {
    var u := CleanupSocket(s, ws);
    forall e, x ensures x in Sockets(u, e) <==> Owner(u, x) == Some(e) {
      assert x in Sockets(s, e) <==> Owner(s, x) == Some(e);
      assert ws in Sockets(s, e) <==> Owner(s, ws) == Some(e);
      assert Owner(u, x) == if x == ws then None else Owner(s, x);
    }
  }

  // ---- Every step ---------------------------------------------------------------------

  lemma TypingExact(s: State, ws: Socket, c: Channel, name: Option<string>)
    requires Inv(s) && ws in s.meta && s.meta[ws].did.Some?
    ensures Inv(HandleTyping(s, c, s.meta[ws].did.value, name)) <==> s.meta[ws].did.value in s.didSockets
  {
    var d := s.meta[ws].did.value;
    var t := HandleTyping(s, c, d, name);
    if d in s.didSockets {
      HandleTypingKeeps(s, c, d, name);
      PresenceFrame(s, t);
      IndexFrame(s, t);
    } else {
      assert TimerOf(t.typingStatus, c, d).Some? && d !in t.didSockets.Keys;
    }
  }

  lemma StopTypingKeeps(s: State, c: Channel, d: Did)
    requires Inv(s)
    ensures Inv(HandleStopTyping(s, c, d))
  {
    HandleStopTypingKeeps(s, c, d);
    PresenceFrame(s, HandleStopTyping(s, c, d));
    IndexFrame(s, HandleStopTyping(s, c, d));
  }

  lemma DispatchExact(s: State, ws: Socket, msg: Message)
    requires Inv(s) && ws in s.meta
    ensures Inv(DispatchMessage(s, ws, msg)) <==> Benign(s, Sends(ws, msg))
  {
    var t := DispatchMessage(s, ws, msg);
    var meta := s.meta[ws];
    if msg.StartTyping? && meta.authenticated && FirstTruthy(msg.did, msg.conversationId).Some? {
      TypingExact(s, ws, FirstTruthy(msg.did, msg.conversationId).value, FirstTruthy(msg.name, None));
    } else if msg.StopTyping? && meta.authenticated && FirstTruthy(msg.did, msg.conversationId).Some? {
      StopTypingKeeps(s, FirstTruthy(msg.did, msg.conversationId).value, meta.did.value);
    } else {
      PresenceFrame(s, t);
      IndexFrame(s, t);
    }
  }

  /** One callback keeps the invariant if and only if it is benign. */
  lemma StepExact(s: State, e: Event)
    requires Inv(s)
    ensures Inv(Step(s, e)) <==> Benign(s, e)
  {
    match e {
      case Connects(ws, did) => if ws !in s.meta { ConnectionKeeps(s, ws, did); }
      case Sends(ws, msg) => if ws in s.meta { DispatchExact(s, ws, msg); }
      case AuthSettles(ws, authed) =>
        if ws in s.authsInFlight && ws in s.meta {
          if authed.Some? {
            FinishAuthExact(s, ws, authed.value);
          } else {
            var t := FinishAuth(s, ws, None);
            PresenceFrame(s, t);
            IndexFrame(s, t);
          }
        }
      case TimerFires(t) =>
        if t in s.timers {
          FiredTimerIsItsEntry(s, t);
          HandleStopTypingKeeps(s, s.timers[t].0, s.timers[t].1);
          PresenceFrame(s, Step(s, e));
          IndexFrame(s, Step(s, e));
        }
      case Closes(ws) => if ws in s.meta { CleanupKeeps(s, ws); }
    }
  }

  // ---- Every run ----------------------------------------------------------------------

  ghost predicate GoodThroughout(s: State, run: seq<Event>)
    decreases |run|
  {
    Inv(s) && (run != [] ==> GoodThroughout(Step(s, run[0]), run[1..]))
  }

  predicate BenignThroughout(s: State, run: seq<Event>)
    decreases |run|
  {
    run != [] ==> Benign(s, run[0]) && BenignThroughout(Step(s, run[0]), run[1..])
  }

  lemma {:induction false} RunFrom(s: State, run: seq<Event>)
    requires Inv(s)
    ensures GoodThroughout(s, run) <==> BenignThroughout(s, run)
    decreases |run|
  {
    if run != [] {
      StepExact(s, run[0]);
      if Inv(Step(s, run[0])) {
        RunFrom(Step(s, run[0]), run[1..]);
      }
    }
  }

  /** Over whole runs from start-up: every state is good if and only if every callback
      was benign in the state it ran in. */
  lemma EveryRun(run: seq<Event>)
    ensures GoodThroughout(INITIAL, run) <==> BenignThroughout(INITIAL, run)
  {
    RunFrom(INITIAL, run);
  }

  /** The intended discipline: a token check settles while its socket is open and not
      yet authenticated, and messages come from sockets that are still open. */
  predicate Orderly(s: State, e: Event) {
    match e
    case AuthSettles(ws, Some(d)) =>
      ws in s.authsInFlight && ws in s.meta ==> ws in s.socketMeta && !s.meta[ws].authenticated
    case Sends(ws, _) => ws in s.meta ==> ws in s.socketMeta
    case _ => true
  }

  lemma {:induction false} OrderlyIsBenign(s: State, e: Event)
    requires Inv(s) && Orderly(s, e)
    ensures Benign(s, e) && Inv(Step(s, e))
  {
    if e.Sends? && e.msg.StartTyping? && e.ws in s.meta && s.meta[e.ws].authenticated {
      assert e.ws in Sockets(s, s.meta[e.ws].did.value) <==> Owner(s, e.ws) == s.meta[e.ws].did;
    }
    StepExact(s, e);
  }

  function RunOf(s: State, run: seq<Event>): State
    decreases |run|
  {
    if run == [] then s else RunOf(Step(s, run[0]), run[1..])
  }

  lemma RunCons(s: State, e: Event, rest: seq<Event>)
    ensures RunOf(s, [e] + rest) == RunOf(Step(s, e), rest)
  {
    assert ([e] + rest)[1..] == rest;
  }

  function ConnectThen(rest: seq<Event>): seq<Event> {
    [Connects(1, None)] + ([Sends(1, Auth("t"))] + rest)
  }

  lemma {:induction false} ConnectThenRuns(rest: seq<Event>) returns (s: State)
    ensures RunOf(INITIAL, ConnectThen(rest)) == RunOf(s, rest)
    ensures s.authsInFlight == multiset{1} && s.meta == map[1 := Meta(None, false, {})]
    ensures s.socketMeta == {1} && s.cleanedUp == {} && s.didSockets == map[]
  {
    var a := Step(INITIAL, Connects(1, None));
    s := Step(a, Sends(1, Auth("t")));
    RunCons(INITIAL, Connects(1, None), [Sends(1, Auth("t"))] + rest);
    RunCons(a, Sends(1, Auth("t")), rest);
  }

  /** The disciplines do matter: a token check that outlives its connection leaves a
      closed socket in the index, and two checks in flight put one socket in two sets. */
  lemma LateAuthLeaksASocket(d: Did)
    ensures var s := RunOf(INITIAL, ConnectThen([Closes(1)] + ([AuthSettles(1, Some(d))] + [])));
            1 in Sockets(s, d) && 1 !in s.socketMeta
  {
    var b := ConnectThenRuns([Closes(1)] + ([AuthSettles(1, Some(d))] + []));
    var c := Step(b, Closes(1));
    RunCons(b, Closes(1), [AuthSettles(1, Some(d))] + []);
    RunCons(c, AuthSettles(1, Some(d)), []);
  }

  function SettleBoth(d: Did, e: Did): seq<Event> {
    [AuthSettles(1, Some(d))] + ([AuthSettles(1, Some(e))] + [])
  }

  lemma TwoAuthsShareASocket(d: Did, e: Did)
    ensures var s := RunOf(INITIAL, ConnectThen([Sends(1, Auth("u"))] + SettleBoth(d, e)));
            1 in Sockets(s, d) && 1 in Sockets(s, e)
  {
    var b := ConnectThenRuns([Sends(1, Auth("u"))] + SettleBoth(d, e));
    var c := Step(b, Sends(1, Auth("u")));
    RunCons(b, Sends(1, Auth("u")), SettleBoth(d, e));
    assert c.authsInFlight == multiset{1, 1};
    BothSettle(c, d, e);
  }

  lemma BothSettle(c: State, d: Did, e: Did)
    requires c.authsInFlight == multiset{1, 1} && 1 in c.meta
    ensures var s := RunOf(c, SettleBoth(d, e)); 1 in Sockets(s, d) && 1 in Sockets(s, e)
  {
    var x := Step(c, AuthSettles(1, Some(d)));
    RunCons(c, AuthSettles(1, Some(d)), [AuthSettles(1, Some(e))] + []);
    RunCons(x, AuthSettles(1, Some(e)), []);
  }

  lemma {:induction false} BenignRunEndsGood(s: State, run: seq<Event>)
    requires Inv(s) && BenignThroughout(s, run)
    ensures Inv(RunOf(s, run))
    decreases |run|
  {
    if run != [] {
      StepExact(s, run[0]);
      BenignRunEndsGood(Step(s, run[0]), run[1..]);
    }
  }

  /** After any benign run, a push to a DID goes to exactly the ready sockets that are still
      connected and authenticated as that DID, and the ready delegates registered for it;
      `(Sockets(s, d) + delegates) * ready` is what Server.SendToDid sends to. */
  lemma PushReachesExactlyTheDid(run: seq<Event>, d: Did, delegates: set<Socket>, ready: set<Socket>, ws: Socket)
    requires BenignThroughout(INITIAL, run)
    ensures var s := RunOf(INITIAL, run);
            ws in (Sockets(s, d) + delegates) * ready <==>
              && ws in ready
              && (|| ws in delegates
                  || (ws in s.meta && ws !in s.cleanedUp && s.meta[ws].authenticated && s.meta[ws].did == Some(d)))
  {
    BenignRunEndsGood(INITIAL, run);
    var s := RunOf(INITIAL, run);
    assert ws in Sockets(s, d) <==> Owner(s, ws) == Some(d);
  }

  // ---- What a good state means --------------------------------------------------------

  lemma NoSocketInTwoSets(s: State, ws: Socket, d: Did, e: Did)
    requires IndexInv(s) && ws in Sockets(s, d) && ws in Sockets(s, e)
    ensures d == e
  {
    assert Owner(s, ws) == Some(d) && Owner(s, ws) == Some(e);
  }

  /** A DID whose last announcement is online is a DID with an open authenticated socket. */
  lemma LastAnnouncementIsTheTruth(s: State, d: Did)
    requires Inv(s)
    ensures var h := History(s.announced, d);
            (h != [] && h[|h| - 1]) <==> exists ws :: Owner(s, ws) == Some(d)
  {
    var h := History(s.announced, d);
    assert PresentRight(s, d);
    if d in s.didSockets {
      var ws :| ws in s.didSockets[d];
      assert ws in Sockets(s, d);
      assert Owner(s, ws) == Some(d);
    } else {
      forall ws ensures Owner(s, ws) != Some(d) { assert ws !in Sockets(s, d); }
    }
  }

  /** Once a DID has no socket, no conversation lists it as typing and no pending
      timeout is waiting to stop it. */
  lemma OfflineLeavesNothingBehind(s: State, d: Did)
    requires TypingInv(s) && d !in s.didSockets
    ensures forall c :: c in s.typingStatus ==> d !in s.typingStatus[c]
    ensures forall t :: t in s.timers ==> s.timers[t].1 != d
  {
    forall c | c in s.typingStatus ensures d !in s.typingStatus[c] {
      assert TimerOf(s.typingStatus, c, d).Some? ==> d in s.didSockets.Keys;
    }
    forall t | t in s.timers ensures s.timers[t].1 != d {
      assert TimerOf(s.typingStatus, s.timers[t].0, s.timers[t].1) == Some(t);
    }
  }

  /** Cleaning a socket up again changes nothing. */
  lemma CleanupTwiceIsOnce(s: State, ws: Socket)
    ensures Step(Step(s, Closes(ws)), Closes(ws)) == Step(s, Closes(ws))
  {
    if ws in s.meta {
      assert ws in CleanupSocket(s, ws).cleanedUp;
      assert CleanupSocket(s, ws).meta == s.meta;
    }
  }
}
