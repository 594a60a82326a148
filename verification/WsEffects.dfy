/** What each callback does to what can be observed: who is listed as typing where and with
    which pending timeout, who subscribes to what, which sockets speak for a DID, and what
    is announced. */
module WsEffects {
  import opened Wrappers
  import opened WsPresence
  import opened WsPresenceTheorems

  /** How `d` is listed in conversation `c`, if it is. */
  function ListedAs(s: State, c: Channel, d: Did): Option<Typing> {
    if c in s.typingStatus && d in s.typingStatus[c] then Some(s.typingStatus[c][d]) else None
  }

  ghost predicate NothingPending(s: State, c: Channel, d: Did) {
    forall t :: t in s.timers ==> s.timers[t] != (c, d)
  }

  ghost predicate OnlyPending(s: State, c: Channel, d: Did, timer: TimerId) {
    forall t :: t in s.timers && s.timers[t] == (c, d) <==> t == timer
  }

  // ---- What stays ---------------------------------------------------------------------------

  /** Nothing about who is connected and as whom. */
  predicate SameSockets(s: State, t: State) {
    && t.meta == s.meta && t.socketMeta == s.socketMeta && t.didSockets == s.didSockets
    && t.cleanedUp == s.cleanedUp && t.authsInFlight == s.authsInFlight && t.announced == s.announced
  }

  predicate SameTyping(s: State, t: State) {
    t.typingStatus == s.typingStatus && t.timers == s.timers
  }

  /** All entries and timeouts but those of `d` in `c`. */
  ghost predicate SameTypingBut(s: State, t: State, c: Channel, d: Did) {
    && (forall a, e :: (a, e) != (c, d) ==> ListedAs(t, a, e) == ListedAs(s, a, e))
    && (forall u :: u in s.timers && s.timers[u] != (c, d) ==> u in t.timers && t.timers[u] == s.timers[u])
    && (forall u :: u in t.timers && t.timers[u] != (c, d) ==> u in s.timers && s.timers[u] == t.timers[u])
  }

  ghost predicate SameSocketsBut(s: State, t: State, d: Did) {
    forall e :: e != d ==> Sockets(t, e) == Sockets(s, e)
  }

  // ---- Typing -------------------------------------------------------------------------------

  ghost predicate Stopped(s: State, t: State, c: Channel, d: Did) {
    SameSockets(s, t) && SameTypingBut(s, t, c, d) && ListedAs(t, c, d) == None && NothingPending(t, c, d)
  }

  ghost predicate Started(s: State, t: State, c: Channel, d: Did, name: Option<string>) {
    && SameSockets(s, t) && SameTypingBut(s, t, c, d)
    && ListedAs(t, c, d).Some? && ListedAs(t, c, d).value.name == name
    && OnlyPending(t, c, d, ListedAs(t, c, d).value.timeout)
    && ListedAs(t, c, d).value.timeout !in s.timers
  }

  /** The pending timeout of an entry is the one it names, and it is the only one. */
  lemma {:induction false} OwnTimer(s: State, c: Channel, d: Did)
    requires TypingInv(s)
    ensures forall u :: u in s.timers && s.timers[u] == (c, d) <==> TimerOf(s.typingStatus, c, d) == Some(u)
    ensures s.nextTimer !in s.timers
  {
    forall u | u in s.timers ensures TimerOf(s.typingStatus, s.timers[u].0, s.timers[u].1) == Some(u) {
    }
  }

  lemma {:induction false} StopLeavesOthers(s: State, c: Channel, d: Did, a: Channel, e: Did)
    requires (a, e) != (c, d)
    ensures ListedAs(HandleStopTyping(s, c, d), a, e) == ListedAs(s, a, e)
  {
    if ListedAs(s, c, d).Some? && a == c && e in s.typingStatus[c] { assert e in s.typingStatus[c] - {d}; }
  }

  lemma {:induction false} StopDoes(s: State, c: Channel, d: Did)
    requires TypingInv(s)
    ensures Stopped(s, HandleStopTyping(s, c, d), c, d)
  {
    OwnTimer(s, c, d);
    forall a, e | (a, e) != (c, d) ensures ListedAs(HandleStopTyping(s, c, d), a, e) == ListedAs(s, a, e) {
      StopLeavesOthers(s, c, d, a, e);
    }
  }

  lemma {:induction false} StartDoes(s: State, c: Channel, d: Did, name: Option<string>)
    requires TypingInv(s)
    ensures Started(s, HandleTyping(s, c, d, name), c, d, name)
  {
    OwnTimer(s, c, d);
  }

  // ---- Messages -----------------------------------------------------------------------------

  predicate Given(id: Option<string>, x: string) {
    id == Some(x) && x != ""
  }

  /** A typing message speaks of the DID it names, or else of the conversation. */
  predicate Addresses(conversationId: Option<string>, did: Option<string>, x: Channel) {
    Given(did, x) || (Given(conversationId, x) && (did.None? || did.value == ""))
  }

  ghost predicate AddressesNothing(conversationId: Option<string>, did: Option<string>) {
    forall x :: !Addresses(conversationId, did, x)
  }

  /** A name that is empty is no name. */
  predicate ShownAs(given: Option<string>, shown: Option<string>) {
    if shown.Some? then Given(given, shown.value) else given.None? || given.value == ""
  }

  /** The subscriptions of one socket grow by the ids given, and nothing else changes. */
  ghost predicate Subscribed(s: State, t: State, ws: Socket, c: Option<string>, d: Option<string>) {
    && ws in s.meta && ws in t.meta
    && t == s.(meta := s.meta[ws := s.meta[ws].(subscriptions := t.meta[ws].subscriptions)])
    && forall x :: x in t.meta[ws].subscriptions <==> x in s.meta[ws].subscriptions || Given(c, x) || Given(d, x)
  }

  ghost predicate DoesTyping(s: State, t: State, c: Option<string>, d: Option<string>, me: Did, name: Option<string>) {
    && (forall x | Addresses(c, d, x) :: exists shown :: ShownAs(name, shown) && Started(s, t, x, me, shown))
    && (AddressesNothing(c, d) ==> t == s)
  }

  ghost predicate DoesStopTyping(s: State, t: State, c: Option<string>, d: Option<string>, me: Did) {
    (forall x | Addresses(c, d, x) :: Stopped(s, t, x, me)) && (AddressesNothing(c, d) ==> t == s)
  }

  /** What a message from this socket does. */
  ghost predicate MessageDoes(s: State, t: State, ws: Socket, msg: Message)
    requires ws in s.meta
  {
    if !s.meta[ws].authenticated || s.meta[ws].did.None? then
      t == s.(authsInFlight := s.authsInFlight + if msg.Auth? && msg.token != "" && !s.meta[ws].authenticated
                                                 then multiset{ws} else multiset{})
    else
      match msg
      case Subscribe(c, d) => Subscribed(s, t, ws, c, d)
      case StartTyping(c, d, name) => DoesTyping(s, t, c, d, s.meta[ws].did.value, name)
      case StopTyping(c, d) => DoesStopTyping(s, t, c, d, s.meta[ws].did.value)
      case _ => t == s
  }

  lemma {:induction false} OneAddress(c: Option<string>, d: Option<string>)
    ensures FirstTruthy(d, c).None? <==> AddressesNothing(c, d)
    ensures forall x :: Addresses(c, d, x) <==> FirstTruthy(d, c) == Some(x)
  {
    if FirstTruthy(d, c).Some? { assert Addresses(c, d, FirstTruthy(d, c).value); }
  }

  lemma {:induction false} TypingMessageDoes(s: State, ws: Socket, c: Option<string>, d: Option<string>,
                                             name: Option<string>)
    requires Inv(s) && ws in s.meta && s.meta[ws].authenticated && s.meta[ws].did.Some?
    ensures DoesTyping(s, DispatchMessage(s, ws, StartTyping(c, d, name)), c, d, s.meta[ws].did.value, name)
  {
    var t, me := DispatchMessage(s, ws, StartTyping(c, d, name)), s.meta[ws].did.value;
    OneAddress(c, d);
    forall x | Addresses(c, d, x) ensures exists shown :: ShownAs(name, shown) && Started(s, t, x, me, shown) {
      StartDoes(s, x, me, FirstTruthy(name, None));
      assert ShownAs(name, FirstTruthy(name, None));
    }
  }

  lemma {:induction false} StopMessageDoes(s: State, ws: Socket, c: Option<string>, d: Option<string>)
    requires Inv(s) && ws in s.meta && s.meta[ws].authenticated && s.meta[ws].did.Some?
    ensures DoesStopTyping(s, DispatchMessage(s, ws, StopTyping(c, d)), c, d, s.meta[ws].did.value)
  {
    OneAddress(c, d);
    var t, me := DispatchMessage(s, ws, StopTyping(c, d)), s.meta[ws].did.value;
    forall x | Addresses(c, d, x) ensures Stopped(s, t, x, me) {
      StopDoes(s, x, me);
    }
  }

  lemma {:induction false} SendsDoes(s: State, ws: Socket, msg: Message)
    requires Inv(s) && ws in s.meta
    ensures MessageDoes(s, Step(s, Sends(ws, msg)), ws, msg)
  {
    if s.meta[ws].authenticated && s.meta[ws].did.Some? {
      match msg {
        case StartTyping(c, d, name) => TypingMessageDoes(s, ws, c, d, name);
        case StopTyping(c, d) => StopMessageDoes(s, ws, c, d);
        case _ =>
      }
    }
  }

  // ---- Sockets ------------------------------------------------------------------------------

  /** One more socket speaks for `d`; `d` is announced exactly when it is the only one. */
  ghost predicate Joins(s: State, t: State, ws: Socket, d: Did) {
    && Sockets(t, d) == Sockets(s, d) + {ws} && SameSocketsBut(s, t, d)
    && (Sockets(t, d) == {ws} ==> t.announced == s.announced + [Announcement(d, true)])
    && (Sockets(t, d) != {ws} ==> t.announced == s.announced)
  }

  ghost predicate ConnectDoes(s: State, t: State, ws: Socket, did: Option<Did>) {
    && t.meta == s.meta[ws := Meta(did, did.Some?, {})] && t.socketMeta == s.socketMeta + {ws}
    && t.cleanedUp == s.cleanedUp && t.authsInFlight == s.authsInFlight && SameTyping(s, t)
    && (if did.Some? then Joins(s, t, ws, did.value) else t.didSockets == s.didSockets && t.announced == s.announced)
  }

  ghost predicate SettleDoes(s: State, t: State, ws: Socket, authed: Option<Did>)
    requires ws in s.meta
  {
    && t.authsInFlight == s.authsInFlight - multiset{ws} && t.socketMeta == s.socketMeta
    && t.cleanedUp == s.cleanedUp && SameTyping(s, t)
    && (if authed.Some? then
          t.meta == s.meta[ws := Meta(authed, true, s.meta[ws].subscriptions)] && Joins(s, t, ws, authed.value)
        else t.meta == s.meta && t.didSockets == s.didSockets && t.announced == s.announced)
  }

  /** One socket fewer speaks for `d`; with the last one, `d` is announced offline and stops
      typing everywhere. */
  ghost predicate Leaves(s: State, t: State, ws: Socket, d: Did) {
    && Sockets(t, d) == Sockets(s, d) - {ws} && SameSocketsBut(s, t, d)
    && (Sockets(t, d) != {} ==> t.announced == s.announced && SameTyping(s, t))
    && (Sockets(t, d) == {} ==>
          && t.announced == s.announced + [Announcement(d, false)]
          && (forall c, e :: ListedAs(t, c, e) == if e == d then None else ListedAs(s, c, e))
          && (forall u :: u in t.timers <==> u in s.timers && s.timers[u].1 != d)
          && (forall u :: u in t.timers ==> t.timers[u] == s.timers[u]))
  }

  ghost predicate CloseDoes(s: State, t: State, ws: Socket)
    requires ws in s.meta
  {
    if ws in s.cleanedUp then t == s
    else
      && t.meta == s.meta && t.authsInFlight == s.authsInFlight
      && t.cleanedUp == s.cleanedUp + {ws} && t.socketMeta == s.socketMeta - {ws}
      && (if s.meta[ws].did.Some? then Leaves(s, t, ws, s.meta[ws].did.value)
          else t.didSockets == s.didSockets && t.announced == s.announced && SameTyping(s, t))
  }

  lemma {:induction false} JoinDoes(s: State, ws: Socket, d: Did)
    ensures Joins(s, AddOwnSocket(s, ws, d), ws, d)
  {
    CardinalityOfAdd(Sockets(s, d), ws);
    forall e ensures Sockets(AddOwnSocket(s, ws, d), e) == Sockets(s, e) + if e == d then {ws} else {} {
      SocketsAfterAdd(s, ws, d, e);
    }
  }

  lemma {:induction false} ConnectsDoes(s: State, ws: Socket, did: Option<Did>)
    requires ws !in s.meta
    ensures ConnectDoes(s, Step(s, Connects(ws, did)), ws, did)
  {
    if did.Some? { JoinDoes(Registered(s, ws, did), ws, did.value); }
  }

  lemma {:induction false} AuthSettlesDoes(s: State, ws: Socket, authed: Option<Did>)
    requires ws in s.meta && ws in s.authsInFlight
    ensures SettleDoes(s, Step(s, AuthSettles(ws, authed)), ws, authed)
  {
    if authed.Some? {
      JoinDoes(s.(authsInFlight := s.authsInFlight - multiset{ws},
                  meta := s.meta[ws := s.meta[ws].(did := authed, authenticated := true)]), ws, authed.value);
    }
  }

  lemma {:induction false} StopEverywhereDoes(s: State, d: Did)
    requires TypingInv(s)
    ensures var t := StopTypingEverywhere(s, d);
            && (forall c, e :: ListedAs(t, c, e) == if e == d then None else ListedAs(s, c, e))
            && (forall u :: u in t.timers <==> u in s.timers && s.timers[u].1 != d)
  {
    var t := StopTypingEverywhere(s, d);
    forall c, e ensures ListedAs(t, c, e) == if e == d then None else ListedAs(s, c, e) {
      if ListedAs(s, c, e).Some? && e != d { assert e in s.typingStatus[c] - {d}; }
    }
    forall u | u in s.timers ensures u in TimeoutsOf(s.typingStatus, d, s.typingStatus.Keys) <==> s.timers[u].1 == d {
      assert TimerOf(s.typingStatus, s.timers[u].0, s.timers[u].1) == Some(u);
      if c :| c in s.typingStatus && d in s.typingStatus[c] && s.typingStatus[c][d].timeout == u {
        assert TimerOf(s.typingStatus, c, d) == Some(u);
      }
    }
  }

  lemma {:induction false} ClosesDoes(s: State, ws: Socket)
    requires Inv(s) && ws in s.meta
    ensures CloseDoes(s, Step(s, Closes(ws)), ws)
  {
    if ws !in s.cleanedUp && s.meta[ws].did.Some? {
      var d := s.meta[ws].did.value;
      assert ws in Sockets(s, d) <==> Owner(s, ws) == Some(d);
      StopEverywhereDoes(s, d);
    }
  }

  /** A timeout that fires stops the entry it was set for. */
  lemma {:induction false} TimerFiresDoes(s: State, timer: TimerId)
    requires TypingInv(s) && timer in s.timers
    ensures Stopped(s, Step(s, TimerFires(timer)), s.timers[timer].0, s.timers[timer].1)
  {
    FiredTimerIsItsEntry(s, timer);
    StopDoes(s, s.timers[timer].0, s.timers[timer].1);
  }
}
