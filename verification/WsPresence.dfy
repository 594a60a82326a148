/** The WebSocket server's bookkeeping as a state machine: one step per callback the
    runtime can deliver. A handler that awaits is two steps, before and after. */
module WsPresence {
  import opened Wrappers

  type Socket = nat
  type Did = string
  type Channel = string
  type TimerId = nat

  datatype Meta = Meta(did: Option<Did>, authenticated: bool, subscriptions: set<string>)

  datatype Typing = Typing(name: Option<string>, timeout: TimerId)

  datatype Announcement = Announcement(did: Did, online: bool)

  datatype State = State(
    meta: map<Socket, Meta>,                      // the meta object each connection's callbacks hold
    socketMeta: set<Socket>,                      // keys of socketMeta
    didSockets: map<Did, set<Socket>>,
    typingStatus: map<Channel, map<Did, Typing>>,
    timers: map<TimerId, (Channel, Did)>,         // pending timeouts and what they will stop
    nextTimer: TimerId,
    cleanedUp: set<Socket>,
    authsInFlight: multiset<Socket>,              // handleAuthMessage calls awaiting the token check
    announced: seq<Announcement>)                 // broadcastPresenceChange calls so far

  const INITIAL := State(map[], {}, map[], map[], map[], 0, {}, multiset{}, [])

  datatype Message =
    | Auth(token: string)
    | Ping
    | Subscribe(conversationId: Option<string>, did: Option<string>)
    | StartTyping(conversationId: Option<string>, did: Option<string>, name: Option<string>)
    | StopTyping(conversationId: Option<string>, did: Option<string>)
    | Other

  datatype Event =
    | Connects(ws: Socket, did: Option<Did>)
    | Sends(ws: Socket, msg: Message)
    | AuthSettles(ws: Socket, authed: Option<Did>)
    | TimerFires(timer: TimerId)
    | Closes(ws: Socket)

  function Sockets(s: State, d: Did): set<Socket> {
    if d in s.didSockets then s.didSockets[d] else {}
  }

  function TypingIn(s: State, c: Channel): map<Did, Typing> {
    if c in s.typingStatus then s.typingStatus[c] else map[]
  }

  // ---- Handlers ---------------------------------------------------------------------

  /** Add the socket to its DID's set; announce the DID if this is its only socket. */
  function AddOwnSocket(s: State, ws: Socket, d: Did): State {
    var sockets := Sockets(s, d) + {ws};
    s.(didSockets := s.didSockets[d := sockets],
       announced := s.announced + if |sockets| == 1 then [Announcement(d, true)] else [])
  }

  function Connection(s: State, ws: Socket, did: Option<Did>): State {
    var t := s.(meta := s.meta[ws := Meta(did, did.Some?, {})], socketMeta := s.socketMeta + {ws});
    if did.Some? then AddOwnSocket(t, ws, did.value) else t
  }

  /** handleAuthMessage after the token check settles. */
  function FinishAuth(s: State, ws: Socket, authed: Option<Did>): State
    requires ws in s.meta
  {
    var t := s.(authsInFlight := s.authsInFlight - multiset{ws});
    if authed.None? then t
    else AddOwnSocket(t.(meta := t.meta[ws := t.meta[ws].(did := authed, authenticated := true)]), ws, authed.value)
  }

  function HandleTyping(s: State, c: Channel, d: Did, name: Option<string>): State {
    var typing := TypingIn(s, c);
    var pending := if d in typing then s.timers - {typing[d].timeout} else s.timers;
    s.(timers := pending[s.nextTimer := (c, d)],
       nextTimer := s.nextTimer + 1,
       typingStatus := s.typingStatus[c := typing[d := Typing(name, s.nextTimer)]])
  }

  function HandleStopTyping(s: State, c: Channel, d: Did): State {
    if c !in s.typingStatus || d !in s.typingStatus[c] then s
    else
      var rest := s.typingStatus[c] - {d};
      s.(timers := s.timers - {s.typingStatus[c][d].timeout},
         typingStatus := if rest == map[] then s.typingStatus - {c} else s.typingStatus[c := rest])
  }

  /** The conversations after `d` stops typing in `cs`, emptied ones dropped. */
  function StatusWithout(status: map<Channel, map<Did, Typing>>, d: Did, cs: set<Channel>)
    : map<Channel, map<Did, Typing>>
  {
    map c | c in status && (c in cs && d in status[c] ==> status[c] - {d} != map[]) ::
      if c in cs then status[c] - {d} else status[c]
  }

  function TimeoutsOf(status: map<Channel, map<Did, Typing>>, d: Did, cs: set<Channel>): set<TimerId> {
    set c | c in cs && c in status && d in status[c] :: status[c][d].timeout
  }

  /** Stop `d` typing in every conversation: what the loop in cleanupSocket adds up to. */
  function StopTypingEverywhere(s: State, d: Did): State {
    s.(timers := s.timers - TimeoutsOf(s.typingStatus, d, s.typingStatus.Keys),
       typingStatus := StatusWithout(s.typingStatus, d, s.typingStatus.Keys))
  }

  function CleanupSocket(s: State, ws: Socket): State
    requires ws in s.meta
  {
    if ws in s.cleanedUp then s
    else
      var t := s.(cleanedUp := s.cleanedUp + {ws}, socketMeta := s.socketMeta - {ws});
      var did := s.meta[ws].did;
      if did.None? || did.value !in s.didSockets then t
      else
        var rest := s.didSockets[did.value] - {ws};
        if rest != {} then t.(didSockets := t.didSockets[did.value := rest])
        else
          var u := StopTypingEverywhere(t.(didSockets := t.didSockets - {did.value}), did.value);
          u.(announced := u.announced + [Announcement(did.value, false)])
  }

  /** `a || b` on strings that may be missing: the first that is present and not empty. */
  function FirstTruthy(a: Option<string>, b: Option<string>): Option<string> {
    if a.Some? && a.value != "" then a else if b.Some? && b.value != "" then b else None
  }

  function OnlyTruthy(a: Option<string>): set<string> {
    if a.Some? && a.value != "" then {a.value} else {}
  }

  function DispatchMessage(s: State, ws: Socket, msg: Message): State
    requires ws in s.meta
  {
    var meta := s.meta[ws];
    if msg.Auth? && msg.token != "" && !meta.authenticated then
      s.(authsInFlight := s.authsInFlight + multiset{ws})
    else if !meta.authenticated || meta.did.None? then s
    else
      match msg
      case Subscribe(c, d) =>
        s.(meta := s.meta[ws := meta.(subscriptions := meta.subscriptions + OnlyTruthy(c) + OnlyTruthy(d))])
      case StartTyping(c, d, name) =>
        var channel := FirstTruthy(d, c);
        if channel.Some? then HandleTyping(s, channel.value, meta.did.value, FirstTruthy(name, None)) else s
      case StopTyping(c, d) =>
        var channel := FirstTruthy(d, c);
        if channel.Some? then HandleStopTyping(s, channel.value, meta.did.value) else s
      case _ => s
  }

  /** One callback. A callback that cannot occur (a second connection of the same
      socket, a timer that is not pending, ...) changes nothing. */
  function Step(s: State, e: Event): State {
    match e
    case Connects(ws, did) => if ws in s.meta then s else Connection(s, ws, did)
    case Sends(ws, msg) => if ws in s.meta then DispatchMessage(s, ws, msg) else s
    case AuthSettles(ws, authed) => if ws in s.authsInFlight && ws in s.meta then FinishAuth(s, ws, authed) else s
    case TimerFires(t) =>
      if t in s.timers then HandleStopTyping(s.(timers := s.timers - {t}), s.timers[t].0, s.timers[t].1) else s
    case Closes(ws) => if ws in s.meta then CleanupSocket(s, ws) else s
  }

  // ---- What every good state satisfies ------------------------------------------------

  /** The DID a socket speaks for while it is open to us. */
  function Owner(s: State, ws: Socket): Option<Did> {
    if ws in s.socketMeta && ws in s.meta then s.meta[ws].did else None
  }

  /** The indexes agree: a socket is in a DID's set exactly when it is open to us and
      authenticated as that DID, and no DID keeps an empty set. */
  ghost predicate IndexInv(s: State) {
    && s.cleanedUp <= s.meta.Keys
    && s.socketMeta == s.meta.Keys - s.cleanedUp
    && (forall ws :: ws in s.meta ==> (s.meta[ws].authenticated <==> s.meta[ws].did.Some?))
    && NoEmptySet(s)
    && SocketsMatchOwners(s)
  }

  ghost predicate SocketsMatchOwners(s: State) {
    forall d, ws :: ws in Sockets(s, d) <==> Owner(s, ws) == Some(d)
  }

  ghost predicate NoEmptySet(s: State) {
    forall d :: d in s.didSockets ==> s.didSockets[d] != {}
  }

  /** The timeout that will stop `d` typing in `c`, if `c` lists `d`. */
  function TimerOf(status: map<Channel, map<Did, Typing>>, c: Channel, d: Did): Option<TimerId> {
    if c in status && d in status[c] then Some(status[c][d].timeout) else None
  }

  /** One pending timeout per typing entry and one entry per pending timeout, no empty
      conversation, and nobody offline is typing. */
  ghost predicate TypingOk(status: map<Channel, map<Did, Typing>>, timers: map<TimerId, (Channel, Did)>,
                           next: TimerId, online: set<Did>)
  {
    && (forall c :: c in status ==> status[c] != map[])
    && (forall c, d :: TimerOf(status, c, d).Some? ==>
          && TimerOf(status, c, d).value in timers
          && timers[TimerOf(status, c, d).value] == (c, d)
          && d in online)
    && (forall t :: t in timers ==> t < next && TimerOf(status, timers[t].0, timers[t].1) == Some(t))
  }

  ghost predicate TypingInv(s: State) {
    TypingOk(s.typingStatus, s.timers, s.nextTimer, s.didSockets.Keys)
  }

  function History(tr: seq<Announcement>, d: Did): seq<bool> {
    if tr == [] then []
    else History(tr[..|tr| - 1], d) + if tr[|tr| - 1].did == d then [tr[|tr| - 1].online] else []
  }

  predicate Alternates(h: seq<bool>) {
    forall i :: 0 <= i < |h| ==> h[i] == (i % 2 == 0)
  }

  /** Each DID's announcements go online, offline, online, ... and the last one is
      online exactly when the DID has a socket. */
  ghost predicate PresenceInv(s: State) {
    forall d :: PresentRight(s, d)
  }

  predicate PresentRight(s: State, d: Did) {
    Alternates(History(s.announced, d)) && (|History(s.announced, d)| % 2 == 1 <==> d in s.didSockets)
  }

  ghost predicate Inv(s: State) {
    IndexInv(s) && TypingInv(s) && PresenceInv(s)
  }

  /** The condition each callback has to meet, as a guard on the state it runs in.
      Only two kinds of callback have one: a token check that settles must find its
      socket still open and either not yet authenticated, or already in the same
      DID's set beside another socket; and a typing message must come from a DID
      that has a socket. */
  predicate Benign(s: State, e: Event) {
    match e
    case AuthSettles(ws, Some(d)) =>
      ws in s.authsInFlight && ws in s.meta ==>
        && ws in s.socketMeta
        && (s.meta[ws].did == None || (s.meta[ws].did == Some(d) && |Sockets(s, d)| > 1))
    case Sends(ws, StartTyping(c, d, _)) =>
      ws in s.meta && s.meta[ws].authenticated && s.meta[ws].did.Some? && FirstTruthy(d, c).Some? ==>
        s.meta[ws].did.value in s.didSockets
    case _ => true
  }
}
