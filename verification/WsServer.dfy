/** The WebSocket server itself: module-level maps updated in place by its handlers,
    each handler proved to make exactly the step the state machine describes. */
module WsServer {
  import opened Wrappers
  import opened WsPresence

  lemma OneMoreStatus(status: map<Channel, map<Did, Typing>>, d: Did, cs: set<Channel>, c: Channel)
    requires c in status && c !in cs && d in status[c]
    ensures var t := StatusWithout(status, d, cs);
            && c in t && t[c] == status[c]
            && StatusWithout(status, d, cs + {c}) == if t[c] - {d} == map[] then t - {c} else t[c := t[c] - {d}]
  {
  }

  lemma NothingToStop(status: map<Channel, map<Did, Typing>>, d: Did, cs: set<Channel>, c: Channel)
    requires c in status && c !in cs && d !in status[c]
    ensures c in StatusWithout(status, d, cs) && StatusWithout(status, d, cs)[c] == status[c]
    ensures StatusWithout(status, d, cs + {c}) == StatusWithout(status, d, cs)
    ensures TimeoutsOf(status, d, cs + {c}) == TimeoutsOf(status, d, cs)
  {
    assert status[c] - {d} == status[c];
  }

  class Server {
    var meta: map<Socket, Meta>
    var socketMeta: set<Socket>
    var didSockets: map<Did, set<Socket>>
    var typingStatus: map<Channel, map<Did, Typing>>
    var timers: map<TimerId, (Channel, Did)>
    var nextTimer: TimerId
    var cleanedUpSockets: set<Socket>
    var authsInFlight: multiset<Socket>
    var announced: seq<Announcement>

    function Snapshot(): State
      reads this
    {
      State(meta, socketMeta, didSockets, typingStatus, timers, nextTimer, cleanedUpSockets, authsInFlight, announced)
    }

    constructor ()
      ensures Snapshot() == INITIAL
    {
      meta, socketMeta, didSockets, typingStatus := map[], {}, map[], map[];
      timers, nextTimer, cleanedUpSockets, authsInFlight, announced := map[], 0, {}, multiset{}, [];
    }

    method SetTimeout(c: Channel, d: Did) returns (timeout: TimerId)
      modifies `timers, `nextTimer
      ensures timeout == old(nextTimer) && nextTimer == old(nextTimer) + 1
      ensures timers == old(timers)[timeout := (c, d)]
    {
      timeout := nextTimer;
      timers := timers[timeout := (c, d)];
      nextTimer := nextTimer + 1;
    }

    method ClearTimeout(timeout: TimerId)
      modifies `timers
      ensures timers == old(timers) - {timeout}
    {
      timers := timers - {timeout};
    }

    method BroadcastPresenceChange(d: Did, isOnline: bool)
      modifies `announced
      ensures announced == old(announced) + [Announcement(d, isOnline)]
    {
      announced := announced + [Announcement(d, isOnline)];
    }

    method StartTypingIn(conversationId: Channel, did: Did, name: Option<string>)
      modifies this
      ensures Snapshot() == HandleTyping(old(Snapshot()), conversationId, did, name)
    {
      if conversationId !in typingStatus {
        typingStatus := typingStatus[conversationId := map[]];
      }
      if did in typingStatus[conversationId] {
        ClearTimeout(typingStatus[conversationId][did].timeout);
      }
      var timeout := SetTimeout(conversationId, did);
      typingStatus := typingStatus[conversationId := typingStatus[conversationId][did := Typing(name, timeout)]];
    }

    method StopTypingOf(conversationId: Channel, did: Did)
      modifies `timers, `typingStatus
      ensures Snapshot() == HandleStopTyping(old(Snapshot()), conversationId, did)
    {
      if conversationId !in typingStatus { return; }
      if did !in typingStatus[conversationId] { return; }
      ClearTimeout(typingStatus[conversationId][did].timeout);
      typingStatus := typingStatus[conversationId := typingStatus[conversationId] - {did}];
      if typingStatus[conversationId] == map[] {
        typingStatus := typingStatus - {conversationId};
      }
      assert typingStatus == HandleStopTyping(old(Snapshot()), conversationId, did).typingStatus;
    }

    method AddSocket(ws: Socket, did: Did)
      modifies `didSockets, `announced
      ensures Snapshot() == AddOwnSocket(old(Snapshot()), ws, did)
    {
      if did !in didSockets {
        didSockets := didSockets[did := {}];
      }
      didSockets := didSockets[did := didSockets[did] + {ws}];
      if |didSockets[did]| == 1 {
        BroadcastPresenceChange(did, true);
      }
    }

    /** The connection callback of the upgrade handler. */
    method OnConnection(ws: Socket, did: Option<Did>)
      modifies this
      ensures Snapshot() == Connection(old(Snapshot()), ws, did)
    {
      meta := meta[ws := Meta(did, did.Some?, {})];
      socketMeta := socketMeta + {ws};
      if did.Some? {
        AddSocket(ws, did.value);
      }
    }

    /** handleAuthMessage from the point where its await returns. */
    method OnAuthSettled(ws: Socket, authedDid: Option<Did>)
      requires ws in meta
      modifies this
      ensures Snapshot() == FinishAuth(old(Snapshot()), ws, authedDid)
    {
      authsInFlight := authsInFlight - multiset{ws};
      if authedDid.None? { return; }
      meta := meta[ws := meta[ws].(did := authedDid)];
      meta := meta[ws := meta[ws].(authenticated := true)];
      AddSocket(ws, authedDid.value);
    }

    method Dispatch(ws: Socket, msg: Message)
      requires ws in meta
      modifies this
      ensures Snapshot() == DispatchMessage(old(Snapshot()), ws, msg)
    {
      if msg.Auth? && msg.token != "" && !meta[ws].authenticated {
        authsInFlight := authsInFlight + multiset{ws};
        return;
      }
      if !meta[ws].authenticated || meta[ws].did.None? { return; }
      match msg {
        case Subscribe(c, d) =>
          var m := meta[ws];
          if c.Some? && c.value != "" { m := m.(subscriptions := m.subscriptions + {c.value}); }
          if d.Some? && d.value != "" { m := m.(subscriptions := m.subscriptions + {d.value}); }
          assert m.subscriptions == meta[ws].subscriptions + OnlyTruthy(c) + OnlyTruthy(d);
          meta := meta[ws := m];
        case StartTyping(c, d, name) =>
          var channel := FirstTruthy(d, c);
          if channel.Some? { StartTypingIn(channel.value, meta[ws].did.value, FirstTruthy(name, None)); }
        case StopTyping(c, d) =>
          var channel := FirstTruthy(d, c);
          if channel.Some? { StopTypingOf(channel.value, meta[ws].did.value); }
        case _ =>
      }
    }

    /** Remove a socket from every index; on its DID's last socket, stop the DID's
        typing entries one conversation at a time, in whatever order the map yields. */
    method Cleanup(ws: Socket)
      requires ws in meta
      modifies this
      ensures Snapshot() == CleanupSocket(old(Snapshot()), ws)
    {
      if ws in cleanedUpSockets { return; }
      cleanedUpSockets := cleanedUpSockets + {ws};
      socketMeta := socketMeta - {ws};
      var closeDid := meta[ws].did;
      if closeDid.None? { return; }
      if closeDid.value !in didSockets { return; }
      var sockets := didSockets[closeDid.value] - {ws};
      didSockets := didSockets[closeDid.value := sockets];
      if sockets != {} { return; }
      didSockets := didSockets - {closeDid.value};
      assert didSockets == old(didSockets) - {closeDid.value};
      StopEverywhere(closeDid.value);
      BroadcastPresenceChange(closeDid.value, false);
    }

    method StopEverywhere(did: Did)
      modifies `timers, `typingStatus
      ensures Snapshot() == StopTypingEverywhere(old(Snapshot()), did)
    {
      ghost var status, pending := typingStatus, timers;
      var todo := typingStatus.Keys;
      ghost var done: set<Channel> := {};
      while todo != {}
        invariant todo == status.Keys - done && done <= status.Keys
        invariant typingStatus == StatusWithout(status, did, done)
        invariant timers == pending - TimeoutsOf(status, did, done)
        decreases todo
      {
        var c :| c in todo;
        if did in status[c] {
          OneMoreStatus(status, did, done, c);
        } else {
          NothingToStop(status, did, done, c);
        }
        if did in typingStatus[c] {
          StopTypingOf(c, did);
        }
        todo := todo - {c};
        done := done + {c};
      }
      assert done == status.Keys;
    }

    /** Send to each socket that is still open among a DID's own and the delegates the
        also-registry holds for it. */
    method SendToDid(did: Did, delegates: set<Socket>, ready: set<Socket>) returns (sent: bool, recipients: set<Socket>)
      ensures recipients == (Sockets(Snapshot(), did) + delegates) * ready
      ensures sent <==> recipients != {}
    {
      sent, recipients := false, {};
      var own := if did in didSockets then didSockets[did] else {};
      var all := own + delegates;
      var todo := all;
      while todo != {}
        invariant todo <= all
        invariant recipients == (all - todo) * ready
        invariant sent <==> recipients != {}
        decreases todo
      {
        var ws :| ws in todo;
        todo := todo - {ws};
        if ws in ready {
          recipients := recipients + {ws};
          sent := true;
        }
      }
    }
  }
}
