/** Routing of decoded messages to handlers and of outgoing messages to sessions. */
module Router {
  import opened Bytes
  import opened Codec
  import opened Session
  import opened UserSessions
  import WriteQueue

  /** A decoded message with the session it came in on; the router fills in the sender. */
  class MsgPack {
    const senderSessionId: nat
    const msg: DecodedMessage
    var senderId: nat

    constructor (senderSessionId: nat, msg: DecodedMessage)
      ensures this.senderSessionId == senderSessionId && this.msg == msg && senderId == 0
    {
      this.senderSessionId, this.msg, senderId := senderSessionId, msg, 0;
    }
  }

  /** A message handler. The router does not keep it alive: `alive` is whether it can still be locked; `accepts` is
      what it returns for a message. */
  class Handler {
    var alive: bool
    const accepts: bool
    var received: seq<MsgPack>

    constructor (accepts: bool)
      ensures alive && this.accepts == accepts && received == []
    {
      alive, this.accepts, received := true, accepts, [];
    }

    method HandleDecodedMsg(pack: MsgPack) returns (accepted: bool)
      modifies this`received
      ensures accepted == accepts && received == old(received) + [pack]
    {
      received := received + [pack];
      return accepts;
    }
  }

  /** A connection to which `bytes` have been sent, if they have. */
  ghost function Queued(before: WriteQueue.Conn, sent: bool, bytes: seq<Byte>): WriteQueue.Conn {
    if sent then WriteQueue.Step(before, WriteQueue.SendTask(bytes)) else before
  }

  /** A connection to which `bytes` have been sent `n` times. */
  ghost function QueuedTimes(before: WriteQueue.Conn, n: nat, bytes: seq<Byte>): WriteQueue.Conn {
    if n == 0 then before else Queued(QueuedTimes(before, n - 1, bytes), true, bytes)
  }

  /** How often a connection is among the targets of a broadcast. */
  ghost function Count(targets: seq<WriteQueue.TcpConnection?>, c: WriteQueue.TcpConnection): nat {
    if targets == [] then 0 else Count(targets[..|targets| - 1], c) + if targets[|targets| - 1] == c then 1 else 0
  }

  type States = map<WriteQueue.TcpConnection, WriteQueue.Conn>

  /** Connections of which one, if any, has been sent `bytes`. */
  ghost function SentOne(states: States, target: WriteQueue.TcpConnection?, bytes: seq<Byte>): States {
    map c | c in states :: Queued(states[c], c == target && bytes != [], bytes)
  }

  /** Connections after `bytes` have been sent to each of the targets. */
  ghost function SentAll(states: States, targets: seq<WriteQueue.TcpConnection?>, bytes: seq<Byte>): States {
    map c | c in states :: QueuedTimes(states[c], if bytes == [] then 0 else Count(targets, c), bytes)
  }

  lemma SentNext(states: States, targets: seq<WriteQueue.TcpConnection?>, i: nat, bytes: seq<Byte>)
    requires i < |targets|
    ensures SentAll(states, targets[..0], bytes) == states
    ensures SentAll(states, targets[..i + 1], bytes) == SentOne(SentAll(states, targets[..i], bytes), targets[i], bytes)
  {
    hide WriteQueue.Step;
    assert targets[..0] == [] && targets[..i + 1][..i] == targets[..i];
  }

  lemma SentNone(states: States, targets: seq<WriteQueue.TcpConnection?>, bytes: seq<Byte>)
    ensures SentAll(states, [], bytes) == states
    ensures SentAll(states, targets, []) == states
  {
  }

  /** What sends and broadcasts do to open connections: the bytes are accepted behind what was accepted before, once
      for every send that is not refused, and nothing else is; closed connections stay as they are. */
  lemma QueuedMeans(c: WriteQueue.Conn, n: nat, bytes: seq<Byte>)
    requires WriteQueue.Inv(c)
    ensures Queued(c, false, bytes) == c && Queued(c, true, bytes) == QueuedTimes(c, 1, bytes)
    ensures var d := QueuedTimes(c, n, bytes);
            WriteQueue.Inv(d) && if c.closed then d == c else !d.closed && d.accepted == c.accepted + seq(n, _ => bytes)
    decreases n
  {
    hide WriteQueue.Inv, WriteQueue.Step;
    assert QueuedTimes(c, 0, bytes) == c;
    if n != 0 {
      var init := QueuedTimes(c, n - 1, bytes);
      QueuedMeans(c, n - 1, bytes);
      WriteQueue.SendQueues(init, bytes);
      WriteQueue.StepInv(init, WriteQueue.SendTask(bytes));
      assert seq(n, _ => bytes) == seq(n - 1, _ => bytes) + [bytes];
    }
  }

  /** How often a target occurs, counted by its places. */
  lemma {:induction false} CountPlaces(targets: seq<WriteQueue.TcpConnection?>, c: WriteQueue.TcpConnection)
    ensures Count(targets, c) == |set i | 0 <= i < |targets| && targets[i] == c|
    decreases |targets|
  {
    if targets != [] {
      var init, last := targets[..|targets| - 1], |targets| - 1;
      CountPlaces(init, c);
      var before := set i | 0 <= i < |init| && init[i] == c;
      assert (set i | 0 <= i < |targets| && targets[i] == c) == if targets[last] == c then before + {last} else before;
    }
  }

  lemma StampOnce(msg: EncodeMessage, generatedId: nat)
    ensures Outgoing(WithId(msg, generatedId), generatedId) == Outgoing(msg, generatedId)
  {
    hide Encode;
  }

  class MsgRouter {
    const userSessionMap: UserSessionMap
    /** The sessions the session manager would return, and whether the manager can be locked. */
    var sessions: map<nat, ClientSession>
    var managerAlive: bool
    var msgHandlers: map<Byte, Handler>

    constructor (userSessionMap: UserSessionMap)
      ensures this.userSessionMap == userSessionMap && msgHandlers == map[] && sessions == map[] && !managerAlive
    {
      this.userSessionMap := userSessionMap;
      sessions, managerAlive, msgHandlers := map[], false, map[];
    }

    /** The connection a message to session `id` would be written to. */
    ghost function ConnectionOf(id: nat): WriteQueue.TcpConnection?
      reads this`sessions, this`managerAlive, sessions.Values
    {
      if managerAlive && id in sessions then sessions[id].connection else null
    }

    /** The connection a message to the user would be written to. */
    ghost function TargetOf(userId: nat): WriteQueue.TcpConnection?
      reads this`sessions, this`managerAlive, sessions.Values, userSessionMap
    {
      var sid := SessionOf(userSessionMap.State(), userId);
      if sid == 0 then null else ConnectionOf(sid)
    }

    ghost function Targets(userIds: seq<nat>): (targets: seq<WriteQueue.TcpConnection?>)
      reads this`sessions, this`managerAlive, sessions.Values, userSessionMap
      ensures |targets| == |userIds| && forall i :: 0 <= i < |userIds| ==> targets[i] == TargetOf(userIds[i])
    {
      if userIds == [] then [] else Targets(userIds[..|userIds| - 1]) + [TargetOf(userIds[|userIds| - 1])]
    }

    /** The connections of all sessions. */
    ghost function Connections(): set<WriteQueue.TcpConnection>
      reads this`sessions, sessions.Values
    {
      set sid | sid in sessions && sessions[sid].connection != null :: sessions[sid].connection
    }

    ghost predicate ConnectionsValid()
      reads this`sessions, sessions.Values, Connections()
    {
      forall c :: c in Connections() ==> c.Valid()
    }

    method RegisterUserSession(userId: nat, session: ClientSession?) returns (ok: bool)
      modifies userSessionMap
      ensures ok == (session != null)
      ensures userSessionMap.State()
              == if ok then Step(old(userSessionMap.State()), Register(userId, session.sessionId))
                 else old(userSessionMap.State())
    {
      if session == null {
        return false;
      }
      userSessionMap.BindUser(userId, session.sessionId);
      return true;
    }

    method RegisterMsgHandler(mainType: Byte, handler: Handler)
      modifies this`msgHandlers
      ensures msgHandlers == old(msgHandlers)[mainType := handler]
    {
      msgHandlers := msgHandlers[mainType := handler];
    }

    method UnregisterMsgHandler(mainType: Byte) returns (found: bool)
      modifies this`msgHandlers
      ensures msgHandlers == old(msgHandlers) - {mainType} && found == (mainType in old(msgHandlers))
    {
      found := mainType in msgHandlers;
      msgHandlers := msgHandlers - {mainType};
    }

    /** The message is stamped with an identifier as soon as there is a session for it. */
    method SendMessageToSession(id: nat, msg: EncodeMessage, generatedId: nat)
      returns (sent: bool, stamped: EncodeMessage)
      requires ConnectionOf(id) != null ==> ConnectionOf(id).Valid()
      modifies ConnectionOf(id)
      ensures stamped == if managerAlive && id in sessions then WithId(msg, generatedId) else msg
      ensures sent == (ConnectionOf(id) != null && Outgoing(msg, generatedId) != [])
      ensures ConnectionOf(id) == old(ConnectionOf(id))
      ensures ConnectionOf(id) != null ==>
                && ConnectionOf(id).Valid()
                && ConnectionOf(id).State() == Queued(old(ConnectionOf(id).State()), sent, Outgoing(msg, generatedId))
    {
      if !managerAlive || id !in sessions {
        return false, msg;
      }
      sent, stamped := sessions[id].SendMessage(msg, generatedId);
    }

    /** Sends to the session the user is bound to, and to no other. */
    method SendMessageToUser(userId: nat, msg: EncodeMessage, generatedId: nat)
      returns (sent: bool, stamped: EncodeMessage)
      requires var target := ConnectionOf(SessionOf(userSessionMap.State(), userId)); target != null ==> target.Valid()
      modifies ConnectionOf(SessionOf(userSessionMap.State(), userId))
      ensures var sid := SessionOf(userSessionMap.State(), userId);
              && stamped == (if sid != 0 && managerAlive && sid in sessions then WithId(msg, generatedId) else msg)
              && sent == (sid != 0 && ConnectionOf(sid) != null && Outgoing(msg, generatedId) != [])
              && ConnectionOf(sid) == old(ConnectionOf(SessionOf(userSessionMap.State(), userId)))
              && (ConnectionOf(sid) != null ==>
                    var before := old(ConnectionOf(SessionOf(userSessionMap.State(), userId)).State());
                    && ConnectionOf(sid).Valid()
                    && ConnectionOf(sid).State() == Queued(before, sent, Outgoing(msg, generatedId)))
    {
      var sid := userSessionMap.GetSessionId(userId);
      if sid == 0 {
        return false, msg;
      }
      sent, stamped := SendMessageToSession(sid, msg, generatedId);
    }

    ghost function ConnectionStates(): States
      reads this`sessions, sessions.Values, Connections()
    {
      map c | c in Connections() :: c.State()
    }

    /** One send of a broadcast: no connection but the user's is touched. */
    method SendNext(userId: nat, msg: EncodeMessage, generatedId: nat) returns (sent: bool, stamped: EncodeMessage)
      requires ConnectionsValid()
      modifies Connections()
      ensures Connections() == old(Connections()) && TargetOf(userId) == old(TargetOf(userId)) && ConnectionsValid()
      ensures sent == (TargetOf(userId) != null && Outgoing(msg, generatedId) != [])
      ensures Outgoing(stamped, generatedId) == Outgoing(msg, generatedId)
      ensures ConnectionStates() == SentOne(old(ConnectionStates()), TargetOf(userId), Outgoing(msg, generatedId))
    {
      hide Outgoing, WriteQueue.Inv, WriteQueue.Step;
      StampOnce(msg, generatedId);
      sent, stamped := SendMessageToUser(userId, msg, generatedId);
    }

    /** Sends one message to several users in turn. Each connection gets it once for every user it is the target of,
        or not at all if it cannot be encoded. */
    method SendToUsers(userIds: seq<nat>, msg: EncodeMessage, generatedId: nat) returns (sent: seq<bool>)
      requires ConnectionsValid()
      modifies Connections()
      ensures Connections() == old(Connections()) && Targets(userIds) == old(Targets(userIds)) && ConnectionsValid()
      ensures |sent| == |userIds|
      ensures forall i :: 0 <= i < |userIds| ==>
                sent[i] == (Targets(userIds)[i] != null && Outgoing(msg, generatedId) != [])
      ensures ConnectionStates() == SentAll(old(ConnectionStates()), Targets(userIds), Outgoing(msg, generatedId))
    {
      ghost var bytes, targets, before := Outgoing(msg, generatedId), Targets(userIds), ConnectionStates();
      hide Outgoing, Targets, ConnectionStates, SentAll, SentOne, Connections, ConnectionsValid, TargetOf;
      SentNone(before, targets, bytes);
      assert targets[..0] == [] && targets[..|targets|] == targets;
      var message := msg;
      sent := [];
      for i := 0 to |userIds|
        invariant Connections() == old(Connections()) && Targets(userIds) == targets && ConnectionsValid()
        invariant |sent| == i && Outgoing(message, generatedId) == bytes
        invariant forall k :: 0 <= k < i ==> sent[k] == (targets[k] != null && bytes != [])
        invariant ConnectionStates() == SentAll(before, targets[..i], bytes)
      {
        SentNext(before, targets, i, bytes);
        var ok, stamped := SendNext(userIds[i], message, generatedId);
        sent, message := sent + [ok], stamped;
      }
    }

    /** The handler a message of this type would reach, if it is alive. */
    ghost function HandlerOf(mainType: Byte): Handler?
      reads this`msgHandlers, msgHandlers.Values
    {
      if mainType in msgHandlers && msgHandlers[mainType].alive then msgHandlers[mainType] else null
    }

    /** Hands the message to the handler of its main type with the sender looked up from its session; a dead
        handler is forgotten. */
    method OnMsgReceive(pack: MsgPack) returns (ok: bool)
      modifies this`msgHandlers, pack`senderId
      modifies (if pack.msg.mainType in msgHandlers then {msgHandlers[pack.msg.mainType]} else {})`received
      ensures var mainType := pack.msg.mainType; var handler := old(HandlerOf(pack.msg.mainType));
              && ok == (handler != null && handler.accepts)
              && msgHandlers == (if handler != null then old(msgHandlers) else old(msgHandlers) - {mainType})
              && pack.senderId
                 == (if handler != null then UserOf(userSessionMap.State(), pack.senderSessionId) else old(pack.senderId))
              && (handler != null ==> handler.received == old(handler.received) + [pack])
    {
      var mainType := pack.msg.mainType;
      if mainType !in msgHandlers {
        return false;
      }
      var handler := msgHandlers[mainType];
      if !handler.alive {
        msgHandlers := msgHandlers - {mainType};
        return false;
      }
      pack.senderId := userSessionMap.GetUserId(pack.senderSessionId);
      ok := handler.HandleDecodedMsg(pack);
    }

    /** What a handler that answers at once does: the message is received, and the reply goes to the sender that the
        router wrote into it. On maps as any run of logins leaves them it is queued on the connection the message
        came in on, exactly when that connection is known and the reply can be encoded. */
    method ReplyToSender(pack: MsgPack, reply: EncodeMessage, generatedId: nat)
      returns (handled: bool, sent: bool, stamped: EncodeMessage)
      requires Inv(userSessionMap.State())
      requires pack.senderSessionId in userSessionMap.sessionToUser && pack.senderSessionId != 0
      requires HandlerOf(pack.msg.mainType) != null
      requires ConnectionOf(pack.senderSessionId) != null ==> ConnectionOf(pack.senderSessionId).Valid()
      modifies this`msgHandlers, pack`senderId, {HandlerOf(pack.msg.mainType)}`received
      modifies ConnectionOf(pack.senderSessionId)
      ensures handled == old(HandlerOf(pack.msg.mainType)).accepts
      ensures old(HandlerOf(pack.msg.mainType)).received == old(HandlerOf(pack.msg.mainType).received) + [pack]
      ensures var sid := pack.senderSessionId;
              && pack.senderId == userSessionMap.sessionToUser[sid]
              && sent == (ConnectionOf(sid) != null && Outgoing(reply, generatedId) != [])
              && ConnectionOf(sid) == old(ConnectionOf(pack.senderSessionId))
              && (ConnectionOf(sid) != null ==>
                    ConnectionOf(sid).State()
                    == Queued(old(ConnectionOf(pack.senderSessionId).State()), sent, Outgoing(reply, generatedId)))
    {
      handled := OnMsgReceive(pack);
      sent, stamped := SendMessageToUser(pack.senderId, reply, generatedId);
    }
  }
}
