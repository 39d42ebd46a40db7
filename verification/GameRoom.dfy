/** One room: its group of players, its state, and the command handler that runs its game. */
module Rooms {
  import opened Bytes
  import opened Collections
  import opened Groups
  import Codec
  import GameCommands

  const SIZE_LIMIT: nat := 0x1_0000_0000_0000_0000

  datatype Result =
    | Success | RoomFull | NotFound | AlreadyInRoom | NotInRoom | NotOwner | BadCapacity | AlreadyRunning
    | GameRunning | IllegalOperation | NotAuthorized | UnknownError
    /** The exception of a game whose map cannot be loaded. */
    | MapMissing

  /** `MapGroupResult` */
  function FromGroup(result: GroupResult): Result {
    match result
    case Ok => Success
    case Full => RoomFull
    case AlreadyInGroup => AlreadyInRoom
    case NotInGroup => NotInRoom
    case InvalidCapacity => BadCapacity
  }

  datatype Room = Room(ownerId: nat, roster: Roster, running: bool, ticking: bool, playerCount: nat)

  datatype Event =
    | Join(playerId: nat)
    | Leave(playerId: nat)
    | Kick(actor: nat, target: nat)
    | ChangeCapacity(actor: nat, capacity: nat)
    | StartGame(actor: nat, mapLoads: bool)
    | Dissolve(actor: nat)
    | GameEnd

  /** What a room is made from; its creator fills in the state and the player count. */
  datatype RoomInfo = RoomInfo(ownerId: nat, capacity: nat, running: bool, playerCount: nat)

  function Made(info: RoomInfo): Room {
    Room(info.ownerId, Roster(info.capacity, []), info.running, false, info.playerCount)
  }

  /** A room in its lobby that nobody has joined. */
  function Fresh(ownerId: nat, capacity: nat): Room {
    Made(RoomInfo(ownerId, capacity, false, 0))
  }

  /** One operation: its result and the room after it. A game end has no result. */
  function Step(r: Room, e: Event): (Result, Room) {
    match e
    case Join(id) =>
      if r.running then (GameRunning, r)
      else if id == 0 then (NotAuthorized, r)
      else
        var (result, roster) := Add(r.roster, id);
        (FromGroup(result),
         r.(roster := roster, playerCount := if result.Ok? then (r.playerCount + 1) % SIZE_LIMIT else r.playerCount))
    case Leave(id) =>
      var (result, roster) := Remove(r.roster, id);
      (FromGroup(result),
       r.(roster := roster, playerCount := if result.Ok? then (r.playerCount - 1) % SIZE_LIMIT else r.playerCount))
    case Kick(actor, target) =>
      if actor != r.ownerId then (NotOwner, r)
      else if r.running then (GameRunning, r)
      else if target == actor then (IllegalOperation, r)
      else
        // The player count is left as it is.
        var (result, roster) := Remove(r.roster, target);
        (FromGroup(result), r.(roster := roster))
    case ChangeCapacity(actor, capacity) =>
      if actor != r.ownerId then (NotOwner, r)
      else
        var (result, roster) := Resize(r.roster, capacity);
        (FromGroup(result), r.(roster := roster))
    case StartGame(actor, mapLoads) =>
      if actor != r.ownerId then (NotOwner, r)
      else if r.running then (AlreadyRunning, r)
      else if |r.roster.ids| < 2 then (IllegalOperation, r)
      else if !mapLoads then (MapMissing, r)
      else (Success, r.(running := true, ticking := true))
    case Dissolve(actor) =>
      if actor != r.ownerId then (NotOwner, r)
      else (Success, r.(roster := r.roster.(ids := []), running := false, ticking := false))
    case GameEnd => (Success, r.(running := false, ticking := false))
  }

  function Run(r: Room, events: seq<Event>): Room
    decreases |events|
  {
    if events == [] then r else Step(Run(r, events[..|events| - 1]), events[|events| - 1]).1
  }

  // ---------- Invariant ----------

  ghost predicate RoomInv(r: Room) {
    r.ticking == r.running && Inv(r.roster) && r.playerCount < SIZE_LIMIT
  }

  lemma StepInv(r: Room, e: Event)
    requires RoomInv(r)
    ensures RoomInv(Step(r, e).1)
  {
    hide Inv, Add, Remove, Resize;
    match e
    case Join(id) => OperationsInv(r.roster, id, 0);
    case Leave(id) => OperationsInv(r.roster, id, 0);
    case Kick(_, target) => OperationsInv(r.roster, target, 0);
    case ChangeCapacity(_, capacity) => OperationsInv(r.roster, 0, capacity);
    case StartGame(_, _) =>
    case Dissolve(_) => NoMembers(r.roster);
    case GameEnd =>
  }

  lemma NoMembers(r: Roster)
    ensures Inv(r.(ids := []))
  {
  }

  /** In every reachable state the handler is ticking iff the room is running, also after a start that failed to
      load its map, and the members are distinct and fit the capacity. */
  lemma {:induction false} RunInv(ownerId: nat, capacity: nat, events: seq<Event>)
    ensures RoomInv(Run(Fresh(ownerId, capacity), events))
    decreases |events|
  {
    hide RoomInv, Step;
    if events == [] {
      FreshInv(ownerId, capacity);
    } else {
      RunInv(ownerId, capacity, events[..|events| - 1]);
      StepInv(Run(Fresh(ownerId, capacity), events[..|events| - 1]), events[|events| - 1]);
    }
  }

  lemma FreshInv(ownerId: nat, capacity: nat)
    ensures RoomInv(Fresh(ownerId, capacity))
  {
  }

  // ---------- What the operations change ----------

  /** The first list without its member `id`, the others in order. */
  ghost predicate TakenFrom(ids: seq<nat>, left: seq<nat>, id: nat) {
    id !in left && exists i :: 0 <= i < |ids| && ids[i] == id && left == ids[..i] + ids[i + 1..]
  }

  /** Players come and go: who is let in, who is taken out, what becomes of the count, and that nothing else changes.
      Leaving is allowed during a game, joining and kicking are not, and only the owner kicks, anyone but himself. */
  lemma PlayersChange(r: Room, id: nat, actor: nat)
    requires RoomInv(r)
    ensures var (result, n) := Step(r, Join(id));
            if r.running || id == 0 || id in r.roster.ids || |r.roster.ids| == r.roster.capacity then
              && n == r
              && result == (if r.running then GameRunning else if id == 0 then NotAuthorized
                            else if id in r.roster.ids then AlreadyInRoom else RoomFull)
            else
              && result == Success && n.roster.ids == r.roster.ids + [id] && n.roster.capacity == r.roster.capacity
              && n.playerCount == (if r.playerCount == 0xFFFF_FFFF_FFFF_FFFF then 0 else r.playerCount + 1)
              && n.(roster := r.roster, playerCount := r.playerCount) == r
    ensures var (result, n) := Step(r, Leave(id));
            if id !in r.roster.ids then result == NotInRoom && n == r
            else
              && result == Success && TakenFrom(r.roster.ids, n.roster.ids, id) && n.roster.capacity == r.roster.capacity
              && n.playerCount == (if r.playerCount == 0 then 0xFFFF_FFFF_FFFF_FFFF else r.playerCount - 1)
              && n.(roster := r.roster, playerCount := r.playerCount) == r
    ensures var (result, n) := Step(r, Kick(actor, id));
            if actor != r.ownerId || r.running || id == actor || id !in r.roster.ids then
              && n == r
              && result == (if actor != r.ownerId then NotOwner else if r.running then GameRunning
                            else if id == actor then IllegalOperation else NotInRoom)
            else
              && result == Success && TakenFrom(r.roster.ids, n.roster.ids, id) && n.roster.capacity == r.roster.capacity
              && n.(roster := r.roster) == r
  {
    OperationsChange(r.roster, id, 0);
    hide Add, Remove, Inv;
  }

  /** The owner's operations on the room as a whole, refused to everybody else: when each succeeds, what it sets, and
      that nothing else changes. */
  lemma RoomChanges(r: Room, actor: nat, capacity: nat, mapLoads: bool)
    requires RoomInv(r)
    ensures actor != r.ownerId ==>
              && Step(r, ChangeCapacity(actor, capacity)) == (NotOwner, r)
              && Step(r, StartGame(actor, mapLoads)) == (NotOwner, r)
              && Step(r, Dissolve(actor)) == (NotOwner, r)
    ensures actor == r.ownerId ==>
              Step(r, ChangeCapacity(actor, capacity))
              == if |r.roster.ids| <= capacity then (Success, r.(roster := Roster(capacity, r.roster.ids)))
                 else (BadCapacity, r)
    ensures var (result, n) := Step(r, StartGame(actor, mapLoads));
            actor == r.ownerId ==>
              if !r.running && |r.roster.ids| >= 2 && mapLoads then
                result == Success && n.running && n.ticking && n.(running := false, ticking := false) == r
              else
                && n == r
                && result == (if r.running then AlreadyRunning else if mapLoads || |r.roster.ids| < 2 then IllegalOperation
                              else MapMissing)
    ensures var (result, n) := Step(r, Dissolve(actor));
            actor == r.ownerId ==>
              && result == Success && n.roster == Roster(r.roster.capacity, []) && !n.running && !n.ticking
              && n.ownerId == r.ownerId && n.playerCount == r.playerCount
    ensures var n := Step(r, GameEnd).1;
            !n.running && !n.ticking && n.roster == r.roster && n.ownerId == r.ownerId && n.playerCount == r.playerCount
  {
    OperationsChange(r.roster, 0, capacity);
    hide Add, Remove, Resize, Inv;
  }

  /** Leaving undoes joining, and the end of a game undoes its start. */
  lemma Undone(r: Room, id: nat, mapLoads: bool)
    requires RoomInv(r)
    ensures Step(r, Join(id)).0 == Success ==> Step(Step(r, Join(id)).1, Leave(id)).1 == r
    ensures Step(r, StartGame(r.ownerId, mapLoads)).0 == Success ==>
              Step(Step(r, StartGame(r.ownerId, mapLoads)).1, GameEnd).1 == r
  {
    OperationsInv(r.roster, id, 0);
    OperationsChange(r.roster, id, 0);
    hide Inv, Without;
  }

  /** What the members are told at the end: message type 7, subtype 11, and the winner as the host holds it, least
      significant byte first. */
  lemma EndOfGameSays(winnerId: nat)
    requires winnerId < 0x1_0000_0000
    ensures var m := EndOfGame(winnerId); var p := m.payload;
            && m.msgId == 0 && m.protoType == 0 && m.mainType == 7 && m.subType == 11 && |p| == 4
            && winnerId == p[0] as nat + p[1] as nat * 0x100 + p[2] as nat * 0x1_0000 + p[3] as nat * 0x100_0000
  {
    var b := Big(winnerId, 4);
    assert Pow256(4) == 0x1_0000_0000;
    ValueBig(winnerId, 4);
    hide Big;
    Codec.WordValue(b, 0);
    assert b[0..4] == b;
  }

  // ---------- During a game ----------

  lemma {:induction false} WithoutSublist(ids: seq<nat>, id: nat)
    ensures Sublist(Without(ids, id), ids)
  {
    if id in ids {
      var i := FirstPlace(ids, id);
      WithoutAt(ids, id, i);
      SublistRefl(ids[..i]);
      SublistMore(ids[..i], ids[..i], [id]);
      SublistMore(ids[..i], ids[..i] + [id], ids[i + 1..]);
      assert ids == ids[..i] + [id] + ids[i + 1..];
    } else {
      WithoutAbsent(ids, id);
      SublistRefl(ids);
    }
  }

  lemma {:induction false} FirstPlace(ids: seq<nat>, id: nat) returns (i: nat)
    requires id in ids
    ensures i < |ids| && ids[i] == id && id !in ids[..i]
  {
    if ids[0] == id {
      i := 0;
    } else {
      var k := FirstPlace(ids[1..], id);
      i := k + 1;
      assert ids[..i] == [ids[0]] + ids[1..][..k];
    }
  }

  lemma StepShrinks(r: Room, e: Event)
    requires r.running
    ensures Sublist(Step(r, e).1.roster.ids, r.roster.ids)
  {
    SublistRefl(r.roster.ids);
    if e.Leave? {
      WithoutSublist(r.roster.ids, e.playerId);
    }
    hide Without;
  }

  /** As long as a game runs, the members are those at its start without some, in the same order. */
  lemma {:induction false} MembersDuringGame(r: Room, events: seq<Event>)
    requires forall k :: 0 <= k < |events| ==> Run(r, events[..k]).running
    ensures Sublist(Run(r, events).roster.ids, r.roster.ids)
    decreases |events|
  {
    hide Step, Sublist;
    if events == [] {
      SublistRefl(r.roster.ids);
    } else {
      var init := events[..|events| - 1];
      forall k | 0 <= k < |init| ensures Run(r, init[..k]).running {
        assert init[..k] == events[..k];
      }
      MembersDuringGame(r, init);
      StepShrinks(Run(r, init), events[|events| - 1]);
      SublistTrans(Run(r, events).roster.ids, Run(r, init).roster.ids, r.roster.ids);
    }
  }

  // ---------- Order of joining ----------

  /** The number of events up to the last one in which the player joined, 0 if there was none. */
  function LastJoin(r: Room, events: seq<Event>, id: nat): nat
    decreases |events|
  {
    if events == [] then 0
    else
      var init, last := events[..|events| - 1], events[|events| - 1];
      if last == Join(id) && Step(Run(r, init), last).0 == Success then |events| else LastJoin(r, init, id)
  }

  ghost predicate Ordered(r: Room, events: seq<Event>, ids: seq<nat>) {
    && (forall i :: 0 <= i < |ids| ==> 0 < LastJoin(r, events, ids[i]) <= |events|)
    && (forall i, j :: 0 <= i < j < |ids| ==> LastJoin(r, events, ids[i]) < LastJoin(r, events, ids[j]))
  }

  lemma {:induction false} WithoutPlace(ids: seq<nat>, id: nat, i: nat, j: nat) returns (k: nat, m: nat)
    requires i <= j < |Without(ids, id)|
    ensures k <= m < |ids| && ids[k] == Without(ids, id)[i] && ids[m] == Without(ids, id)[j] && (i < j ==> k < m)
  {
    if id in ids {
      var p := FirstPlace(ids, id);
      WithoutAt(ids, id, p);
      k, m := if i < p then i else i + 1, if j < p then j else j + 1;
    } else {
      WithoutAbsent(ids, id);
      k, m := i, j;
    }
  }

  /** Members are listed in the order in which they last joined. */
  lemma {:induction false} JoinOrder(ownerId: nat, capacity: nat, events: seq<Event>)
    ensures var r := Fresh(ownerId, capacity); Ordered(r, events, Run(r, events).roster.ids)
    decreases |events|
  {
    var r := Fresh(ownerId, capacity);
    if events != [] {
      var init, last := events[..|events| - 1], events[|events| - 1];
      JoinOrder(ownerId, capacity, init);
      OrderStep(r, init, last);
      assert events == init + [last];
    }
  }

  lemma OrderStep(r: Room, init: seq<Event>, last: Event)
    requires Ordered(r, init, Run(r, init).roster.ids)
    ensures Ordered(r, init + [last], Run(r, init + [last]).roster.ids)
  {
    var events, s := init + [last], Run(r, init);
    var before, after := s.roster.ids, Step(s, last).1.roster.ids;
    assert events[..|events| - 1] == init;
    StepMembers(s, last);
    hide Step, Without;
    if last.Join? && Step(s, last).0 == Success {
      forall i | 0 <= i < |after|
        ensures 0 < LastJoin(r, events, after[i]) <= |events|
        ensures LastJoin(r, events, after[i]) == if i < |before| then LastJoin(r, init, after[i]) else |events|
      {
        assert after[i] == if i < |before| then before[i] else last.playerId;
      }
    } else if after == before {
      forall i | 0 <= i < |after| ensures LastJoin(r, events, after[i]) == LastJoin(r, init, after[i]) {
      }
    } else if after != [] {
      var id :| after == Without(before, id);
      hide Ordered;
      OrderWithout(r, init, last, before, id);
    }
  }

  /** A step that lets no player join and takes one member away. */
  lemma OrderWithout(r: Room, init: seq<Event>, last: Event, ids: seq<nat>, id: nat)
    requires Ordered(r, init, ids) && !(last.Join? && Step(Run(r, init), last).0 == Success)
    ensures Ordered(r, init + [last], Without(ids, id))
  {
    var events, left := init + [last], Without(ids, id);
    assert events[..|events| - 1] == init;
    hide Step, Without;
    forall i, j | 0 <= i <= j < |left|
      ensures 0 < LastJoin(r, events, left[i]) <= |events|
      ensures i < j ==> LastJoin(r, events, left[i]) < LastJoin(r, events, left[j])
    {
      var k, m := WithoutPlace(ids, id, i, j);
    }
  }

  /** How an operation can change the list of members. */
  lemma StepMembers(s: Room, e: Event)
    ensures var (result, t) := Step(s, e);
            if e.Join? && result == Success
            then t.roster.ids == s.roster.ids + [e.playerId] && e.playerId !in s.roster.ids
            else
              || t.roster.ids == s.roster.ids || t.roster.ids == []
              || exists id :: t.roster.ids == Without(s.roster.ids, id)
  {
    if e.Leave? {
      assert Remove(s.roster, e.playerId).1.ids in [s.roster.ids, Without(s.roster.ids, e.playerId)];
    }
    if e.Kick? {
      assert Remove(s.roster, e.target).1.ids in [s.roster.ids, Without(s.roster.ids, e.target)];
    }
    hide Without;
  }

  // ---------- The player count ----------

  /** How many members a kick or a dissolve took away. */
  function Uncounted(r: Room, events: seq<Event>): nat
    decreases |events|
  {
    if events == [] then 0
    else
      var s, last := Run(r, events[..|events| - 1]), events[|events| - 1];
      Uncounted(r, events[..|events| - 1])
      + (if last.Dissolve? && Step(s, last).0 == Success then |s.roster.ids|
         else if last.Kick? && Step(s, last).0 == Success then 1 else 0)
  }

  /** The stored player count exceeds the members by those a kick or a dissolve took away, modulo its width. */
  lemma {:induction false} PlayerCount(ownerId: nat, capacity: nat, events: seq<Event>)
    ensures var r := Fresh(ownerId, capacity);
            Run(r, events).playerCount == (|Run(r, events).roster.ids| + Uncounted(r, events)) % SIZE_LIMIT
    decreases |events|
  {
    hide RoomInv, Step;
    var r := Fresh(ownerId, capacity);
    if events != [] {
      var init, last := events[..|events| - 1], events[|events| - 1];
      PlayerCount(ownerId, capacity, init);
      RunInv(ownerId, capacity, init);
      hide Fresh;
      CountStep(Run(r, init), last, Uncounted(r, init));
    }
  }

  /** After two joins and a kick the room has one member and counts two. */
  lemma KickedStillCounted()
    ensures var r := Run(Fresh(1, 4), [Join(1), Join(2), Kick(1, 2)]); r.roster.ids == [1] && r.playerCount == 2
  {
    var one, two, three := [Join(1)], [Join(1), Join(2)], [Join(1), Join(2), Kick(1, 2)];
    assert one[..0] == [] && two[..1] == one && three[..2] == two;
    assert Run(Fresh(1, 4), one).roster.ids == [1];
    assert Run(Fresh(1, 4), two).roster.ids == [1, 2];
    WithoutAt([1, 2], 2, 1);
  }

  lemma CountStep(s: Room, e: Event, uncounted: nat)
    requires RoomInv(s) && s.playerCount == (|s.roster.ids| + uncounted) % SIZE_LIMIT
    ensures var (result, t) := Step(s, e);
            t.playerCount == (|t.roster.ids| + uncounted
                              + (if e.Dissolve? && result == Success then |s.roster.ids|
                                 else if e.Kick? && result == Success then 1 else 0)) % SIZE_LIMIT
  {
    if e.Leave? && e.playerId in s.roster.ids {
      WithoutDistinct(s.roster.ids, e.playerId);
      hide Without, Distinct;
      CountDown(|s.roster.ids|, uncounted);
    } else if e.Kick? && e.target in s.roster.ids {
      WithoutDistinct(s.roster.ids, e.target);
      hide Without, Distinct;
    } else {
      hide Without, Distinct;
      CountUp(|s.roster.ids| + uncounted);
    }
  }

  lemma CountUp(n: nat)
    ensures (n % SIZE_LIMIT + 1) % SIZE_LIMIT == (n + 1) % SIZE_LIMIT
  {
  }

  lemma CountDown(members: nat, uncounted: nat)
    requires members > 0
    ensures ((members + uncounted) % SIZE_LIMIT - 1) % SIZE_LIMIT == (members - 1 + uncounted) % SIZE_LIMIT
  {
  }

  // ---------- The announcement of the end ----------

  const STATE_CONTROL: Byte := 7
  const STATE_END: Byte := 11

  /** A 32-bit number as a little-endian host holds it. */
  function HostBytes(n: nat): (s: seq<Byte>)
    ensures |s| == 4
  {
    var b := Big(n, 4);
    [b[3], b[2], b[1], b[0]]
  }

  /** The message that tells the members who won. Its protocol type is left at 0, which is that of heartbeats. */
  function EndOfGame(winnerId: nat): Codec.EncodeMessage {
    Codec.EncodeMessage(0, Codec.HEARTBEAT, STATE_CONTROL, STATE_END, HostBytes(winnerId))
  }

  // ---------- The objects ----------

  lemma OntoEmpty<T>(m: map<nat, T>)
    ensures map[] + m == m
  {
  }

  class GamePlayer {
    const playerId: nat
    var currentGroupId: nat
    var ready: bool

    constructor (playerId: nat)
      ensures this.playerId == playerId && currentGroupId == 0 && !ready
    {
      this.playerId, currentGroupId, ready := playerId, 0, false;
    }
  }

  function PlayerKey(player: GamePlayer): nat {
    player.playerId
  }

  class GameRoom {
    const roomId: nat
    const roomCode: string
    const ownerId: nat
    const handler: GameCommands.GameCmdHandler
    const group: Group<GamePlayer>
    var running: bool
    var playerCount: nat

    ghost predicate Valid() {
      group.key == PlayerKey
    }

    ghost function State(): Room
      reads this, group, handler
    {
      Room(ownerId, group.Value(), running, handler.ticking, playerCount)
    }

    constructor (roomId: nat, roomCode: string, info: RoomInfo)
      ensures Valid() && fresh(group) && fresh(handler)
      ensures State() == Made(info) && running == info.running
      ensures this.roomId == roomId && this.roomCode == roomCode && ownerId == info.ownerId
    {
      this.roomId, this.roomCode, ownerId := roomId, roomCode, info.ownerId;
      handler := new GameCommands.GameCmdHandler(true);
      group := new Group(info.capacity, PlayerKey, []);
      running, playerCount := info.running, info.playerCount;
    }

    /** The player's current room is set before the group decides, so also for a player it refuses. */
    method JoinRoom(player: GamePlayer?) returns (result: Result)
      requires Valid()
      modifies this`playerCount, group`members, (if player != null then {player} else {})`currentGroupId
      ensures (result, State()) == Step(old(State()), Join(if player == null then 0 else player.playerId))
      ensures group.members == old(group.members) + if result == Success && player != null then [player] else []
      ensures player != null && player.playerId != 0 && !running ==> player.currentGroupId == roomId
      ensures player != null && (player.playerId == 0 || running) ==> player.currentGroupId == old(player.currentGroupId)
    {
      if running {
        return GameRunning;
      }
      if player == null || player.playerId == 0 {
        return NotAuthorized;
      }
      player.currentGroupId := roomId;
      var added := group.AddMember(player);
      if added == Ok {
        playerCount := (playerCount + 1) % SIZE_LIMIT;
      }
      return FromGroup(added);
    }

    method LeaveRoom(playerId: nat) returns (result: Result)
      requires Valid()
      modifies this`playerCount, group`members
      ensures (result, State()) == Step(old(State()), Leave(playerId))
    {
      var removed := group.RemoveMember(playerId);
      if removed == Ok {
        playerCount := (playerCount - 1) % SIZE_LIMIT;
      }
      return FromGroup(removed);
    }

    method KickPlayer(actor: nat, target: nat) returns (result: Result)
      requires Valid()
      modifies group`members
      ensures (result, State()) == Step(old(State()), Kick(actor, target))
    {
      if actor != ownerId {
        return NotOwner;
      }
      if running {
        return GameRunning;
      }
      if target == actor {
        return IllegalOperation;
      }
      var removed := group.RemoveMember(target);
      return FromGroup(removed);
    }

    method SetCapacity(actor: nat, capacity: nat) returns (result: Result)
      requires Valid()
      modifies group`capacity
      ensures (result, State()) == Step(old(State()), ChangeCapacity(actor, capacity))
    {
      if actor != ownerId {
        return NotOwner;
      }
      var resized := group.SetCapacity(capacity);
      return FromGroup(resized);
    }

    /** The identifiers of the members, for the match that starts. */
    method MatchPlayers() returns (ids: seq<nat>)
      requires Valid()
      ensures ids == group.Value().ids
    {
      ids := [];
      for i := 0 to |group.members|
        invariant ids == group.Value().ids[..i]
      {
        ids := ids + [group.members[i].playerId];
      }
    }

    /** `mapPath` names the selected map and `mapData` is that map, if it could be loaded. A start that throws because
        it could not has cleared the players of the handler, but leaves the room in the lobby and the handler not
        ticking. */
    method Start(actor: nat, mapPath: string, mapData: array?<GameCommands.Tile>) returns (result: Result)
      requires Valid()
      modifies this`running, handler`players, handler`tiles, handler`ticking, handler`tickInterval, handler`scheduled
      modifies handler`mapName, handler`currentPlayerId, handler`tick
      ensures (result, State()) == Step(old(State()), StartGame(actor, mapData != null))
      ensures result == Success ==>
                && handler.players == GameCommands.Seats(group.Value().ids) && handler.tiles[..] == mapData[..]
                && handler.mapName == mapPath && handler.currentPlayerId == ownerId && handler.tick == 0
                && (!old(handler.ticking) ==> handler.tickInterval == 50 && handler.scheduled)
      ensures result == MapMissing ==> handler.players == map[] && handler.tiles == old(handler.tiles)
      ensures result != Success && result != MapMissing ==>
                handler.players == old(handler.players) && handler.tiles == old(handler.tiles)
    {
      hide KeysOf, GameCommands.Seats;
      if actor != ownerId {
        return NotOwner;
      }
      if running {
        return AlreadyRunning;
      }
      if |group.members| < 2 {
        return IllegalOperation;
      }
      handler.InitGameState();
      var ids := MatchPlayers();
      var started := handler.StartGame(ids, mapPath, ownerId, mapData);
      if !started {
        return MapMissing;
      }
      handler.StartTicking(50);
      running := true;
      OntoEmpty(GameCommands.Seats(ids));
      return Success;
    }

    method DissolveRoom(actor: nat) returns (result: Result)
      requires Valid()
      modifies this`running, group`members, handler`ticking, handler`scheduled
      ensures (result, State()) == Step(old(State()), Dissolve(actor))
      ensures result == Success ==> !handler.scheduled
    {
      if actor != ownerId {
        return NotOwner;
      }
      handler.StopTicking();
      group.ClearMembers();
      running := false;
      return Success;
    }

    /** The end callback of the command handler; `announcement` is what it broadcasts to the members. */
    method OnGameEnd(winnerId: nat) returns (announcement: Codec.EncodeMessage)
      requires Valid()
      modifies this`running, handler`ticking, handler`scheduled
      ensures State() == Step(old(State()), GameEnd).1 && announcement == EndOfGame(winnerId) && !handler.scheduled
    {
      running := false;
      handler.StopTicking();
      announcement := Codec.EncodeMessage(0, 0, STATE_CONTROL, STATE_END, HostBytes(winnerId));
    }
  }
}
