/** The directory of live rooms and their codes. */
module RoomDirectory {
  import opened Rooms
  import Groups

  const ID_LIMIT: nat := 0x1_0000_0000

  /** A room as the directory knows it; neither part ever changes. */
  datatype Entry = Entry(code: string, ownerId: nat)

  /** `pending` are the identifiers taken by a `CreateRoom` that has not come to its locked section yet. */
  datatype Directory = Directory(nextId: nat, pending: set<nat>, rooms: map<nat, Entry>, codes: map<string, nat>)

  /** The steps of `CreateRoom`, which takes an identifier without the lock and then publishes the room under it or
      gives up, and the locked `DissolveRoom`. The code is whatever the generator returned; it may be in use. */
  datatype Event =
    | Allocate
    | Publish(id: nat, code: string, ownerId: nat)
    | Abandon(id: nat)
    | Dissolve(roomId: nat, actor: nat)

  const Empty := Directory(1, {}, map[], map[])

  /** A code that is in use keeps the room it has. */
  function Published(d: Directory, id: nat, entry: Entry): Directory {
    d.(codes := if entry.code in d.codes then d.codes else d.codes[entry.code := id], rooms := d.rooms[id := entry])
  }

  /** `CreateRoom` undisturbed. The identifier is used up even if the room is not admitted. */
  function Created(d: Directory, code: string, ownerId: nat, admitted: bool): Directory {
    var next := d.(nextId := (d.nextId + 1) % ID_LIMIT);
    if admitted then Published(next, d.nextId, Entry(code, ownerId)) else next
  }

  function Dissolved(d: Directory, roomId: nat, actor: nat): Directory {
    if roomId !in d.rooms || d.rooms[roomId].ownerId != actor then d
    else d.(codes := d.codes - {d.rooms[roomId].code}, rooms := d.rooms - {roomId})
  }

  /** One step. Runs end where room identifiers would wrap around. */
  function Step(d: Directory, e: Event): Directory {
    match e
    case Allocate =>
      if d.nextId + 1 >= ID_LIMIT then d else d.(nextId := d.nextId + 1, pending := d.pending + {d.nextId})
    case Publish(id, code, ownerId) =>
      if id in d.pending then Published(d.(pending := d.pending - {id}), id, Entry(code, ownerId)) else d
    case Abandon(id) => d.(pending := d.pending - {id})
    case Dissolve(roomId, actor) => Dissolved(d, roomId, actor)
  }

  function Run(d: Directory, events: seq<Event>): Directory
    decreases |events|
  {
    if events == [] then d else Step(Run(d, events[..|events| - 1]), events[|events| - 1])
  }

  // ---------- What the steps change ----------

  /** A create takes the next identifier whatever comes of it, and makes its room known or does not; a dissolve by the
      owner takes room and code away, and by nobody else anything. Other rooms and codes are never touched. */
  lemma StepChanges(d: Directory, e: Event)
    requires Inv(d)
    ensures var n := Step(d, e);
            match e
            case Allocate =>
              n == if d.nextId < 0xFFFF_FFFF then d.(nextId := d.nextId + 1, pending := d.pending + {d.nextId}) else d
            case Publish(id, code, ownerId) =>
              if id !in d.pending then n == d
              else
                && n.nextId == d.nextId && n.pending == d.pending - {id}
                && id !in d.rooms && n.rooms == d.rooms[id := Entry(code, ownerId)]
                && code in n.codes && n.codes == d.codes[code := n.codes[code]]
                && (code in d.codes ==> n.codes[code] == d.codes[code]) && (code !in d.codes ==> n.codes[code] == id)
            case Abandon(id) => n == d.(pending := d.pending - {id})
            case Dissolve(roomId, actor) =>
              if roomId in d.rooms && d.rooms[roomId].ownerId == actor then
                && n.nextId == d.nextId && n.pending == d.pending
                && n.rooms == d.rooms - {roomId} && n.codes == d.codes - {d.rooms[roomId].code}
              else n == d
  {
  }

  /** Dissolving a new room with a new code undoes its publishing. */
  lemma DissolveUndoes(d: Directory, id: nat, code: string, ownerId: nat)
    requires Inv(d) && id in d.pending && code !in d.codes
    ensures Step(Step(d, Publish(id, code, ownerId)), Event.Dissolve(id, ownerId)) == d.(pending := d.pending - {id})
  {
    assert d.rooms[id := Entry(code, ownerId)] - {id} == d.rooms;
    assert d.codes[code := id] - {code} == d.codes;
  }

  // ---------- What always holds ----------

  /** Every code entry names a live room that bears the code. */
  ghost predicate Inv(d: Directory) {
    && d.nextId < ID_LIMIT
    && (forall id :: id in d.pending ==> id < d.nextId && id !in d.rooms)
    && (forall id :: id in d.rooms ==> id < d.nextId)
    && (forall c :: c in d.codes ==> d.codes[c] in d.rooms && d.rooms[d.codes[c]].code == c)
  }

  lemma StepInv(d: Directory, e: Event)
    requires Inv(d)
    ensures Inv(Step(d, e))
  {
  }

  /** A create that nothing interrupts is its two steps. */
  lemma CreatedIsSteps(d: Directory, code: string, ownerId: nat, admitted: bool)
    requires Inv(d) && d.nextId + 1 < ID_LIMIT
    ensures Created(d, code, ownerId, admitted)
            == Step(Step(d, Allocate), if admitted then Publish(d.nextId, code, ownerId) else Abandon(d.nextId))
  {
    assert d.pending + {d.nextId} - {d.nextId} == d.pending;
  }

  /** Every code entry names a live room that bears the code, in every run of creates and dissolves, however their
      steps interleave and even when generated codes collide. */
  lemma {:induction false} RunInv(events: seq<Event>)
    ensures Inv(Run(Empty, events))
    decreases |events|
  {
    hide Inv, Step;
    if events == [] {
      EmptyInv();
    } else {
      RunInv(events[..|events| - 1]);
      StepInv(Run(Empty, events[..|events| - 1]), events[|events| - 1]);
    }
  }

  lemma EmptyInv()
    ensures Inv(Empty) && Reachable(Empty)
  {
  }

  // ---------- When every room is found by its code ----------

  /** Every live room is the one its code names: with `Inv`, codes and live rooms correspond one to one. */
  ghost predicate Reachable(d: Directory) {
    forall id :: id in d.rooms ==> d.rooms[id].code in d.codes && d.codes[d.rooms[id].code] == id
  }

  /** The step does not publish a room with a code that is in use. */
  predicate NoCollision(d: Directory, e: Event) {
    e.Publish? && e.id in d.pending ==> e.code !in d.codes
  }

  /** Exactly the rooms published with a code in use are not found by their code. */
  lemma ReachableIff(d: Directory, e: Event)
    requires Inv(d) && Reachable(d)
    ensures Reachable(Step(d, e)) <==> NoCollision(d, e)
  {
    if !NoCollision(d, e) {
      var n := Step(d, e);
      assert n.rooms[e.id].code == e.code && n.codes[e.code] != e.id;
    } else if e.Dissolve? {
      DissolveReachable(d, e.roomId, e.actor);
    }
  }

  lemma DissolveReachable(d: Directory, roomId: nat, actor: nat)
    requires Inv(d) && Reachable(d)
    ensures Reachable(Dissolved(d, roomId, actor))
  {
  }

  /** On runs whose generated codes are not in use when their room is published, codes and live rooms correspond. */
  lemma {:induction false} RunReachable(events: seq<Event>)
    requires forall i :: 0 <= i < |events| ==> NoCollision(Run(Empty, events[..i]), events[i])
    ensures Inv(Run(Empty, events)) && Reachable(Run(Empty, events))
    decreases |events|
  {
    hide Inv, Reachable, NoCollision, Step;
    if events == [] {
      EmptyInv();
    } else {
      var init := events[..|events| - 1];
      forall i | 0 <= i < |init| ensures NoCollision(Run(Empty, init[..i]), init[i]) {
        assert init[..i] == events[..i];
      }
      RunReachable(init);
      RunInv(events);
      ReachableIff(Run(Empty, init), events[|events| - 1]);
    }
  }

  /** Distinct generated codes are enough. */
  lemma {:induction false} DistinctCodes(events: seq<Event>)
    requires forall i, j :: 0 <= i < j < |events| && events[i].Publish? && events[j].Publish? ==>
               events[i].code != events[j].code
    ensures Inv(Run(Empty, events)) && Reachable(Run(Empty, events))
  {
    forall i | 0 <= i < |events| ensures NoCollision(Run(Empty, events[..i]), events[i]) {
      CodesCreated(events[..i]);
      assert forall k :: 0 <= k < i ==> events[..i][k] == events[k];
    }
    hide NoCollision, Inv, Reachable;
    RunReachable(events);
  }

  lemma {:induction false} CodesCreated(events: seq<Event>)
    ensures forall c :: c in Run(Empty, events).codes ==>
              exists k :: 0 <= k < |events| && events[k].Publish? && events[k].code == c
    decreases |events|
  {
    if events != [] {
      var init, last := events[..|events| - 1], events[|events| - 1];
      CodesCreated(init);
      forall c | c in Run(Empty, events).codes
        ensures exists k :: 0 <= k < |events| && events[k].Publish? && events[k].code == c
      {
        if c in Run(Empty, init).codes {
          var k :| 0 <= k < |init| && init[k].Publish? && init[k].code == c;
          assert events[k] == init[k];
        } else {
          assert last.Publish? && last.code == c && events[|events| - 1] == last;
        }
      }
    }
  }

  /** After a collision, dissolving either of the two rooms leaves the other live but without a code. */
  lemma CollisionLosesCode(d: Directory, a: nat, b: nat)
    requires Inv(d) && a in d.rooms && b in d.rooms && a != b && d.rooms[a].code == d.rooms[b].code
    ensures var n := Dissolved(d, a, d.rooms[a].ownerId); b in n.rooms && n.rooms[b].code !in n.codes
  {
  }

  /** Two rooms published with one code: both are live, and the code finds only the first. */
  lemma Collision()
    ensures var d := Run(Empty, [Allocate, Allocate, Publish(1, "ABC123", 5), Publish(2, "ABC123", 6)]);
            && !Reachable(d) && d.codes == map["ABC123" := 1]
            && d.rooms == map[1 := Entry("ABC123", 5), 2 := Entry("ABC123", 6)]
  {
    var events := [Allocate, Allocate, Publish(1, "ABC123", 5), Publish(2, "ABC123", 6)];
    var code := "ABC123";
    assert events[..3][..2] == [Allocate, Allocate] && events[..3][..2][..1] == [Allocate];
    assert Run(Empty, [Allocate]) == Directory(2, {1}, map[], map[]) by {
      assert [Allocate][..0] == [];
    }
    assert Run(Empty, [Allocate, Allocate]) == Directory(3, {1, 2}, map[], map[]) by {
      assert [Allocate, Allocate][..1] == [Allocate];
    }
    assert Run(Empty, events[..3]) == Directory(3, {2}, map[1 := Entry(code, 5)], map[code := 1]);
    var d := Run(Empty, events);
    assert d == Directory(3, {}, map[1 := Entry(code, 5), 2 := Entry(code, 6)], map[code := 1]);
    assert 2 in d.rooms && d.codes[d.rooms[2].code] == 1;
  }

  // ---------- The object ----------

  /** A new room that its owner has joined. */
  function WithOwner(info: RoomInfo): Room {
    Room(info.ownerId, Groups.Roster(info.capacity, [info.ownerId]), false, false, (info.playerCount + 1) % SIZE_LIMIT)
  }

  lemma OwnerJoins(info: RoomInfo)
    ensures var (result, room) := Rooms.Step(Made(info), Join(info.ownerId));
            && result == (if info.running then GameRunning else if info.ownerId == 0 then NotAuthorized
                          else if info.capacity == 0 then RoomFull else Success)
            && (result == Success ==> room == WithOwner(info))
  {
  }

  /** The rooms of the manager as the directory knows them. */
  ghost function Entries(rooms: map<nat, GameRoom>): map<nat, Entry> {
    map id | id in rooms :: Entry(rooms[id].roomCode, rooms[id].ownerId)
  }

  lemma EntriesUpdate(rooms: map<nat, GameRoom>, id: nat, room: GameRoom)
    ensures Entries(rooms[id := room]) == Entries(rooms)[id := Entry(room.roomCode, room.ownerId)]
    ensures Entries(rooms - {id}) == Entries(rooms) - {id}
    ensures Entries(rooms).Keys == rooms.Keys
    ensures id in rooms ==> Entries(rooms)[id] == Entry(rooms[id].roomCode, rooms[id].ownerId)
  {
  }

  lemma EntriesAbsent(rooms: map<nat, GameRoom>, id: nat)
    requires id !in rooms
    ensures id !in Entries(rooms)
  {
  }

  class GameRoomManager {
    var rooms: map<nat, GameRoom>
    var roomCodeMap: map<string, nat>
    var nextRoomId: nat
    /** The player manager, if it can be locked: the players it knows. */
    var playerManager: bool
    var players: map<nat, GamePlayer>

    ghost predicate Valid()
      reads this
    {
      && nextRoomId < ID_LIMIT
      && (forall id :: id in rooms ==> rooms[id].Valid() && rooms[id].roomId == id)
      && (forall p :: p in players ==> players[p].playerId == p)
    }

    ghost function State(): Directory
      reads this
    {
      Directory(nextRoomId, {}, Entries(rooms), roomCodeMap)
    }

    constructor ()
      ensures Valid() && State() == Empty && !playerManager
    {
      rooms, roomCodeMap, nextRoomId, playerManager, players := map[], map[], 1, false, map[];
    }

    method RoomCodeToId(code: string) returns (found: bool, roomId: nat)
      ensures found == (code in State().codes) && (found ==> roomId == State().codes[code])
    {
      if code !in roomCodeMap {
        return false, 0;
      }
      return true, roomCodeMap[code];
    }

    /** Who a broadcast to the room goes to: its members, in order, if the room is known. */
    method RoomBroadCast(roomId: nat) returns (found: bool, recipients: seq<nat>)
      requires Valid()
      ensures found == (roomId in rooms)
      ensures recipients == if found then rooms[roomId].group.Value().ids else []
    {
      if roomId !in rooms {
        return false, [];
      }
      recipients := rooms[roomId].MatchPlayers();
      return true, recipients;
    }

    /** The locked section that makes a room known. */
    method PublishRoom(id: nat, room: GameRoom)
      requires Valid() && room.Valid() && room.roomId == id
      modifies this`rooms, this`roomCodeMap
      ensures Valid() && rooms == old(rooms)[id := room]
      ensures State() == Published(old(State()), id, Entry(room.roomCode, room.ownerId))
    {
      EntriesUpdate(rooms, id, room);
      hide Entries;
      if room.roomCode !in roomCodeMap {
        roomCodeMap := roomCodeMap[room.roomCode := id];
      }
      rooms := rooms[id := room];
    }

    /** Creates a room whose code is `code` and lets its owner join. */
    method CreateRoom(info: RoomInfo, code: string) returns (result: Result)
      requires Valid()
      modifies this`rooms, this`roomCodeMap, this`nextRoomId
      modifies (if info.ownerId in players then {players[info.ownerId]} else {})`currentGroupId
      ensures Valid()
      ensures State() == Created(old(State()), code, info.ownerId, result == Success)
      ensures result == (if !playerManager then UnknownError
                         else if info.ownerId !in players then NotAuthorized
                         else if info.running then GameRunning
                         else if info.ownerId == 0 then NotAuthorized
                         else if info.capacity == 0 then RoomFull
                         else Success)
      ensures info.ownerId in players ==>
                players[info.ownerId].currentGroupId
                == if playerManager && !info.running && info.ownerId != 0 then old(nextRoomId)
                   else old(players[info.ownerId].currentGroupId)
      ensures result == Success ==>
                && old(nextRoomId) in rooms
                && rooms[old(nextRoomId)].State() == WithOwner(info)
    {
      OwnerJoins(info);
      hide Entries, Rooms.Step, WithOwner, Made, GameRoom.State, Published;
      var newRoomId := nextRoomId;
      nextRoomId := (nextRoomId + 1) % ID_LIMIT;
      var newRoom := new GameRoom(newRoomId, code, info);
      if !playerManager {
        return UnknownError;
      }
      if info.ownerId !in players {
        return NotAuthorized;
      }
      result := newRoom.JoinRoom(players[info.ownerId]);
      if result != Success {
        return;
      }
      PublishRoom(newRoomId, newRoom);
    }

    method JoinRoom(roomId: nat, playerId: nat) returns (result: Result)
      requires Valid()
      modifies (if roomId in rooms then {rooms[roomId]} else {})`playerCount
      modifies (if roomId in rooms then {rooms[roomId].group} else {})`members
      modifies (if playerId in players then {players[playerId]} else {})`currentGroupId
      ensures Valid() && State() == old(State())
      ensures roomId !in rooms ==> result == NotFound
      ensures roomId in rooms && !playerManager ==> result == UnknownError
      ensures roomId in rooms && playerManager && playerId !in players ==> result == NotAuthorized
      ensures roomId in rooms && playerManager && playerId in players ==>
                (result, rooms[roomId].State()) == Rooms.Step(old(rooms[roomId].State()), Join(playerId))
      ensures playerId in players ==>
                players[playerId].currentGroupId
                == if roomId in rooms && playerManager && playerId != 0 && !rooms[roomId].running then roomId
                   else old(players[playerId].currentGroupId)
    {
      if roomId !in rooms {
        return NotFound;
      }
      if !playerManager {
        return UnknownError;
      }
      if playerId !in players {
        return NotAuthorized;
      }
      result := rooms[roomId].JoinRoom(players[playerId]);
    }

    method DissolveRoom(roomId: nat, actor: nat) returns (result: Result)
      requires Valid()
      modifies this`rooms, this`roomCodeMap
      modifies (if roomId in rooms then {rooms[roomId]} else {})`running
      modifies (if roomId in rooms then {rooms[roomId].group} else {})`members
      modifies (if roomId in rooms then {rooms[roomId].handler} else {})`ticking
      modifies (if roomId in rooms then {rooms[roomId].handler} else {})`scheduled
      ensures Valid() && State() == Dissolved(old(State()), roomId, actor)
      ensures result == (if roomId !in old(rooms) then NotFound
                         else if actor != old(rooms)[roomId].ownerId then NotOwner
                         else Success)
      ensures result == Success ==>
                var room := old(rooms)[roomId];
                room.State() == Rooms.Step(old(rooms[roomId].State()), Rooms.Dissolve(actor)).1 && !room.handler.scheduled
    {
      hide Entries;
      if roomId !in rooms {
        EntriesAbsent(rooms, roomId);
        return NotFound;
      }
      var room := rooms[roomId];
      EntriesUpdate(rooms, roomId, room);
      result := room.DissolveRoom(actor);
      if result != Success {
        return;
      }
      roomCodeMap := roomCodeMap - {room.roomCode};
      rooms := rooms - {roomId};
    }
  }
}
