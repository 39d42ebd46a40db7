/** How the end of a game is announced to the members of its room, and that none of them hears of it. */
module Announcement {
  import opened Bytes
  import opened Codec
  import opened RoomDirectory
  import opened Router
  import opened Rooms
  import RoundTrip
  import Session

  /** The announcement is a heartbeat with a payload, which the encoder refuses. */
  lemma EndRefused(winnerId: nat, generatedId: nat)
    ensures Session.Outgoing(EndOfGame(winnerId), generatedId) == []
  {
    RoundTrip.EncodeRefuses(Session.WithId(EndOfGame(winnerId), generatedId));
    hide Encode, HostBytes;
  }

  /** A message for a room is sent in turn to the members the directory finds under the identifier. */
  method BroadcastToRoom(manager: GameRoomManager, router: MsgRouter, roomId: nat, message: EncodeMessage,
                         generatedId: nat)
    returns (found: bool, recipients: seq<nat>, sent: seq<bool>)
    requires manager.Valid() && router.ConnectionsValid()
    modifies router.Connections()
    ensures found == (roomId in manager.rooms)
    ensures recipients == (if found then manager.rooms[roomId].group.Value().ids else [])
    ensures |sent| == |recipients|
    ensures forall i :: 0 <= i < |sent| ==>
              sent[i] == (router.Targets(recipients)[i] != null && Session.Outgoing(message, generatedId) != [])
    ensures router.Connections() == old(router.Connections())
    ensures router.ConnectionStates()
            == SentAll(old(router.ConnectionStates()), router.Targets(recipients), Session.Outgoing(message, generatedId))
  {
    hide Session.Outgoing, SentAll;
    found, recipients := manager.RoomBroadCast(roomId);
    sent := router.SendToUsers(recipients, message, generatedId);
  }

  lemma SameStates(before: States, after: States)
    requires before.Keys == after.Keys && forall c :: c in before ==> before[c] == after[c]
    ensures before == after
  {
  }

  /** The end callback: the room goes back to its lobby, and the announcement reaches nobody. */
  method AnnounceEnd(room: GameRoom, manager: GameRoomManager, router: MsgRouter, winnerId: nat, generatedId: nat)
    returns (found: bool, sent: seq<bool>)
    requires room.Valid() && manager.Valid() && router.ConnectionsValid()
    modifies room`running, room.handler`ticking, room.handler`scheduled, router.Connections()
    ensures room.State() == Rooms.Step(old(room.State()), GameEnd).1
    ensures found == (room.roomId in manager.rooms)
    ensures |sent| == (if found then |manager.rooms[room.roomId].group.Value().ids| else 0)
    ensures forall i :: 0 <= i < |sent| ==> !sent[i]
    ensures router.Connections() == old(router.Connections())
    ensures router.ConnectionStates() == old(router.ConnectionStates())
  {
    hide EndOfGame, Session.Outgoing, Rooms.Step, SentAll;
    ghost var states := router.ConnectionStates();
    EndRefused(winnerId, generatedId);
    var announcement := room.OnGameEnd(winnerId);
    SameStates(states, router.ConnectionStates());
    var recipients;
    found, recipients, sent := BroadcastToRoom(manager, router, room.roomId, announcement, generatedId);
    SentNone(states, router.Targets(recipients), []);
  }
}
