/** The relay server's methods, updating its tables in place and walking the peers
    in any order, proved to have the effects RelayRooms gives them. */
module RelayServerClass {
  import opened Wire
  import opened RelayRooms

  class RelayServer {
    var rooms: map<RoomId, Room>
    var peerToRoomIDs: map<PeerId, RoomId>
    /** Everything sent on the Events channel. */
    var events: seq<RelayEvent>
    var activeRooms: int
    var peersInRoom: map<RoomId, nat>
    /** Everything written to the peers' streams. */
    var writes: seq<Write>

    ghost function State(): Relay
      reads this
    {
      Relay(rooms, peerToRoomIDs, events, activeRooms, peersInRoom, writes)
    }

    constructor ()
      ensures State() == EMPTY
    {
      rooms, peerToRoomIDs, events, activeRooms, peersInRoom, writes := map[], map[], [], 0, map[], [];
    }

    method SendSigned(stream: Stream, pkt: Packet)
      modifies this`writes
      ensures writes == old(writes) + [Write(stream, pkt)]
    {
      writes := writes + [Write(stream, pkt)];
    }

    /** The room, made if it is missing. */
    method EnsureRoom(r: RoomId)
      modifies this`rooms, this`activeRooms
      ensures rooms == if r in old(rooms) then old(rooms) else old(rooms)[r := Room(r, map[])]
      ensures activeRooms == if r in old(rooms) then old(activeRooms) else old(activeRooms) + 1
    {
      if r !in rooms {
        rooms := rooms[r := Room(r, map[])];
        activeRooms := activeRooms + 1;
      }
    }

    /** Put the peer in the room's table and in the index. */
    method Enrol(r: RoomId, pc: PeerConn) returns (peers: map<PeerId, PeerConn>)
      modifies this`rooms, this`activeRooms, this`peerToRoomIDs
      ensures peers == PeersOf(old(State()), r)[pc.id := pc]
      ensures rooms == old(rooms)[r := Room(if r in old(rooms) then old(rooms)[r].id else r, peers)]
      ensures activeRooms == if r in old(rooms) then old(activeRooms) else old(activeRooms) + 1
      ensures peerToRoomIDs == old(peerToRoomIDs)[pc.id := r]
    {
      EnsureRoom(r);
      peers := rooms[r].peers[pc.id := pc];
      rooms := rooms[r := rooms[r].(peers := peers)];
      peerToRoomIDs := peerToRoomIDs[pc.id := r];
    }

    method JoinRoom(r: RoomId, p: PeerId, stream: Stream) returns (pc: PeerConn, ghost order: seq<PeerId>)
      requires r in rooms ==> RoomSound(r, rooms[r])
      modifies this
      ensures pc == PeerConn(p, r, stream)
      ensures WalksOthers(order, PeersOf(old(State()), r), p)
      ensures State() == Join(old(State()), r, p, stream, order)
    {
      pc := PeerConn(p, r, stream);
      var peers := Enrol(r, pc);
      order := NotifyJoin(r, p, peers);
      events := events + [Joined(p, r)];
      peersInRoom := peersInRoom[r := |peers|];
      SameNotices(r, p, PeersOf(old(State()), r), pc, order);
    }

    static lemma SameNotices(r: RoomId, p: PeerId, before: map<PeerId, PeerConn>, pc: PeerConn, order: seq<PeerId>)
      requires WalksOthers(order, before[p := pc], p)
      ensures WalksOthers(order, before, p)
      ensures JoinNotices(r, p, before[p := pc], order) == JoinNotices(r, p, before, order)
    {
    }

    /** Tell the peers already in the room of the newcomer. */
    method NotifyJoin(r: RoomId, p: PeerId, peers: map<PeerId, PeerConn>) returns (ghost order: seq<PeerId>)
      requires forall q | q in peers :: peers[q].id == q
      modifies this`writes
      ensures WalksOthers(order, peers, p)
      ensures writes == old(writes) + JoinNotices(r, p, peers, order)
    {
      order := [];
      var todo := peers.Keys;
      while todo != {}
        invariant todo <= peers.Keys
        invariant forall q | q in peers && q != p :: q in todo <==> q !in order
        invariant forall i | 0 <= i < |order| :: order[i] in peers && order[i] != p
        invariant forall i, j | 0 <= i < j < |order| :: order[i] != order[j]
        invariant writes == old(writes) + JoinNotices(r, p, peers, order)
        decreases |todo|
      {
        ghost var some := Inhabited(todo);
        var id :| id in todo;
        todo := todo - {id};
        var peer := peers[id];
        if peer.id == p { continue; }
        SendSigned(peer.stream, Packet(JoinPacket, r, p, peer.id, []));
        assert JoinNotices(r, p, peers, order + [id]) ==
               JoinNotices(r, p, peers, order) + [Write(peer.stream, Packet(JoinPacket, r, p, peer.id, []))];
        order := order + [id];
      }
    }

    method LeaveRoom(p: PeerId, r: RoomId)
      modifies this
      ensures State() == Leave(old(State()), p, r)
    {
      if p !in peerToRoomIDs { return; }
      peerToRoomIDs := peerToRoomIDs - {p};
      if r !in rooms { return; }
      if p !in rooms[r].peers { return; }
      RemovePeer(p, r);
    }

    static lemma DropUpdated(rooms: map<RoomId, Room>, r: RoomId, room: Room)
      ensures rooms[r := room] - {r} == rooms - {r}
    {
    }

    /** Take a present peer out of its room, and the room away if it is left empty. */
    method RemovePeer(p: PeerId, r: RoomId)
      requires r in rooms && p in rooms[r].peers
      modifies this`rooms, this`events, this`activeRooms, this`peersInRoom
      ensures State() == Removed(old(State()), p, r)
    {
      var room := rooms[r];
      room := room.(peers := room.peers - {p});
      DropUpdated(rooms, r, room);
      rooms := rooms[r := room];
      events := events + [Left(p, r)];
      if |room.peers| != 0 {
        peersInRoom := peersInRoom[r := |room.peers|];
        return;
      }
      rooms := rooms - {r};
      assert events + [Deleted(p, r)] == old(events) + [Left(p, r), Deleted(p, r)];
      events := events + [Deleted(p, r)];
      activeRooms := activeRooms - 1;
      peersInRoom := peersInRoom - {r};
    }

    method SendTo(r: RoomId, p: PeerId, pkt: Packet)
      modifies this`writes
      ensures State() == RelayRooms.SendTo(old(State()), r, p, pkt)
    {
      if r !in rooms { return; }
      if p !in rooms[r].peers { return; }
      SendSigned(rooms[r].peers[p].stream, pkt);
    }

    method BroadcastFrom(r: RoomId, from: PeerId, pkt: Packet) returns (ghost order: seq<PeerId>)
      modifies this`writes
      ensures WalksOthers(order, PeersOf(old(State()), r), from)
      ensures State() == RelayRooms.BroadcastFrom(old(State()), r, from, pkt, order)
    {
      order := [];
      if r !in rooms {
        assert Copies(map[], [], pkt) == [];
        return;
      }
      var peers := rooms[r].peers;
      var todo := peers.Keys;
      while todo != {}
        invariant todo <= peers.Keys
        invariant forall q | q in peers && q != from :: q in todo <==> q !in order
        invariant forall i | 0 <= i < |order| :: order[i] in peers && order[i] != from
        invariant forall i, j | 0 <= i < j < |order| :: order[i] != order[j]
        invariant writes == old(writes) + Copies(peers, order, pkt)
        decreases |todo|
      {
        ghost var some := Inhabited(todo);
        var id :| id in todo;
        todo := todo - {id};
        if id == from { continue; }
        SendSigned(peers[id].stream, pkt);
        assert Copies(peers, order + [id], pkt) == Copies(peers, order, pkt) + [Write(peers[id].stream, pkt)];
        order := order + [id];
      }
    }

    /** The packet switch of the loop serving peer p in room r; `done` when the
        loop ends. */
    method HandlePacket(p: PeerId, r: RoomId, pkt: Packet) returns (done: bool, ghost order: seq<PeerId>)
      modifies this
      ensures Enabled(old(State()), PacketEvent(p, r, pkt, order))
      ensures State() == Step(old(State()), PacketEvent(p, r, pkt, order))
      ensures done <==> pkt.kind == LeavePacket && (pkt.fromID == p || pkt.roomID == r)
    {
      done, order := false, [];
      match pkt.kind
      case UDP => SendTo(pkt.roomID, pkt.toID, pkt);
      case TCP => SendTo(pkt.roomID, pkt.toID, pkt);
      case Broadcast => order := BroadcastFrom(pkt.roomID, pkt.fromID, pkt);
      case LeavePacket =>
        if pkt.fromID != p && pkt.roomID != r { return; }
        LeaveRoom(p, r);
        done := true;
      case _ =>
    }
  }
}
