/** The relay server's rooms (internal/console/relay_server.go): what joining,
    leaving and relaying a packet do to the rooms table, the index from peers to
    rooms, the event log, the gauges and the outgoing streams. */
module RelayRooms {
  import opened Wire

  type PeerId = string
  type Stream = nat

  datatype PeerConn = PeerConn(id: PeerId, roomID: RoomId, stream: Stream)

  datatype Room = Room(id: RoomId, peers: map<PeerId, PeerConn>)

  datatype Kind = JoinPacket | LeavePacket | UDP | TCP | Broadcast | OtherKind(name: string)

  datatype Packet = Packet(kind: Kind, roomID: RoomId, fromID: PeerId, toID: PeerId, payload: seq<nat>)

  datatype RelayEvent =
    | Joined(peerID: PeerId, roomID: RoomId)
    | Left(peerID: PeerId, roomID: RoomId)
    | Deleted(peerID: PeerId, roomID: RoomId)

  /** One packet written to one stream. */
  datatype Write = Write(stream: Stream, packet: Packet)

  datatype Relay = Relay(
    rooms: map<RoomId, Room>,
    peerToRoomIDs: map<PeerId, RoomId>,
    events: seq<RelayEvent>,
    activeRooms: int,
    peersInRoom: map<RoomId, nat>,
    writes: seq<Write>)

  const EMPTY := Relay(map[], map[], [], 0, map[], [])

  /** order is one way of walking all the keys but `except`. */
  predicate WalksOthers(order: seq<PeerId>, peers: map<PeerId, PeerConn>, except: PeerId) {
    && (forall i | 0 <= i < |order| :: order[i] in peers && order[i] != except)
    && (forall i, j | 0 <= i < j < |order| :: order[i] != order[j])
    && (forall p | p in peers && p != except :: p in order)
  }

  function PeersOf(s: Relay, r: RoomId): map<PeerId, PeerConn> {
    if r in s.rooms then s.rooms[r].peers else map[]
  }

  /** The join notices for the peers already in the room, in the order walked. */
  function JoinNotices(r: RoomId, p: PeerId, peers: map<PeerId, PeerConn>, order: seq<PeerId>): (ws: seq<Write>)
    requires forall i | 0 <= i < |order| :: order[i] in peers
    ensures |ws| == |order|
  {
    seq(|order|, i requires 0 <= i < |order| && order[i] in peers =>
      Write(peers[order[i]].stream, Packet(JoinPacket, r, p, peers[order[i]].id, [])))
  }

  /** What a join does to the tables, the log and the gauges. */
  function Register(s: Relay, r: RoomId, p: PeerId, stream: Stream): Relay {
    var peers := PeersOf(s, r)[p := PeerConn(p, r, stream)];
    s.(rooms := s.rooms[r := Room(if r in s.rooms then s.rooms[r].id else r, peers)],
       peerToRoomIDs := s.peerToRoomIDs[p := r],
       events := s.events + [Joined(p, r)],
       activeRooms := if r in s.rooms then s.activeRooms else s.activeRooms + 1,
       peersInRoom := s.peersInRoom[r := |peers|])
  }

  function Join(s: Relay, r: RoomId, p: PeerId, stream: Stream, order: seq<PeerId>): Relay
    requires WalksOthers(order, PeersOf(s, r), p)
  {
    Register(s, r, p, stream).(writes := s.writes + JoinNotices(r, p, PeersOf(s, r), order))
  }

  function Leave(s: Relay, p: PeerId, r: RoomId): Relay {
    if p !in s.peerToRoomIDs then s
    else
      var s1 := s.(peerToRoomIDs := s.peerToRoomIDs - {p});
      if p !in PeersOf(s, r) then s1 else Removed(s1, p, r)
  }

  /** A present peer is taken out of its room, and the room away if it is left empty. */
  function Removed(s: Relay, p: PeerId, r: RoomId): Relay
    requires r in s.rooms
  {
    var peers := s.rooms[r].peers - {p};
    if |peers| == 0 then
      s.(rooms := s.rooms - {r},
         events := s.events + [Left(p, r), Deleted(p, r)],
         activeRooms := s.activeRooms - 1,
         peersInRoom := s.peersInRoom - {r})
    else
      s.(rooms := s.rooms[r := s.rooms[r].(peers := peers)],
         events := s.events + [Left(p, r)],
         peersInRoom := s.peersInRoom[r := |peers|])
  }

  function SendTo(s: Relay, r: RoomId, p: PeerId, pkt: Packet): Relay {
    if p !in PeersOf(s, r) then s
    else s.(writes := s.writes + [Write(PeersOf(s, r)[p].stream, pkt)])
  }

  /** The same packet for every peer walked. */
  function Copies(peers: map<PeerId, PeerConn>, order: seq<PeerId>, pkt: Packet): (ws: seq<Write>)
    requires forall i | 0 <= i < |order| :: order[i] in peers
    ensures |ws| == |order|
  {
    seq(|order|, i requires 0 <= i < |order| && order[i] in peers => Write(peers[order[i]].stream, pkt))
  }

  function BroadcastFrom(s: Relay, r: RoomId, from: PeerId, pkt: Packet, order: seq<PeerId>): Relay
    requires WalksOthers(order, PeersOf(s, r), from)
  {
    s.(writes := s.writes + Copies(PeersOf(s, r), order, pkt))
  }

  // ----- Runs -----

  datatype Event =
    /** A connection completes its handshake. */
    | JoinEvent(roomID: RoomId, peerID: PeerId, stream: Stream, order: seq<PeerId>)
    /** A connection ends, or the lobby drops its user. */
    | LeaveEvent(peerID: PeerId, roomID: RoomId)
    /** The loop serving peer peerID in room roomID reads a packet. */
    | PacketEvent(peerID: PeerId, roomID: RoomId, packet: Packet, order: seq<PeerId>)

  /** The loop's own leave request: ignored only if it names neither the peer nor
      the room the loop serves. */
  predicate LeaveHonoured(peerID: PeerId, roomID: RoomId, pkt: Packet) {
    pkt.kind == LeavePacket && (pkt.fromID == peerID || pkt.roomID == roomID)
  }

  predicate Enabled(s: Relay, e: Event) {
    match e
    case JoinEvent(r, p, stream, order) => WalksOthers(order, PeersOf(s, r), p)
    case LeaveEvent(p, r) => true
    case PacketEvent(p, r, pkt, order) =>
      pkt.kind == Broadcast ==> WalksOthers(order, PeersOf(s, pkt.roomID), pkt.fromID)
  }

  function Step(s: Relay, e: Event): Relay
    requires Enabled(s, e)
  {
    match e
    case JoinEvent(r, p, stream, order) => Join(s, r, p, stream, order)
    case LeaveEvent(p, r) => Leave(s, p, r)
    case PacketEvent(p, r, pkt, order) =>
      match pkt.kind
      case UDP => SendTo(s, pkt.roomID, pkt.toID, pkt)
      case TCP => SendTo(s, pkt.roomID, pkt.toID, pkt)
      case Broadcast => BroadcastFrom(s, pkt.roomID, pkt.fromID, pkt, order)
      case LeavePacket => if LeaveHonoured(p, r, pkt) then Leave(s, p, r) else s
      case _ => s
  }

  predicate Run(s: Relay, es: seq<Event>)
    decreases |es|
  {
    es == [] || (Enabled(s, es[0]) && Run(Step(s, es[0]), es[1..]))
  }

  function After(s: Relay, es: seq<Event>): Relay
    requires Run(s, es)
    decreases |es|
  {
    if es == [] then s else After(Step(s, es[0]), es[1..])
  }

  // ----- Soundness, with no assumption on who joins or leaves what -----

  predicate RoomSound(r: RoomId, room: Room) {
    && room.id == r
    && room.peers.Keys != {}
    && forall p | p in room.peers :: room.peers[p].id == p && room.peers[p].roomID == r
  }

  predicate RoomsSound(rooms: map<RoomId, Room>) {
    forall r | r in rooms :: RoomSound(r, rooms[r])
  }

  predicate IndexSound(s: Relay) {
    forall p | p in s.peerToRoomIDs :: p in PeersOf(s, s.peerToRoomIDs[p])
  }

  predicate GaugesSound(s: Relay) {
    && s.activeRooms == |s.rooms.Keys|
    && s.peersInRoom.Keys == s.rooms.Keys
    && (forall r | r in s.rooms :: s.peersInRoom[r] == |s.rooms[r].peers|)
  }

  predicate Sound(s: Relay) {
    RoomsSound(s.rooms) && IndexSound(s) && GaugesSound(s)
  }

  lemma RegisterRoomsSound(s: Relay, r: RoomId, p: PeerId, stream: Stream)
    requires RoomsSound(s.rooms)
    ensures RoomsSound(Register(s, r, p, stream).rooms)
  {
    assert p in Register(s, r, p, stream).rooms[r].peers.Keys;
  }

  lemma RegisterIndexSound(s: Relay, r: RoomId, p: PeerId, stream: Stream)
    requires IndexSound(s)
    ensures IndexSound(Register(s, r, p, stream))
  {
  }

  lemma RegisterGaugesSound(s: Relay, r: RoomId, p: PeerId, stream: Stream)
    requires GaugesSound(s)
    ensures GaugesSound(Register(s, r, p, stream))
  {
    assert Register(s, r, p, stream).rooms.Keys == s.rooms.Keys + {r};
  }

  lemma JoinSound(s: Relay, r: RoomId, p: PeerId, stream: Stream, order: seq<PeerId>)
    requires Sound(s) && WalksOthers(order, PeersOf(s, r), p)
    ensures Sound(Join(s, r, p, stream, order))
  {
    RegisterRoomsSound(s, r, p, stream);
    RegisterIndexSound(s, r, p, stream);
    RegisterGaugesSound(s, r, p, stream);
  }

  lemma EmptyPeers(peers: map<PeerId, PeerConn>)
    ensures |peers| == 0 <==> peers.Keys == {}
  {
    assert |peers| == |peers.Keys|;
  }

  lemma LeaveIndexSound(s: Relay, p: PeerId, r: RoomId)
    requires IndexSound(s)
    ensures IndexSound(Leave(s, p, r))
  {
    var s' := Leave(s, p, r);
    forall q | q in s'.peerToRoomIDs ensures q in PeersOf(s', s'.peerToRoomIDs[q]) {
      if q != p && s.peerToRoomIDs[q] == r {
        EmptyPeers(s.rooms[r].peers - {p});
        assert q in (s.rooms[r].peers - {p}).Keys;
      }
    }
  }

  lemma LeaveRoomsSound(s: Relay, p: PeerId, r: RoomId)
    requires RoomsSound(s.rooms)
    ensures RoomsSound(Leave(s, p, r).rooms)
  {
    if p in PeersOf(s, r) { EmptyPeers(s.rooms[r].peers - {p}); }
  }

  lemma LeaveGaugesSound(s: Relay, p: PeerId, r: RoomId)
    requires GaugesSound(s)
    ensures GaugesSound(Leave(s, p, r))
  {
    if p in PeersOf(s, r) { RemovedGaugesSound(s, p, r); }
  }

  lemma RemovedGaugesSound(s: Relay, p: PeerId, r: RoomId)
    requires GaugesSound(s) && r in s.rooms
    ensures GaugesSound(Removed(s, p, r))
  {
    var s' := Removed(s, p, r);
    if |s.rooms[r].peers - {p}| == 0 {
      assert s'.rooms.Keys == s.rooms.Keys - {r} == s'.peersInRoom.Keys;
    } else {
      assert s'.rooms.Keys == s.rooms.Keys == s'.peersInRoom.Keys;
    }
  }

  lemma LeaveSound(s: Relay, p: PeerId, r: RoomId)
    requires Sound(s)
    ensures Sound(Leave(s, p, r))
  {
    LeaveIndexSound(s, p, r);
    LeaveRoomsSound(s, p, r);
    LeaveGaugesSound(s, p, r);
  }

  /** Relaying a packet touches nothing but the outgoing streams, unless the
      packet is an honoured leave. */
  lemma PacketEffect(s: Relay, p: PeerId, r: RoomId, pkt: Packet, order: seq<PeerId>)
    requires Enabled(s, PacketEvent(p, r, pkt, order))
    ensures var s' := Step(s, PacketEvent(p, r, pkt, order));
            if LeaveHonoured(p, r, pkt) then s' == Leave(s, p, r) else s' == s.(writes := s'.writes)
  {
  }

  // ----- What a step does to the rooms and the index -----

  /** Peer p leaves room r: its connection ends, or its loop reads a leave packet that
      names either of the two. */
  predicate Leaves(e: Event, p: PeerId, r: RoomId) {
    match e
    case JoinEvent(_, _, _, _) => false
    case LeaveEvent(q, t) => q == p && t == r
    case PacketEvent(q, t, pkt, _) =>
      q == p && t == r && pkt.kind == LeavePacket && (pkt.fromID == p || pkt.roomID == r)
  }

  /** Peer p joins room r. */
  predicate Joins(e: Event, p: PeerId, r: RoomId) {
    e.JoinEvent? && e.peerID == p && e.roomID == r
  }

  lemma RemovedElsewhere(s: Relay, p: PeerId, r: RoomId, t: RoomId)
    requires r in s.rooms && t != r
    ensures PeersOf(Removed(s, p, r), t) == PeersOf(s, t)
  {
  }

  lemma RemovedThere(s: Relay, p: PeerId, r: RoomId, q: PeerId)
    requires r in s.rooms
    ensures var peers, peers' := s.rooms[r].peers, PeersOf(Removed(s, p, r), r);
            && (q in peers' <==> q in peers && q != p)
            && (q in peers' ==> peers'[q] == peers[q])
  {
    var peers := s.rooms[r].peers - {p};
    EmptyPeers(peers);
    if |peers| == 0 {
      assert q !in peers.Keys && PeersOf(Removed(s, p, r), r) == map[];
    } else {
      assert PeersOf(Removed(s, p, r), r) == peers;
    }
  }

  /** Who is in which room after a leave, and on what connection. */
  lemma LeavePeers(s: Relay, p: PeerId, r: RoomId, q: PeerId, t: RoomId)
    ensures q in PeersOf(Leave(s, p, r), t) <==> (
              q in PeersOf(s, t) && !(p in s.peerToRoomIDs && q == p && t == r))
    ensures q in PeersOf(Leave(s, p, r), t) ==> PeersOf(Leave(s, p, r), t)[q] == PeersOf(s, t)[q]
  {
    if p in s.peerToRoomIDs && p in PeersOf(s, r) {
      var s1 := s.(peerToRoomIDs := s.peerToRoomIDs - {p});
      if t == r { RemovedThere(s1, p, r, q); } else { RemovedElsewhere(s1, p, r, t); }
    }
  }

  /** Who is in which room after any step, and on what connection: whoever joins it,
      and whoever was there and does not leave it, or leaves it without being indexed. */
  lemma StepPeers(s: Relay, e: Event, q: PeerId, t: RoomId)
    requires Enabled(s, e)
    ensures q in PeersOf(Step(s, e), t) <==> (
              Joins(e, q, t) || (q in PeersOf(s, t) && (Leaves(e, q, t) ==> q !in s.peerToRoomIDs)))
    ensures q in PeersOf(Step(s, e), t) ==>
              PeersOf(Step(s, e), t)[q] == if Joins(e, q, t) then PeerConn(q, t, e.stream) else PeersOf(s, t)[q]
  {
    match e
    case JoinEvent(r, p, stream, order) =>
    case LeaveEvent(p, r) => LeavePeers(s, p, r, q, t);
    case PacketEvent(p, r, pkt, order) =>
      PacketEffect(s, p, r, pkt, order);
      if LeaveHonoured(p, r, pkt) { LeavePeers(s, p, r, q, t); }
  }

  lemma LeaveIndex(s: Relay, p: PeerId, r: RoomId)
    ensures Leave(s, p, r).peerToRoomIDs == s.peerToRoomIDs - {p}
  {
  }

  /** And who is indexed, and where: whoever joined last under that room, and whoever
      was indexed and leaves no room. */
  lemma StepIndex(s: Relay, e: Event, q: PeerId, t: RoomId)
    requires Enabled(s, e)
    ensures var s' := Step(s, e);
            q in s'.peerToRoomIDs && s'.peerToRoomIDs[q] == t <==> (
              || Joins(e, q, t)
              || (&& q in s.peerToRoomIDs && s.peerToRoomIDs[q] == t
                  && forall r: RoomId :: !Joins(e, q, r) && !Leaves(e, q, r)))
  {
    match e
    case JoinEvent(r, p, stream, order) => assert Joins(e, p, r);
    case LeaveEvent(p, r) =>
      LeaveIndex(s, p, r);
      assert Leaves(e, p, r);
    case PacketEvent(p, r, pkt, order) =>
      PacketEffect(s, p, r, pkt, order);
      if LeaveHonoured(p, r, pkt) {
        LeaveIndex(s, p, r);
        assert Leaves(e, p, r);
      }
  }

  lemma StepSound(s: Relay, e: Event)
    requires Sound(s) && Enabled(s, e)
    ensures Sound(Step(s, e))
  {
    match e
    case JoinEvent(r, p, stream, order) => JoinSound(s, r, p, stream, order);
    case LeaveEvent(p, r) => LeaveSound(s, p, r);
    case PacketEvent(p, r, pkt, order) =>
      PacketEffect(s, p, r, pkt, order);
      if LeaveHonoured(p, r, pkt) { LeaveSound(s, p, r); }
  }

  lemma {:induction false} RunSound(s: Relay, es: seq<Event>)
    requires Sound(s) && Run(s, es)
    ensures Sound(After(s, es))
    decreases |es|
  {
    if es != [] {
      StepSound(s, es[0]);
      RunSound(Step(s, es[0]), es[1..]);
    }
  }

  /** Main result: after any joins, leaves and packets whatever, index entries
      point to live rooms that hold the peer, no room is empty, keys match stored
      ids, and both gauges tell the truth. */
  lemma RelayIsSound(es: seq<Event>)
    requires Run(EMPTY, es)
    ensures Sound(After(EMPTY, es))
  {
    RunSound(EMPTY, es);
  }
}
