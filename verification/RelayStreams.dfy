/** What the relay writes to the outgoing streams: a stream registered by one join
    only ever carries packets of its room, a broadcast reaches every other member
    once, and a direct packet reaches the addressed member alone. */
module RelayStreams {
  import opened Wire
  import opened RelayRooms

  /** The room each stream was registered under. */
  type Registry = map<Stream, RoomId>

  function Registered(reg: Registry, e: Event): Registry {
    if e.JoinEvent? then reg[e.stream := e.roomID] else reg
  }

  /** Every stream is registered by one join. */
  predicate FreshStreams(s: Relay, reg: Registry, es: seq<Event>)
    requires Run(s, es)
    decreases |es|
  {
    es == [] ||
    (&& (es[0].JoinEvent? ==> es[0].stream !in reg)
     && FreshStreams(Step(s, es[0]), Registered(reg, es[0]), es[1..]))
  }

  function RegistryAfter(reg: Registry, es: seq<Event>): Registry
    decreases |es|
  {
    if es == [] then reg else RegistryAfter(Registered(reg, es[0]), es[1..])
  }

  /** Peer p of room r holds a stream registered under r. */
  predicate Holds(s: Relay, reg: Registry, r: RoomId, p: PeerId) {
    p in PeersOf(s, r) ==> PeersOf(s, r)[p].stream in reg && reg[PeersOf(s, r)[p].stream] == r
  }

  /** Two peers of room r hold two streams. */
  predicate Apart(s: Relay, r: RoomId, p: PeerId, q: PeerId) {
    p in PeersOf(s, r) && q in PeersOf(s, r) && p != q ==> PeersOf(s, r)[p].stream != PeersOf(s, r)[q].stream
  }

  /** Peers hold registered streams, and no stream is held twice. */
  ghost predicate StreamsSound(s: Relay, reg: Registry) {
    && (forall r, p :: Holds(s, reg, r, p))
    && (forall r, p, q :: Apart(s, r, p, q))
  }

  /** Every packet written carries the room its stream was registered under. */
  predicate Isolated(ws: seq<Write>, reg: Registry) {
    forall i | 0 <= i < |ws| :: ws[i].stream in reg && ws[i].packet.roomID == reg[ws[i].stream]
  }

  lemma IsolatedGrows(ws: seq<Write>, more: seq<Write>, reg: Registry, reg': Registry)
    requires Isolated(ws, reg) && Isolated(more, reg')
    requires forall t | t in reg :: t in reg' && reg'[t] == reg[t]
    ensures Isolated(ws + more, reg')
  {
  }

  lemma RegisterPeers(s: Relay, r: RoomId, p: PeerId, stream: Stream, t: RoomId)
    ensures PeersOf(Register(s, r, p, stream), t) ==
            if t == r then PeersOf(s, r)[p := PeerConn(p, r, stream)] else PeersOf(s, t)
  {
  }

  lemma RegisterStreams(s: Relay, reg: Registry, r: RoomId, p: PeerId, stream: Stream)
    requires StreamsSound(s, reg) && stream !in reg
    ensures StreamsSound(Register(s, r, p, stream), reg[stream := r])
  {
    var s', reg' := Register(s, r, p, stream), reg[stream := r];
    forall t, q ensures Holds(s', reg', t, q) {
      RegisterPeers(s, r, p, stream, t);
      assert Holds(s, reg, t, q);
    }
    forall t: RoomId, q: PeerId, o: PeerId ensures Apart(s', t, q, o) {
      RegisterPeers(s, r, p, stream, t);
      assert Apart(s, t, q, o);
      assert Holds(s, reg, t, q);
      assert Holds(s, reg, t, o);
    }
  }

  lemma LeaveStreams(s: Relay, reg: Registry, p: PeerId, r: RoomId)
    requires StreamsSound(s, reg)
    ensures StreamsSound(Leave(s, p, r), reg) && Leave(s, p, r).writes == s.writes
  {
    var s' := Leave(s, p, r);
    forall t, q ensures Holds(s', reg, t, q) {
      LeavePeers(s, p, r, q, t);
      assert Holds(s, reg, t, q);
    }
    forall t, q, o ensures Apart(s', t, q, o) {
      LeavePeers(s, p, r, q, t);
      LeavePeers(s, p, r, o, t);
      assert Apart(s, t, q, o);
    }
  }

  lemma JoinIsolated(s: Relay, reg: Registry, r: RoomId, p: PeerId, stream: Stream, order: seq<PeerId>)
    requires WalksOthers(order, PeersOf(s, r), p) && StreamsSound(s, reg) && Isolated(s.writes, reg) && stream !in reg
    ensures Isolated(Join(s, r, p, stream, order).writes, reg[stream := r])
  {
    var notices := JoinNotices(r, p, PeersOf(s, r), order);
    forall i | 0 <= i < |notices|
      ensures notices[i].stream in reg && notices[i].packet.roomID == reg[notices[i].stream]
    {
      assert Holds(s, reg, r, order[i]);
    }
    IsolatedGrows(s.writes, notices, reg, reg[stream := r]);
  }

  lemma PacketIsolated(s: Relay, reg: Registry, p: PeerId, r: RoomId, pkt: Packet, order: seq<PeerId>)
    requires Enabled(s, PacketEvent(p, r, pkt, order)) && StreamsSound(s, reg) && Isolated(s.writes, reg)
    requires !LeaveHonoured(p, r, pkt)
    ensures Isolated(Step(s, PacketEvent(p, r, pkt, order)).writes, reg)
  {
    if pkt.kind == Broadcast {
      var copies := Copies(PeersOf(s, pkt.roomID), order, pkt);
      forall i | 0 <= i < |copies| ensures copies[i].stream in reg && copies[i].packet.roomID == reg[copies[i].stream] {
        assert Holds(s, reg, pkt.roomID, order[i]);
      }
    } else if pkt.kind == UDP || pkt.kind == TCP {
      assert Holds(s, reg, pkt.roomID, pkt.toID);
    }
  }

  lemma SamePeers(s: Relay, s': Relay, reg: Registry)
    requires StreamsSound(s, reg) && s'.rooms == s.rooms
    ensures StreamsSound(s', reg)
  {
    forall t, q ensures Holds(s', reg, t, q) { assert Holds(s, reg, t, q); }
    forall t, q, o ensures Apart(s', t, q, o) { assert Apart(s, t, q, o); }
  }

  lemma StepIsolated(s: Relay, reg: Registry, e: Event)
    requires Enabled(s, e) && StreamsSound(s, reg) && Isolated(s.writes, reg)
    requires e.JoinEvent? ==> e.stream !in reg
    ensures StreamsSound(Step(s, e), Registered(reg, e)) && Isolated(Step(s, e).writes, Registered(reg, e))
  {
    match e
    case JoinEvent(r, p, stream, order) =>
      RegisterStreams(s, reg, r, p, stream);
      JoinIsolated(s, reg, r, p, stream, order);
      SamePeers(Register(s, r, p, stream), Step(s, e), reg[stream := r]);
    case LeaveEvent(p, r) => LeaveStreams(s, reg, p, r);
    case PacketEvent(p, r, pkt, order) =>
      PacketEffect(s, p, r, pkt, order);
      if LeaveHonoured(p, r, pkt) {
        LeaveStreams(s, reg, p, r);
      } else {
        PacketIsolated(s, reg, p, r, pkt, order);
        SamePeers(s, Step(s, e), reg);
      }
  }

  lemma {:induction false} RunIsolated(s: Relay, reg: Registry, es: seq<Event>)
    requires Run(s, es) && FreshStreams(s, reg, es) && StreamsSound(s, reg) && Isolated(s.writes, reg)
    ensures StreamsSound(After(s, es), RegistryAfter(reg, es)) && Isolated(After(s, es).writes, RegistryAfter(reg, es))
    decreases |es|
  {
    if es != [] {
      StepIsolated(s, reg, es[0]);
      RunIsolated(Step(s, es[0]), Registered(reg, es[0]), es[1..]);
    }
  }

  /** Main result: if every stream is registered by one join, every packet ever
      written carries the room id its stream was registered under, and no two
      members of a room share a stream. */
  lemma RoomsAreIsolated(es: seq<Event>)
    requires Run(EMPTY, es) && FreshStreams(EMPTY, map[], es)
    ensures StreamsSound(After(EMPTY, es), RegistryAfter(map[], es))
    ensures Isolated(After(EMPTY, es).writes, RegistryAfter(map[], es))
  {
    RunIsolated(EMPTY, map[], es);
  }

  // ----- Who receives what -----

  /** The packets written to stream t, in order. */
  function WrittenTo(ws: seq<Write>, t: Stream): seq<Packet> {
    if ws == [] then []
    else WrittenTo(ws[..|ws| - 1], t) + if ws[|ws| - 1].stream == t then [ws[|ws| - 1].packet] else []
  }

  lemma {:induction false} WrittenToAppend(ws: seq<Write>, more: seq<Write>, t: Stream)
    ensures WrittenTo(ws + more, t) == WrittenTo(ws, t) + WrittenTo(more, t)
  {
    if more == [] {
      assert ws + more == ws && WrittenTo(ws, t) + [] == WrittenTo(ws, t);
    } else {
      WrittenToAppend(ws, more[..|more| - 1], t);
      assert (ws + more)[..|ws + more| - 1] == ws + more[..|more| - 1];
    }
  }

  /** One packet was written to each peer walked. */
  predicate OneEach(ws: seq<Write>, peers: map<PeerId, PeerConn>, order: seq<PeerId>) {
    && |ws| == |order|
    && (forall i | 0 <= i < |order| :: order[i] in peers && ws[i].stream == peers[order[i]].stream)
    && (forall i, j | 0 <= i < j < |order| :: order[i] != order[j])
  }

  /** Then a peer who was walked, and whose stream is its own, gets its packet only. */
  lemma {:induction false} EachReached(ws: seq<Write>, peers: map<PeerId, PeerConn>, order: seq<PeerId>, k: nat)
    requires OneEach(ws, peers, order) && k < |order|
    requires forall p | p in peers && p != order[k] :: peers[p].stream != peers[order[k]].stream
    ensures WrittenTo(ws, ws[k].stream) == [ws[k].packet]
    decreases |ws|
  {
    var n := |ws| - 1;
    if k == n {
      NobodyReached(ws[..n], peers, order[..n], ws[k].stream);
    } else {
      EachReached(ws[..n], peers, order[..n], k);
      assert order[n] != order[k];
    }
  }

  /** And a stream held by nobody who was walked gets nothing. */
  lemma {:induction false} NobodyReached(ws: seq<Write>, peers: map<PeerId, PeerConn>, order: seq<PeerId>, t: Stream)
    requires OneEach(ws, peers, order) && forall i | 0 <= i < |order| :: peers[order[i]].stream != t
    ensures WrittenTo(ws, t) == []
    decreases |ws|
  {
    if ws != [] { NobodyReached(ws[..|ws| - 1], peers, order[..|ws| - 1], t); }
  }

  /** A broadcast writes one copy to each stream held in the room by somebody other
      than the named sender, in whatever order it walks, and to no other stream. */
  lemma BroadcastWrites(s: Relay, reg: Registry, r: RoomId, from: PeerId, pkt: Packet, order: seq<PeerId>, t: Stream)
    requires StreamsSound(s, reg) && WalksOthers(order, PeersOf(s, r), from)
    ensures WrittenTo(BroadcastFrom(s, r, from, pkt, order).writes, t) ==
            WrittenTo(s.writes, t) +
            if exists q :: q in PeersOf(s, r) && q != from && PeersOf(s, r)[q].stream == t then [pkt] else []
  {
    var peers := PeersOf(s, r);
    WrittenToAppend(s.writes, Copies(peers, order, pkt), t);
    if q :| q in peers && q != from && peers[q].stream == t {
      forall p | p in peers && p != q ensures peers[p].stream != peers[q].stream { assert Apart(s, r, p, q); }
      var k :| 0 <= k < |order| && order[k] == q;
      EachReached(Copies(peers, order, pkt), peers, order, k);
    } else {
      NobodyReached(Copies(peers, order, pkt), peers, order, t);
    }
  }

  /** A direct packet is written once to the addressed peer's stream, if it is in the
      room, and to no other stream. */
  lemma DirectWrites(s: Relay, r: RoomId, p: PeerId, pkt: Packet, t: Stream)
    ensures WrittenTo(SendTo(s, r, p, pkt).writes, t) ==
            WrittenTo(s.writes, t) + if p in PeersOf(s, r) && PeersOf(s, r)[p].stream == t then [pkt] else []
  {
    if p in PeersOf(s, r) {
      var w := [Write(PeersOf(s, r)[p].stream, pkt)];
      WrittenToAppend(s.writes, w, t);
      assert w[..0] == [] && WrittenTo(w[..0], t) == [];
    } else {
      assert WrittenTo(s.writes, t) + [] == WrittenTo(s.writes, t);
    }
  }

  /** Different members, of one room or of two, hold different streams. */
  lemma StreamsDiffer(s: Relay, reg: Registry, r: RoomId, p: PeerId, t: RoomId, q: PeerId)
    requires StreamsSound(s, reg) && p in PeersOf(s, r) && q in PeersOf(s, t)
    ensures PeersOf(s, r)[p].stream == PeersOf(s, t)[q].stream <==> p == q && r == t
  {
    assert Holds(s, reg, r, p);
    assert Holds(s, reg, t, q);
    assert Apart(s, r, p, q);
  }

  /** A broadcast reaches each member of the room other than the named sender exactly
      once, whatever order it walks, and no member of any other room. */
  lemma BroadcastToMember(s: Relay, reg: Registry, r: RoomId, from: PeerId, pkt: Packet, order: seq<PeerId>,
                          t: RoomId, q: PeerId)
    requires StreamsSound(s, reg) && WalksOthers(order, PeersOf(s, r), from) && q in PeersOf(s, t)
    ensures var stream := PeersOf(s, t)[q].stream;
            WrittenTo(BroadcastFrom(s, r, from, pkt, order).writes, stream) ==
            WrittenTo(s.writes, stream) + if t == r && q != from then [pkt] else []
  {
    BroadcastWrites(s, reg, r, from, pkt, order, PeersOf(s, t)[q].stream);
    if p :| p in PeersOf(s, r) && p != from && PeersOf(s, r)[p].stream == PeersOf(s, t)[q].stream {
      StreamsDiffer(s, reg, r, p, t, q);
    }
  }

  /** A direct packet reaches the addressed member, once, and no other member of that
      room or of another. */
  lemma DirectToMember(s: Relay, reg: Registry, r: RoomId, p: PeerId, pkt: Packet, t: RoomId, q: PeerId)
    requires StreamsSound(s, reg) && q in PeersOf(s, t)
    ensures var stream := PeersOf(s, t)[q].stream;
            WrittenTo(SendTo(s, r, p, pkt).writes, stream) ==
            WrittenTo(s.writes, stream) + if t == r && q == p then [pkt] else []
  {
    DirectWrites(s, r, p, pkt, PeersOf(s, t)[q].stream);
    if p in PeersOf(s, r) { StreamsDiffer(s, reg, r, p, t, q); }
  }

  // ----- Every event -----

  /** Relaying packet pkt is due to peer q of the room that pkt names. */
  predicate Due(pkt: Packet, q: PeerId) {
    match pkt.kind
    case UDP => q == pkt.toID
    case TCP => q == pkt.toID
    case Broadcast => q != pkt.fromID
    case _ => false
  }

  /** What a step writes to member q of room t: the packet that the loop has read, if it
      is for q; or the news of somebody else's joining room t. */
  function News(e: Event, q: PeerId, t: RoomId): seq<Packet> {
    match e
    case JoinEvent(r, p, _, _) => if t == r && q != p then [Packet(JoinPacket, r, p, q, [])] else []
    case LeaveEvent(_, _) => []
    case PacketEvent(_, _, pkt, _) => if t == pkt.roomID && Due(pkt, q) then [pkt] else []
  }

  lemma PacketWrites(s: Relay, reg: Registry, e: Event, t: RoomId, q: PeerId)
    requires Enabled(s, e) && e.PacketEvent? && StreamsSound(s, reg) && q in PeersOf(s, t)
    ensures var stream := PeersOf(s, t)[q].stream;
            WrittenTo(Step(s, e).writes, stream) == WrittenTo(s.writes, stream) + News(e, q, t)
  {
    var stream, r, pkt := PeersOf(s, t)[q].stream, e.packet.roomID, e.packet;
    match pkt.kind
    case UDP => DirectToMember(s, reg, r, pkt.toID, pkt, t, q);
    case TCP => DirectToMember(s, reg, r, pkt.toID, pkt, t, q);
    case Broadcast => BroadcastToMember(s, reg, r, pkt.fromID, pkt, e.order, t, q);
    case _ => assert WrittenTo(s.writes, stream) + [] == WrittenTo(s.writes, stream);
  }

  lemma NoticeWrites(s: Relay, reg: Registry, e: Event, t: RoomId, q: PeerId)
    requires Enabled(s, e) && e.JoinEvent? && StreamsSound(s, reg) && RoomsSound(s.rooms) && q in PeersOf(s, t)
    ensures var stream := PeersOf(s, t)[q].stream;
            WrittenTo(Step(s, e).writes, stream) == WrittenTo(s.writes, stream) + News(e, q, t)
  {
    var stream, r, p, order := PeersOf(s, t)[q].stream, e.roomID, e.peerID, e.order;
    var peers := PeersOf(s, r);
    var notices := JoinNotices(r, p, peers, order);
    WrittenToAppend(s.writes, notices, stream);
    if t == r && q != p {
      var k :| 0 <= k < |order| && order[k] == q;
      forall o | o in peers && o != q ensures peers[o].stream != stream { StreamsDiffer(s, reg, r, o, t, q); }
      EachReached(notices, peers, order, k);
      assert RoomSound(r, s.rooms[r]);
    } else {
      forall i | 0 <= i < |order| ensures peers[order[i]].stream != stream { StreamsDiffer(s, reg, r, order[i], t, q); }
      NobodyReached(notices, peers, order, stream);
    }
  }

  /** Main result: after any run in which each stream is registered by one join, the
      next event writes to each member of each room exactly what is due to it: a udp or
      tcp packet to the addressee in the packet's room, a broadcast to everybody there
      but the sender it names, a join to everybody there but the joiner, once each, in
      whatever order it walks; and nothing else to anybody. */
  lemma EventReaches(es: seq<Event>, e: Event, t: RoomId, q: PeerId)
    requires Run(EMPTY, es) && FreshStreams(EMPTY, map[], es)
    requires Enabled(After(EMPTY, es), e) && q in PeersOf(After(EMPTY, es), t)
    ensures var s := After(EMPTY, es);
            var stream := PeersOf(s, t)[q].stream;
            WrittenTo(Step(s, e).writes, stream) == WrittenTo(s.writes, stream) + News(e, q, t)
  {
    var s, reg := After(EMPTY, es), RegistryAfter(map[], es);
    RoomsAreIsolated(es);
    RelayIsSound(es);
    match e
    case JoinEvent(_, _, _, _) => NoticeWrites(s, reg, e, t, q);
    case LeaveEvent(p, r) =>
      LeaveStreams(s, reg, p, r);
      assert WrittenTo(s.writes, PeersOf(s, t)[q].stream) + [] == WrittenTo(s.writes, PeersOf(s, t)[q].stream);
    case PacketEvent(_, _, _, _) => PacketWrites(s, reg, e, t, q);
  }

  /** A stream that no member of any room holds. */
  ghost predicate Unheld(s: Relay, x: Stream) {
    forall t, q | q in PeersOf(s, t) :: PeersOf(s, t)[q].stream != x
  }

  /** And no event, in any state, writes to a stream that nobody holds. */
  lemma UnheldUnreached(s: Relay, e: Event, x: Stream)
    requires Enabled(s, e) && Unheld(s, x)
    ensures WrittenTo(Step(s, e).writes, x) == WrittenTo(s.writes, x)
  {
    assert WrittenTo(s.writes, x) + [] == WrittenTo(s.writes, x);
    match e
    case JoinEvent(r, p, _, order) =>
      var notices := JoinNotices(r, p, PeersOf(s, r), order);
      WrittenToAppend(s.writes, notices, x);
      NobodyReached(notices, PeersOf(s, r), order, x);
    case LeaveEvent(p, r) =>
    case PacketEvent(p, r, pkt, order) =>
      match pkt.kind
      case UDP => DirectWrites(s, pkt.roomID, pkt.toID, pkt, x);
      case TCP => DirectWrites(s, pkt.roomID, pkt.toID, pkt, x);
      case Broadcast =>
        var copies := Copies(PeersOf(s, pkt.roomID), order, pkt);
        WrittenToAppend(s.writes, copies, x);
        NobodyReached(copies, PeersOf(s, pkt.roomID), order, x);
      case _ =>
  }
}
