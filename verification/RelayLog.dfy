/** The relay's event log is a faithful history: replayed from nothing it rebuilds
    the rooms, and rooms are deleted exactly when a leave empties them. */
module RelayLog {
  import opened Wire
  import opened RelayRooms

  type Membership = map<RoomId, set<PeerId>>

  function ApplyEvent(m: Membership, e: RelayEvent): Membership {
    match e
    case Joined(p, r) => m[r := (if r in m then m[r] else {}) + {p}]
    case Left(p, r) => if r in m then m[r := m[r] - {p}] else m
    case Deleted(p, r) => m - {r}
  }

  /** What a reader of the log takes the rooms to be. */
  function Replay(log: seq<RelayEvent>): Membership {
    if log == [] then map[] else ApplyEvent(Replay(log[..|log| - 1]), log[|log| - 1])
  }

  /** What the rooms are. */
  function MembershipOf(s: Relay): Membership {
    map r | r in s.rooms :: s.rooms[r].peers.Keys
  }

  lemma ReplayAppend(log: seq<RelayEvent>, e: RelayEvent)
    ensures Replay(log + [e]) == ApplyEvent(Replay(log), e)
  {
    assert (log + [e])[..|log|] == log;
  }

  /** Changing one room changes one entry. */
  lemma MembershipUpdated(s: Relay, r: RoomId, room: Room)
    ensures MembershipOf(s.(rooms := s.rooms[r := room])) == MembershipOf(s)[r := room.peers.Keys]
    ensures MembershipOf(s.(rooms := s.rooms - {r})) == MembershipOf(s) - {r}
  {
  }

  /** A room that gains a peer, seen through the log. */
  lemma GrowReplays(s: Relay, r: RoomId, p: PeerId, stream: Stream)
    ensures ApplyEvent(MembershipOf(s), Joined(p, r)) == MembershipOf(Register(s, r, p, stream))
  {
    var s' := Register(s, r, p, stream);
    var room := s'.rooms[r];
    assert s'.rooms == s.rooms[r := room];
    MembershipUpdated(s, r, room);
    PeersGain(PeersOf(s, r), PeerConn(p, r, stream));
    assert MembershipOf(s)[r := room.peers.Keys] == ApplyEvent(MembershipOf(s), Joined(p, r));
  }

  lemma PeersGain(peers: map<PeerId, PeerConn>, pc: PeerConn)
    ensures peers[pc.id := pc].Keys == peers.Keys + {pc.id}
  {
  }

  lemma RegisterReplays(s: Relay, r: RoomId, p: PeerId, stream: Stream)
    requires Replay(s.events) == MembershipOf(s)
    ensures var s' := Register(s, r, p, stream); Replay(s'.events) == MembershipOf(s')
  {
    ReplayAppend(s.events, Joined(p, r));
    GrowReplays(s, r, p, stream);
  }

  /** A room that loses a peer, seen through the log. */
  lemma ShrinkReplays(s: Relay, p: PeerId, r: RoomId)
    requires r in s.rooms
    ensures var peers := s.rooms[r].peers - {p};
            && ApplyEvent(MembershipOf(s), Left(p, r)) ==
               MembershipOf(s.(rooms := s.rooms[r := s.rooms[r].(peers := peers)]))
            && ApplyEvent(ApplyEvent(MembershipOf(s), Left(p, r)), Deleted(p, r)) ==
               MembershipOf(s.(rooms := s.rooms - {r}))
  {
    var m, peers := MembershipOf(s), s.rooms[r].peers - {p};
    assert peers.Keys == s.rooms[r].peers.Keys - {p};
    MembershipUpdated(s, r, s.rooms[r].(peers := peers));
    assert m[r := m[r] - {p}] - {r} == m - {r};
  }

  lemma LeaveReplays(s: Relay, p: PeerId, r: RoomId)
    requires Replay(s.events) == MembershipOf(s)
    ensures var s' := Leave(s, p, r); Replay(s'.events) == MembershipOf(s')
  {
    if p in s.peerToRoomIDs && p in PeersOf(s, r) {
      ShrinkReplays(s, p, r);
      ReplayAppend(s.events, Left(p, r));
      ReplayAppend(s.events + [Left(p, r)], Deleted(p, r));
      assert s.events + [Left(p, r)] + [Deleted(p, r)] == s.events + [Left(p, r), Deleted(p, r)];
    }
  }

  lemma StepReplays(s: Relay, e: Event)
    requires Enabled(s, e) && Replay(s.events) == MembershipOf(s)
    ensures var s' := Step(s, e); Replay(s'.events) == MembershipOf(s')
  {
    match e
    case JoinEvent(r, p, stream, order) => RegisterReplays(s, r, p, stream);
    case LeaveEvent(p, r) => LeaveReplays(s, p, r);
    case PacketEvent(p, r, pkt, order) =>
      PacketEffect(s, p, r, pkt, order);
      if LeaveHonoured(p, r, pkt) { LeaveReplays(s, p, r); }
  }

  lemma {:induction false} RunReplays(s: Relay, es: seq<Event>)
    requires Run(s, es) && Replay(s.events) == MembershipOf(s)
    ensures Replay(After(s, es).events) == MembershipOf(After(s, es))
    decreases |es|
  {
    if es != [] {
      StepReplays(s, es[0]);
      RunReplays(Step(s, es[0]), es[1..]);
    }
  }

  /** Main result: after any joins, leaves and packets whatever, replaying the log
      rebuilds exactly the map from rooms to peers. */
  lemma LogRebuildsRooms(es: seq<Event>)
    requires Run(EMPTY, es)
    ensures Replay(After(EMPTY, es).events) == MembershipOf(After(EMPTY, es))
  {
    RunReplays(EMPTY, es);
  }

  // ----- Deletions -----

  /** Event i leaves its room with nobody in it. */
  predicate Empties(log: seq<RelayEvent>, i: nat)
    requires i < |log|
  {
    var m := Replay(log[..i + 1]);
    log[i].Left? && log[i].roomID in m && m[log[i].roomID] == {}
  }

  /** Event i is followed by a deletion of its room by the same peer. */
  predicate DeletesNext(log: seq<RelayEvent>, i: nat)
    requires i < |log|
  {
    i + 1 < |log| && log[i + 1] == Deleted(log[i].peerID, log[i].roomID)
  }

  /** The leaving peer of event i was in the room it left. */
  predicate WasThere(log: seq<RelayEvent>, i: nat)
    requires i < |log|
  {
    var m := Replay(log[..i]);
    log[i].Left? ==> log[i].roomID in m && log[i].peerID in m[log[i].roomID]
  }

  /** Leaves name present peers, and a deletion comes exactly after each leave
      that empties its room. */
  ghost predicate Orderly(log: seq<RelayEvent>) {
    && (forall i: nat | i < |log| :: WasThere(log, i))
    && (forall i: nat | i < |log| :: Empties(log, i) ==> DeletesNext(log, i))
    && (forall i: nat | i < |log| && log[i].Deleted? ::
          i > 0 && Empties(log, i - 1) && DeletesNext(log, i - 1))
  }

  /** What is already in the log stays as orderly as it was. */
  lemma Prefix(log: seq<RelayEvent>, more: seq<RelayEvent>, i: nat)
    requires i < |log|
    ensures WasThere(log + more, i) == WasThere(log, i) && Empties(log + more, i) == Empties(log, i)
    ensures DeletesNext(log, i) ==> DeletesNext(log + more, i)
  {
    assert (log + more)[..i] == log[..i] && (log + more)[..i + 1] == log[..i + 1];
  }

  lemma AppendOne(log: seq<RelayEvent>, e: RelayEvent)
    requires Orderly(log) && !e.Deleted?
    requires e.Left? ==> e.roomID in Replay(log) && Replay(log)[e.roomID] > {e.peerID}
    ensures Orderly(log + [e])
  {
    var log' := log + [e];
    forall i: nat | i < |log| ensures WasThere(log', i) == WasThere(log, i) && Empties(log', i) == Empties(log, i)
                              ensures DeletesNext(log, i) ==> DeletesNext(log', i)
    {
      Prefix(log, [e], i);
    }
    assert log'[..|log|] == log && log'[..|log| + 1] == log';
    ReplayAppend(log, e);
  }

  lemma AppendPair(log: seq<RelayEvent>, p: PeerId, r: RoomId)
    requires Orderly(log) && r in Replay(log) && Replay(log)[r] == {p}
    ensures Orderly(log + [Left(p, r), Deleted(p, r)])
  {
    var more := [Left(p, r), Deleted(p, r)];
    var log' := log + more;
    forall i: nat | i < |log| ensures WasThere(log', i) == WasThere(log, i) && Empties(log', i) == Empties(log, i)
                              ensures DeletesNext(log, i) ==> DeletesNext(log', i)
    {
      Prefix(log, more, i);
    }
    assert log'[..|log|] == log && log'[..|log| + 1] == log + [Left(p, r)];
    ReplayAppend(log, Left(p, r));
    assert Empties(log', |log|) && DeletesNext(log', |log|);
  }

  lemma LeaveOrderly(s: Relay, p: PeerId, r: RoomId)
    requires Replay(s.events) == MembershipOf(s) && Orderly(s.events)
    ensures Orderly(Leave(s, p, r).events)
  {
    if p in s.peerToRoomIDs && p in PeersOf(s, r) {
      var peers := s.rooms[r].peers - {p};
      EmptyPeers(peers);
      assert s.rooms[r].peers.Keys == peers.Keys + {p};
      if |peers| == 0 {
        AppendPair(s.events, p, r);
      } else {
        AppendOne(s.events, Left(p, r));
      }
    }
  }

  lemma StepOrderly(s: Relay, e: Event)
    requires Enabled(s, e) && Replay(s.events) == MembershipOf(s) && Orderly(s.events)
    ensures Orderly(Step(s, e).events)
  {
    match e
    case JoinEvent(r, p, stream, order) => AppendOne(s.events, Joined(p, r));
    case LeaveEvent(p, r) => LeaveOrderly(s, p, r);
    case PacketEvent(p, r, pkt, order) =>
      PacketEffect(s, p, r, pkt, order);
      if LeaveHonoured(p, r, pkt) { LeaveOrderly(s, p, r); }
  }

  lemma {:induction false} RunOrderly(s: Relay, es: seq<Event>)
    requires Run(s, es) && Replay(s.events) == MembershipOf(s) && Orderly(s.events)
    ensures Orderly(After(s, es).events)
    decreases |es|
  {
    if es != [] {
      StepOrderly(s, es[0]);
      StepReplays(s, es[0]);
      RunOrderly(Step(s, es[0]), es[1..]);
    }
  }

  /** Main result: after any joins, leaves and packets whatever, every leave in the
      log is by a peer who was in the room, every delete directly follows the
      leave that emptied that room, and every such leave is followed by one. */
  lemma DeletesFollowEmptyingLeaves(es: seq<Event>)
    requires Run(EMPTY, es)
    ensures Orderly(After(EMPTY, es).events)
  {
    RunOrderly(EMPTY, es);
  }
}
