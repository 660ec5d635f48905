/** When the index from peers to rooms is exact: as long as a join or a leave by an
    indexed peer names the room it is indexed under. */
module RelayIndex {
  import opened Wire
  import opened RelayRooms

  predicate Matches(s: Relay, p: PeerId, r: RoomId) {
    p in PeersOf(s, r) <==> p in s.peerToRoomIDs && s.peerToRoomIDs[p] == r
  }

  /** A peer is indexed under exactly the rooms it is in; so it is in one at most. */
  ghost predicate TwoWay(s: Relay) {
    forall p, r :: Matches(s, p, r)
  }

  /** Peer p is free to join room r, or to leave it. */
  predicate MayName(s: Relay, p: PeerId, r: RoomId) {
    p in s.peerToRoomIDs ==> s.peerToRoomIDs[p] == r
  }

  /** The guard on joins is exact. */
  lemma JoinKeepsIndexExactly(s: Relay, r: RoomId, p: PeerId, stream: Stream)
    requires TwoWay(s)
    ensures TwoWay(Register(s, r, p, stream)) <==> MayName(s, p, r)
  {
    var s' := Register(s, r, p, stream);
    if MayName(s, p, r) {
      forall q, t ensures Matches(s', q, t) {
        assert Matches(s, q, t);
      }
    } else {
      var home := s.peerToRoomIDs[p];
      assert Matches(s, p, home);
      assert !Matches(s', p, home);
    }
  }

  /** The guard on leaves is exact. */
  lemma LeaveKeepsIndexExactly(s: Relay, p: PeerId, r: RoomId)
    requires TwoWay(s)
    ensures TwoWay(Leave(s, p, r)) <==> MayName(s, p, r)
  {
    var s' := Leave(s, p, r);
    if MayName(s, p, r) {
      forall q, t ensures Matches(s', q, t) {
        LeavePeers(s, p, r, q, t);
        assert Matches(s, q, t);
      }
    } else {
      var home := s.peerToRoomIDs[p];
      LeavePeers(s, p, r, p, home);
      assert Matches(s, p, home);
      assert !Matches(s', p, home);
    }
  }

  predicate MayStep(s: Relay, e: Event) {
    match e
    case JoinEvent(r, p, stream, order) => MayName(s, p, r)
    case LeaveEvent(p, r) => MayName(s, p, r)
    case PacketEvent(p, r, pkt, order) => LeaveHonoured(p, r, pkt) ==> MayName(s, p, r)
  }

  /** Every join or leave by an indexed peer names the room it is indexed under. */
  predicate Disciplined(s: Relay, es: seq<Event>)
    requires Run(s, es)
    decreases |es|
  {
    es == [] || (MayStep(s, es[0]) && Disciplined(Step(s, es[0]), es[1..]))
  }

  lemma SameTables(s: Relay, s': Relay)
    requires TwoWay(s) && s'.rooms == s.rooms && s'.peerToRoomIDs == s.peerToRoomIDs
    ensures TwoWay(s')
  {
    forall q, t ensures Matches(s', q, t) { assert Matches(s, q, t); }
  }

  lemma StepTwoWay(s: Relay, e: Event)
    requires Enabled(s, e) && MayStep(s, e) && TwoWay(s)
    ensures TwoWay(Step(s, e))
  {
    match e
    case JoinEvent(r, p, stream, order) =>
      JoinKeepsIndexExactly(s, r, p, stream);
      SameTables(Register(s, r, p, stream), Step(s, e));
    case LeaveEvent(p, r) => LeaveKeepsIndexExactly(s, p, r);
    case PacketEvent(p, r, pkt, order) =>
      PacketEffect(s, p, r, pkt, order);
      if LeaveHonoured(p, r, pkt) { LeaveKeepsIndexExactly(s, p, r); } else { SameTables(s, Step(s, e)); }
  }

  lemma {:induction false} RunTwoWay(s: Relay, es: seq<Event>)
    requires Run(s, es) && Disciplined(s, es) && TwoWay(s)
    ensures TwoWay(After(s, es))
    decreases |es|
  {
    if es != [] {
      StepTwoWay(s, es[0]);
      RunTwoWay(Step(s, es[0]), es[1..]);
    }
  }

  /** Main result: under that discipline a peer is indexed under room r exactly
      when it is in room r, hence never in two rooms. */
  lemma IndexIsExact(es: seq<Event>, p: PeerId, r: RoomId, t: RoomId)
    requires Run(EMPTY, es) && Disciplined(EMPTY, es)
    ensures var s := After(EMPTY, es);
            && (p in PeersOf(s, r) <==> p in s.peerToRoomIDs && s.peerToRoomIDs[p] == r)
            && (p in PeersOf(s, r) && p in PeersOf(s, t) ==> r == t)
  {
    assert forall q, u :: Matches(EMPTY, q, u);
    RunTwoWay(EMPTY, es);
    assert Matches(After(EMPTY, es), p, r) && Matches(After(EMPTY, es), p, t);
  }

  /** Without it the index goes wrong: a peer who joins a second room is indexed
      there only, though still in the first. */
  lemma SecondRoomUnindexed(p: PeerId, r: RoomId, t: RoomId)
    requires r != t
    ensures var es := [JoinEvent(r, p, 0, []), JoinEvent(t, p, 1, [])];
            && Run(EMPTY, es)
            && p in PeersOf(After(EMPTY, es), r)
            && p in After(EMPTY, es).peerToRoomIDs && After(EMPTY, es).peerToRoomIDs[p] != r
  {
    var e1, e2 := JoinEvent(r, p, 0, []), JoinEvent(t, p, 1, []);
    var s1 := Step(EMPTY, e1);
    var s2 := Step(s1, e2);
    assert [e1, e2][1..] == [e2] && [e2][1..] == [];
    assert Run(s2, []) && After(s2, []) == s2;
    assert Run(s1, [e2]) && After(s1, [e2]) == After(Step(s1, [e2][0]), [e2][1..]);
    assert After(EMPTY, [e1, e2]) == s2;
  }

  /** Leaving twice is leaving once, whatever room the second leave names. */
  lemma RepeatedLeave(s: Relay, p: PeerId, r: RoomId, t: RoomId)
    ensures Leave(Leave(s, p, r), p, t) == Leave(s, p, r)
  {
  }
}
