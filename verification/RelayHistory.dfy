/** Each peer's own history in the log alternates joins and leaves of one room at a
    time, when a peer joins only while it is not indexed, and leaves, while it is, only
    the room it is indexed under. */
module RelayHistory {
  import opened Wire
  import opened RelayRooms
  import opened RelayIndex

  /** The joins and leaves of peer p, in order. */
  function HistoryOf(log: seq<RelayEvent>, p: PeerId): seq<RelayEvent> {
    if log == [] then []
    else
      var e := log[|log| - 1];
      HistoryOf(log[..|log| - 1], p) + if e.peerID == p && !e.Deleted? then [e] else []
  }

  /** Event i is a join if i is even, and otherwise a leave of the room just joined. */
  predicate InTurn(h: seq<RelayEvent>, i: nat)
    requires i < |h|
  {
    if i % 2 == 0 then h[i].Joined? else h[i].Left? && h[i].roomID == h[i - 1].roomID
  }

  /** Join, leave the same room, join, leave the same room, and so on. */
  predicate Alternates(h: seq<RelayEvent>) {
    forall i: nat | i < |h| :: InTurn(h, i)
  }

  /** The index says whether peer p is between a join and a leave, and of what. */
  predicate Current(s: Relay, p: PeerId) {
    var h := HistoryOf(s.events, p);
    && Alternates(h)
    && (p in s.peerToRoomIDs <==> |h| % 2 == 1)
    && (p in s.peerToRoomIDs ==> h[|h| - 1].roomID == s.peerToRoomIDs[p])
  }

  lemma HistoryAppend(log: seq<RelayEvent>, e: RelayEvent, p: PeerId)
    ensures HistoryOf(log + [e], p) == HistoryOf(log, p) + if e.peerID == p && !e.Deleted? then [e] else []
  {
    assert (log + [e])[..|log|] == log;
  }

  lemma AlternatesAppend(h: seq<RelayEvent>, e: RelayEvent)
    requires Alternates(h)
    requires if |h| % 2 == 0 then e.Joined? else e.Left? && e.roomID == h[|h| - 1].roomID
    ensures Alternates(h + [e])
  {
    var h' := h + [e];
    forall i: nat | i < |h'| ensures InTurn(h', i) {
      if i < |h| { assert InTurn(h, i); }
    }
  }

  lemma RegisterCurrent(s: Relay, r: RoomId, q: PeerId, stream: Stream, p: PeerId)
    requires Current(s, p) && q !in s.peerToRoomIDs
    ensures Current(Register(s, r, q, stream), p)
  {
    HistoryAppend(s.events, Joined(q, r), p);
    if p == q {
      AlternatesAppend(HistoryOf(s.events, p), Joined(p, r));
    } else {
      assert HistoryOf(s.events, p) + [] == HistoryOf(s.events, p);
    }
  }

  /** The leave of another peer adds nothing to p's history. */
  lemma OtherLeaves(s: Relay, q: PeerId, r: RoomId, p: PeerId)
    requires Current(s, p) && p != q
    ensures Current(Leave(s, q, r), p)
  {
    LeaveHistory(s.events, q, r, p);
  }

  lemma LeaveCurrent(s: Relay, q: PeerId, r: RoomId, p: PeerId)
    requires Current(s, p) && IndexSound(s) && MayName(s, q, r)
    ensures Current(Leave(s, q, r), p)
  {
    if p != q {
      OtherLeaves(s, q, r, p);
    } else if p in s.peerToRoomIDs {
      LeaveHistory(s.events, p, r, p);
      AlternatesAppend(HistoryOf(s.events, p), Left(p, r));
    }
  }

  /** A leave adds itself to the history of the leaver, and a deletion adds nothing. */
  lemma LeaveHistory(log: seq<RelayEvent>, q: PeerId, r: RoomId, p: PeerId)
    ensures var h := HistoryOf(log, p);
            var h' := if p == q then h + [Left(q, r)] else h;
            HistoryOf(log + [Left(q, r)], p) == h' && HistoryOf(log + [Left(q, r), Deleted(q, r)], p) == h'
  {
    HistoryAppend(log, Left(q, r), p);
    HistoryAppend(log + [Left(q, r)], Deleted(q, r), p);
    assert log + [Left(q, r)] + [Deleted(q, r)] == log + [Left(q, r), Deleted(q, r)];
    var h := HistoryOf(log, p);
    assert h + [] == h && h + [Left(q, r)] + [] == h + [Left(q, r)];
  }

  /** Both guards are exact: a history that is current stays so, for the joiner, if and
      only if the joiner was not indexed. */
  lemma RegisterCurrentExactly(s: Relay, r: RoomId, p: PeerId, stream: Stream)
    requires Current(s, p)
    ensures Current(Register(s, r, p, stream), p) <==> p !in s.peerToRoomIDs
  {
    if p !in s.peerToRoomIDs {
      RegisterCurrent(s, r, p, stream, p);
    } else {
      HistoryAppend(s.events, Joined(p, r), p);
      var h := HistoryOf(s.events, p);
      assert !InTurn(h + [Joined(p, r)], |h|);
    }
  }

  /** And for the leaver, if and only if it was not indexed under another room. */
  lemma LeaveCurrentExactly(s: Relay, p: PeerId, r: RoomId)
    requires Current(s, p) && IndexSound(s)
    ensures Current(Leave(s, p, r), p) <==> MayName(s, p, r)
  {
    if MayName(s, p, r) {
      LeaveCurrent(s, p, r, p);
    } else {
      StrayLeave(s, p, r);
    }
  }

  /** A leave that names a room the peer is not indexed under either logs a leave out of
      turn, or drops the index entry and logs nothing. */
  lemma StrayLeave(s: Relay, p: PeerId, r: RoomId)
    requires Current(s, p) && !MayName(s, p, r)
    ensures !Current(Leave(s, p, r), p)
  {
    var h := HistoryOf(s.events, p);
    LeaveHistory(s.events, p, r, p);
    if p in PeersOf(s, r) {
      assert !InTurn(h + [Left(p, r)], |h|);
    }
  }

  /** Peers join only while not indexed, and leave the room they are indexed under. */
  predicate OneAtATime(s: Relay, es: seq<Event>)
    requires Run(s, es)
    decreases |es|
  {
    es == [] ||
    (&& MayStep(s, es[0])
     && (es[0].JoinEvent? ==> es[0].peerID !in s.peerToRoomIDs)
     && OneAtATime(Step(s, es[0]), es[1..]))
  }

  lemma {:induction false} RunCurrent(s: Relay, es: seq<Event>, p: PeerId)
    requires Run(s, es) && OneAtATime(s, es) && Sound(s) && Current(s, p)
    ensures Current(After(s, es), p)
    decreases |es|
  {
    if es != [] {
      match es[0] {
        case JoinEvent(r, q, stream, order) => RegisterCurrent(s, r, q, stream, p);
        case LeaveEvent(q, r) => LeaveCurrent(s, q, r, p);
        case PacketEvent(q, r, pkt, order) =>
          PacketEffect(s, q, r, pkt, order);
          if LeaveHonoured(q, r, pkt) { LeaveCurrent(s, q, r, p); }
      }
      StepSound(s, es[0]);
      RunCurrent(Step(s, es[0]), es[1..], p);
    }
  }

  /** Main result: the log restricted to one peer strictly alternates join and
      leave, each leave of the room last joined, and the index tells which is next. */
  lemma HistoriesAlternate(es: seq<Event>, p: PeerId)
    requires Run(EMPTY, es) && OneAtATime(EMPTY, es)
    ensures Alternates(HistoryOf(After(EMPTY, es).events, p))
    ensures p in After(EMPTY, es).peerToRoomIDs <==> |HistoryOf(After(EMPTY, es).events, p)| % 2 == 1
  {
    RunCurrent(EMPTY, es, p);
  }
}
