/** Relay players agree on the host: what a member will take to be the host once
    it has read its messages is always the host the server has. */
module HostAgreement {
  import opened Wire
  import opened ControlPlane
  import opened Replicas
  import opened Protocol
  import opened Runs
  import opened Quiet
  import opened News

  /** Client r is in one room at most, and will name that room's host. */
  ghost predicate Agrees(s: System, r: Ref)
    requires Consistent(s)
  {
    && OneRoom(s.srv, r)
    && (forall g | Member(s.srv, r, g) :: View(s, r).host == Some(HostOf(s.srv, g)))
  }

  /** Memberships that stay, of rooms whose hosts stay, for a view that stays. */
  lemma SameAgrees(s: System, s': System, r: Ref)
    requires Consistent(s) && Consistent(s') && Agrees(s, r)
    requires forall g | Member(s'.srv, r, g) :: Member(s.srv, r, g) && HostOf(s'.srv, g) == HostOf(s.srv, g)
    requires r in s.srv.heap && r in s'.srv.heap ==> View(s', r).host == View(s, r).host
    ensures Agrees(s', r)
  {
  }

  lemma ConnectAgrees(s: System, n: Ref, us: UserSession, order: seq<UserId>, r: Ref)
    requires Consistent(s) && Enabled(s, Connect(n, us, order)) && Agrees(s, r)
    ensures Agrees(Step(s, Connect(n, us, order)), r)
  {
    var s' := Step(s, Connect(n, us, order));
    assert s'.srv.rooms == s.srv.rooms;
    if r in s.srv.heap { ConnectView(s, n, us, order, r); }
    forall g | Member(s'.srv, r, g) ensures Member(s.srv, r, g) && HostOf(s'.srv, g) == HostOf(s.srv, g) {
      assert RoomWellFormed(s.srv.heap, g, s.srv.rooms[g]);
    }
    SameAgrees(s, s', r);
  }

  /** If the departed player was the host, the rest hear of the new one. */
  lemma LeaveHost(s: Server, x: Ref, next: UserId, v: Client, r: Ref)
    requires WellFormed(s) && x in s.heap && MayElect(s, x, next)
    requires Member(ControlPlane.Leave(s, x, next), r, s.heap[x].gameID)
    requires v.host == Some(HostOf(s, s.heap[x].gameID))
    ensures AfterLeave(s, x, next, v).host == Some(HostOf(ControlPlane.Leave(s, x, next), s.heap[x].gameID))
  {
  }

  lemma DisconnectAgrees(s: System, x: Ref, next: UserId, r: Ref)
    requires Consistent(s) && Enabled(s, Disconnect(x, next)) && Agrees(s, r)
    ensures Agrees(Step(s, Disconnect(x, next)), r)
  {
    var left := ControlPlane.Leave(s.srv, x, next);
    var s' := Step(s, Disconnect(x, next));
    assert s'.srv.rooms == left.rooms && s'.srv.heap == left.heap;
    forall g | Member(s'.srv, r, g) ensures Member(s.srv, r, g) && View(s', r).host == Some(HostOf(s'.srv, g)) {
      LeaveNet(s.srv, x, next, r);
      assert Member(left, r, g);
      DisconnectView(s, x, next, r);
      if g == s.srv.heap[x].gameID {
        LeaveHost(s.srv, x, next, View(s, r), r);
      } else {
        assert !Member(left, r, s.srv.heap[x].gameID);
        assert left.rooms[g] == s.srv.rooms[g];
      }
    }
  }

  lemma CreateMembers(s: Server, u: UserId, g: RoomId, ip: string, r: Ref, h: RoomId)
    requires WellFormed(s) && Member(Create(s, u, g, ip).0, r, h)
    ensures var s' := Create(s, u, g, ip).0;
            && WellFormed(s') && s'.net == s.net
            && if Member(s, r, h) then HostOf(s', h) == HostOf(s, h)
               else h == g && Registered(s, r) && s.heap[r].userID == u == HostOf(s', h)
  {
    CreateKeepsWellFormed(s, u, g, ip);
  }

  // ----- What client r notes -----

  /** s' is s, in what concerns session object r's rooms and messages, but client r has
      noted a host. */
  ghost predicate Noted(s: System, s': System, r: Ref, host: UserId)
    requires Consistent(s) && Consistent(s') && r in s.srv.heap && r in s'.srv.heap
  {
    && s'.srv.net[r] == s.srv.net[r] && s'.clients[r].host == Some(host)
    && (forall g :: Member(s'.srv, r, g) <==> Member(s.srv, r, g))
    && (forall g | Member(s.srv, r, g) :: HostOf(s'.srv, g) == HostOf(s.srv, g))
  }

  /** What client r may note is exact. */
  lemma NotedAgreesExactly(s: System, s': System, r: Ref, host: UserId)
    requires Consistent(s) && Consistent(s') && r in s.srv.heap && r in s'.srv.heap
    requires Noted(s, s', r, host) && OneRoom(s.srv, r) && NewsRight(s.srv, r)
    ensures Agrees(s', r) <==> MayNote(s, r, host)
  {
    MigrationLast(s.srv.net[r]);
    FoldHost(s'.clients[r], s.srv.net[r]);
    forall g | Member(s.srv, r, g)
      ensures View(s', r).host == Some(HostOf(s'.srv, g)) <==> HostOf(s.srv, g) == host || LastHost(s.srv.net[r]).Some?
    {
      assert HostRight(s.srv, r, g);
    }
  }

  lemma SelectedAgreesExactly(s: System, c: Ref, g: RoomId, r: Ref)
    requires Consistent(s) && c in s.live && Agrees(s, r) && NewsRight(s.srv, r)
    ensures Agrees(Selected(s, c, g), r) <==> RelayAllows(r, s, Select(c, g))
  {
    var s' := Selected(s, c, g);
    assert s'.srv == s.srv;
    if c == r && g in s.srv.rooms {
      NotedAgreesExactly(s, s', r, HostOf(s.srv, g));
    } else {
      SameAgrees(s, s', r);
    }
  }

  // ----- Joins -----

  /** A join that succeeds for session object r is exact: it agrees on the host if and
      only if it was in no room, and the host it has noted is still the host. */
  lemma JoinAgreesExactly(s: System, c: Ref, g: RoomId, ip: string, now: Time, r: Ref)
    requires Consistent(s) && c in s.live && AllQuiet(s) && JoinsAs(s, c, g, r)
    ensures Agrees(Joined(s, c, g, ip, now), r) <==> Roomless(s.srv, r) && HasNoted(s, r, g)
  {
    var u, s' := s.clients[c].userID, Joined(s, c, g, ip, now);
    JoinsIn(s.srv, g, u, ip, now, r);
    JoinedMember(s.srv, g, u, ip, now, r, g);
    if Roomless(s.srv, r) {
      LobbyNews(s.srv.net[r], 0);
      JoinNews(s.srv, g, u, ip, now, r);
      FoldHost(s'.clients[r], s.srv.net[r]);
      forall h | Member(s'.srv, r, h) ensures h == g { JoinedMember(s.srv, g, u, ip, now, r, h); }
    } else {
      var h :| h in s.srv.rooms && Member(s.srv, r, h);
      assert Member(s'.srv, r, h) && h != g;
    }
  }

  /** Any other join leaves session object r's agreement as it is. */
  lemma OtherJoinAgrees(s: System, c: Ref, g: RoomId, ip: string, now: Time, r: Ref)
    requires Consistent(s) && c in s.live && r in s.srv.heap && !JoinsAs(s, c, g, r)
    ensures Agrees(Joined(s, c, g, ip, now), r) <==> Agrees(s, r)
  {
    var u, s' := s.clients[c].userID, Joined(s, c, g, ip, now);
    if g in s.srv.rooms {
      FoldIndependent(s.clients[r], s'.clients[r], s.srv.net[r]);
      JoinView(s.srv, g, u, ip, now, s'.clients[r], r);
      forall h | Member(s'.srv, r, h) ensures Member(s.srv, r, h) && HostOf(s'.srv, h) == HostOf(s.srv, h) {
        JoinedMember(s.srv, g, u, ip, now, r, h);
      }
      forall h | Member(s.srv, r, h) ensures Member(s'.srv, r, h) { StaysMember(s.srv, g, u, ip, now, r, h); }
      if Agrees(s, r) { SameAgrees(s, s', r); }
      if Agrees(s', r) { SameAgrees(s', s, r); }
    }
  }

  lemma StaysMember(s: Server, g: RoomId, u: UserId, ip: string, now: Time, r: Ref, h: RoomId)
    requires WellFormed(s) && Member(s, r, h)
    ensures Member(JoinGame(s, g, u, ip, now), r, h)
  {
    JoinGameKeepsWellFormed(s, g, u, ip, now);
  }

  lemma JoinedAgreesExactly(s: System, c: Ref, g: RoomId, ip: string, now: Time, r: Ref)
    requires Consistent(s) && c in s.live && AllQuiet(s) && Agrees(s, r) && r in s.srv.heap
    ensures Agrees(Joined(s, c, g, ip, now), r) <==> RelayAllows(r, s, Join(c, g, ip, now))
  {
    if JoinsAs(s, c, g, r) {
      JoinAgreesExactly(s, c, g, ip, now, r);
    } else {
      OtherJoinAgrees(s, c, g, ip, now, r);
    }
  }

  /** Outside every room any host may be noted. */
  lemma RoomlessMayNote(s: System, r: Ref, host: UserId)
    requires Consistent(s) && r in s.srv.heap && Roomless(s.srv, r)
    ensures MayNote(s, r, host)
  {
  }

  /** Entering notes the host first, so that only the rooms it was in matter. */
  lemma EnterAgreesExactly(s: System, c: Ref, g: RoomId, ip: string, now: Time, r: Ref)
    requires Consistent(s) && c in s.live && AllQuiet(s) && JoinsAs(s, c, g, r)
    ensures Agrees(Joined(Selected(s, c, g), c, g, ip, now), r) <==> RelayAllows(r, s, Enter(c, g, ip, now))
  {
    EnterSeatedAgrees(s, c, g, ip, now, r);
    EnterSeatedAllowed(s, c, g, ip, now, r);
  }

  lemma EnterSeatedAgrees(s: System, c: Ref, g: RoomId, ip: string, now: Time, r: Ref)
    requires Consistent(s) && c in s.live && AllQuiet(s) && JoinsAs(s, c, g, r)
    ensures Agrees(Joined(Selected(s, c, g), c, g, ip, now), r) <==>
              Roomless(s.srv, r) && (c == r || HasNoted(s, r, g))
  {
    var mid := Selected(s, c, g);
    assert mid.srv == s.srv;
    JoinAgreesExactly(mid, c, g, ip, now, r);
  }

  lemma EnterSeatedAllowed(s: System, c: Ref, g: RoomId, ip: string, now: Time, r: Ref)
    requires Consistent(s) && c in s.live && JoinsAs(s, c, g, r)
    ensures RelayAllows(r, s, Enter(c, g, ip, now)) <==> Roomless(s.srv, r) && (c == r || HasNoted(s, r, g))
  {
    if Roomless(s.srv, r) { RoomlessMayNote(s, r, HostOf(s.srv, g)); }
  }

  lemma EnterElsewhereAgrees(s: System, c: Ref, g: RoomId, ip: string, now: Time, r: Ref)
    requires Consistent(s) && c in s.live && r in s.srv.heap && !JoinsAs(s, c, g, r)
    requires Agrees(s, r) && NewsRight(s.srv, r)
    ensures Agrees(Joined(Selected(s, c, g), c, g, ip, now), r) <==> RelayAllows(r, s, Select(c, g))
  {
    assert Selected(s, c, g).srv == s.srv;
    OtherJoinAgrees(Selected(s, c, g), c, g, ip, now, r);
    SelectedAgreesExactly(s, c, g, r);
  }

  lemma EnteredAgreesExactly(s: System, c: Ref, g: RoomId, ip: string, now: Time, r: Ref)
    requires Consistent(s) && c in s.live && AllQuiet(s) && Agrees(s, r) && NewsRight(s.srv, r) && r in s.srv.heap
    ensures Agrees(Joined(Selected(s, c, g), c, g, ip, now), r) <==> RelayAllows(r, s, Enter(c, g, ip, now))
  {
    if JoinsAs(s, c, g, r) {
      EnterAgreesExactly(s, c, g, ip, now, r);
    } else {
      EnterElsewhereAgrees(s, c, g, ip, now, r);
      assert RelayAllows(r, s, Enter(c, g, ip, now)) <==> RelayAllows(r, s, Select(c, g));
    }
  }

  // ----- Creations -----

  lemma CreatesIn(s: Server, u: UserId, g: RoomId, ip: string, r: Ref)
    requires WellFormed(s) && u in s.sessions && s.sessions[u] == r && g !in s.rooms
    ensures var s' := Create(s, u, g, ip).0;
            && WellFormed(s') && Member(s', r, g) && HostOf(s', g) == u && s'.net == s.net
            && forall h :: Member(s, r, h) ==> Member(s', r, h)
  {
    CreateKeepsWellFormed(s, u, g, ip);
  }

  /** A creation that succeeds for session object r: as exact as a join. */
  lemma CreateAgreesExactly(s: System, c: Ref, g: RoomId, addr: IP, r: Ref)
    requires Consistent(s) && c in s.live && AllQuiet(s) && CreatesAs(s, c, g, r)
    ensures Agrees(Created(s, c, g, addr), r) <==> RelayAllows(r, s, CreateGame(c, g, addr))
  {
    var u, s' := s.clients[c].userID, Created(s, c, g, addr);
    CreatesIn(s.srv, u, g, addr.text, r);
    if Roomless(s.srv, r) {
      RoomlessMayNote(s, r, u);
      SeatedAgreesExactly(s, c, g, addr, r);
    } else {
      var h :| h in s.srv.rooms && Member(s.srv, r, h);
      assert Member(s'.srv, r, h) && h != g;
    }
  }

  lemma SeatedAgreesExactly(s: System, c: Ref, g: RoomId, addr: IP, r: Ref)
    requires Consistent(s) && c in s.live && AllQuiet(s) && CreatesAs(s, c, g, r) && Roomless(s.srv, r)
    ensures Agrees(Created(s, c, g, addr), r) <==> c == r || s.clients[r].host == Some(s.clients[c].userID)
  {
    var u, s' := s.clients[c].userID, Created(s, c, g, addr);
    CreatesIn(s.srv, u, g, addr.text, r);
    LobbyNews(s.srv.net[r], 0);
    FoldHost(s'.clients[r], s.srv.net[r]);
    forall h | Member(s'.srv, r, h) ensures h == g { CreateMembers(s.srv, u, g, addr.text, r, h); }
  }

  /** Any other creation leaves session object r where it is. */
  lemma OtherCreateStays(s: Server, u: UserId, g: RoomId, ip: string, r: Ref, h: RoomId)
    requires WellFormed(s) && r in s.heap && !(u in s.sessions && s.sessions[u] == r && g !in s.rooms)
    ensures var s' := Create(s, u, g, ip).0;
            && WellFormed(s') && s'.net == s.net && r in s'.heap
            && (Member(s', r, h) <==> Member(s, r, h))
            && (Member(s, r, h) ==> HostOf(s', h) == HostOf(s, h))
  {
    CreateKeepsWellFormed(s, u, g, ip);
    if Member(Create(s, u, g, ip).0, r, h) { CreateMembers(s, u, g, ip, r, h); }
    if Member(s, r, h) { assert RoomWellFormed(s.heap, h, s.rooms[h]); }
  }

  /** A client whose creation does not seat session object r notes itself as the host. */
  lemma CreateElsewhereAgrees(s: System, c: Ref, g: RoomId, addr: IP, r: Ref)
    requires Consistent(s) && c in s.live && r in s.srv.heap && !CreatesAs(s, c, g, r)
    requires Agrees(s, r) && NewsRight(s.srv, r)
    ensures Agrees(Created(s, c, g, addr), r) <==> (c == r ==> MayNote(s, r, s.clients[r].userID))
  {
    var u, s' := s.clients[c].userID, Created(s, c, g, addr);
    forall h
      ensures Member(s'.srv, r, h) <==> Member(s.srv, r, h)
      ensures Member(s.srv, r, h) ==> HostOf(s'.srv, h) == HostOf(s.srv, h)
    {
      OtherCreateStays(s.srv, u, g, addr.text, r, h);
    }
    OtherCreateStays(s.srv, u, g, addr.text, r, g);
    if c == r { NotedAgreesExactly(s, s', r, u); } else { SameAgrees(s, s', r); }
  }

  lemma CreatedAgreesExactly(s: System, c: Ref, g: RoomId, addr: IP, r: Ref)
    requires Consistent(s) && c in s.live && AllQuiet(s) && Agrees(s, r) && NewsRight(s.srv, r) && r in s.srv.heap
    ensures Agrees(Created(s, c, g, addr), r) <==> RelayAllows(r, s, CreateGame(c, g, addr))
  {
    if CreatesAs(s, c, g, r) {
      CreateAgreesExactly(s, c, g, addr, r);
    } else {
      CreateElsewhereAgrees(s, c, g, addr, r);
    }
  }

  // ----- The other steps -----

  lemma ReselectedAgrees(s: System, c: Ref, characterID: int, classType: int, r: Ref)
    requires Consistent(s) && c in s.live && Agrees(s, r)
    ensures Agrees(Reselected(s, c, characterID, classType), r)
  {
    var s' := Reselected(s, c, characterID, classType);
    if r in s.srv.heap { ReselectView(s, c, characterID, classType, r); }
    assert s'.srv == s.srv;
    SameAgrees(s, s', r);
  }

  lemma DeliverAgrees(s: System, c: Ref, r: Ref)
    requires Consistent(s) && Enabled(s, Deliver(c)) && Agrees(s, r)
    ensures Agrees(Step(s, Deliver(c)), r)
  {
    var s' := Step(s, Deliver(c));
    if r in s.srv.heap { DeliverView(s, c, r); }
    assert forall g :: Member(s'.srv, r, g) <==> Member(s.srv, r, g);
    SameAgrees(s, s', r);
  }

  /** A session object not allocated yet agrees whatever is done. */
  lemma StrangerAgrees(s: System, e: Event, r: Ref)
    requires Consistent(s) && Enabled(s, e) && r !in s.srv.heap && !e.Connect?
    ensures RelayAllows(r, s, e) && Agrees(Step(s, e), r)
  {
    assert r !in Step(s, e).srv.heap by { SameHeap(s, e); }
  }

  /** What a relay player may do is exact, step by step: from agreement, with right
      news, a step leaves client r in agreement if and only if it is allowed. */
  lemma StepAgreesExactly(s: System, e: Event, r: Ref)
    requires Consistent(s) && Enabled(s, e) && AllQuiet(s) && Agrees(s, r) && NewsRight(s.srv, r)
    ensures Agrees(Step(s, e), r) <==> RelayAllows(r, s, e)
  {
    if r !in s.srv.heap && !e.Connect? {
      StrangerAgrees(s, e, r);
    } else {
      match e
      case Connect(n, us, order) => ConnectAgrees(s, n, us, order, r);
      case Disconnect(x, next) => DisconnectAgrees(s, x, next, r);
      case CreateGame(c, g, addr) => CreatedAgreesExactly(s, c, g, addr, r);
      case Select(c, g) => SelectedAgreesExactly(s, c, g, r);
      case Join(c, g, ip, now) => JoinedAgreesExactly(s, c, g, ip, now, r);
      case Enter(c, g, ip, now) => EnteredAgreesExactly(s, c, g, ip, now, r);
      case Reselect(c, characterID, classType) => ReselectedAgrees(s, c, characterID, classType, r);
      case Deliver(c) => DeliverAgrees(s, c, r);
    }
  }

  lemma StepAgreesRight(s: System, e: Event, r: Ref)
    requires Consistent(s) && Enabled(s, e) && RelayAllows(r, s, e)
    requires AllQuiet(s) && Agrees(s, r) && NewsRight(s.srv, r)
    ensures Agrees(Step(s, e), r) && NewsRight(Step(s, e).srv, r)
  {
    StepAgreesExactly(s, e, r);
    StepNewsRight(s, e, r);
  }

  lemma {:induction false} RunAgrees(s: System, es: seq<Event>, r: Ref)
    requires Consistent(s) && AllQuiet(s) && Agrees(s, r) && NewsRight(s.srv, r) && Run(RelayPlayer(r), s, es)
    ensures Agrees(After(RelayPlayer(r), s, es), r)
    decreases |es|
  {
    if es != [] {
      StepAgreesRight(s, es[0], r);
      StepQuiet(s, es[0]);
      RunAgrees(Step(s, es[0]), es[1..], r);
    }
  }

  /** Main result, for one client among clients of any behaviour: a member's
      unread messages always lead it to the room's host on the server. */
  lemma HostAgreement(es: seq<Event>, r: Ref)
    requires Run(RelayPlayer(r), INITIAL, es)
    ensures Agrees(After(RelayPlayer(r), INITIAL, es), r)
  {
    RunAgrees(INITIAL, es, r);
  }

  /** Every client agrees, and has right news. */
  ghost predicate AllAgree(s: System)
    requires Consistent(s)
  {
    forall r :: Agrees(s, r) && NewsRight(s.srv, r)
  }

  lemma StepAllAgree(s: System, e: Event)
    requires Consistent(s) && Enabled(s, e) && AllQuiet(s) && AllAgree(s) && Allows(RelayPlayers, s, e)
    ensures AllAgree(Step(s, e))
  {
    forall r ensures Agrees(Step(s, e), r) && NewsRight(Step(s, e).srv, r) {
      assert Agrees(s, r) && NewsRight(s.srv, r);
      if r !in s.srv.heap { StrangerAllowed(s, e, r); }
      StepAgreesRight(s, e, r);
    }
  }

  lemma StrangerAllowed(s: System, e: Event, r: Ref)
    requires Consistent(s) && Enabled(s, e) && r !in s.srv.heap
    ensures RelayAllows(r, s, e)
  {
  }

  lemma {:induction false} RunAllAgree(s: System, es: seq<Event>)
    requires Consistent(s) && AllQuiet(s) && AllAgree(s) && Run(RelayPlayers, s, es)
    ensures AllAgree(After(RelayPlayers, s, es))
    decreases |es|
  {
    if es != [] {
      StepAllAgree(s, es[0]);
      StepQuiet(s, es[0]);
      RunAllAgree(Step(s, es[0]), es[1..]);
    }
  }

  /** The members of room g have read all their messages. */
  ghost predicate Drained(s: System, g: RoomId)
    requires Consistent(s)
  {
    g in s.srv.rooms && forall r | Member(s.srv, r, g) :: s.srv.net[r] == []
  }

  /** The members of room g all name one of them, the host the server has. */
  ghost predicate OneHost(s: System, g: RoomId)
    requires Consistent(s) && g in s.srv.rooms
  {
    && Member(s.srv, s.srv.rooms[g].host, g)
    && forall r | Member(s.srv, r, g) :: s.clients[r].host == Some(s.srv.heap[s.srv.rooms[g].host].userID)
  }

  lemma DrainedAgree(s: System, g: RoomId)
    requires Consistent(s) && Drained(s, g) && AllAgree(s)
    ensures OneHost(s, g)
  {
    assert RoomWellFormed(s.srv.heap, g, s.srv.rooms[g]);
    forall r | Member(s.srv, r, g) ensures s.clients[r].host == Some(HostOf(s.srv, g)) {
      assert Agrees(s, r) && s.srv.net[r] == [];
    }
  }

  /** Main result, for all clients: once the members of a room have read their
      messages they name one and the same host, who is a member of the room. */
  lemma MembersAgreeOnOneMember(es: seq<Event>, g: RoomId)
    requires Run(RelayPlayers, INITIAL, es)
    ensures Drained(After(RelayPlayers, INITIAL, es), g) ==> OneHost(After(RelayPlayers, INITIAL, es), g)
  {
    assert AllAgree(INITIAL);
    RunAllAgree(INITIAL, es);
    var s := After(RelayPlayers, INITIAL, es);
    if Drained(s, g) { DrainedAgree(s, g); }
  }
}
