/** No ghost players: whoever a LAN member will list once it has read its
    messages is a player of the room on the server, even when other joins and
    departures come between selecting the room and joining it. */
module LanRoster {
  import opened Wire
  import opened ControlPlane
  import opened Replicas
  import opened Protocol
  import opened Runs
  import opened Quiet
  import opened News

  predicate ListsWithin(lan: LanRoom, bound: set<UserId>) {
    lan.players.Keys <= bound
  }

  /** Client r's copy is of room g and lists only its players. */
  predicate ListsPlayers(s: System, r: Ref, g: RoomId)
    requires Consistent(s) && r in s.clients
  {
    var lan := View(s, r).lan;
    lan.Some? && lan.value.id == g && ListsWithin(lan.value, PlayersOf(s.srv, g))
  }

  /** Client r's copy, if it has one, lists only players of the room it selected,
      and possibly itself. */
  predicate ListsSelection(s: System, r: Ref)
    requires Consistent(s) && r in s.clients
  {
    var lan := View(s, r).lan;
    lan.Some? ==> ListsWithin(lan.value, {s.clients[r].userID} + PlayersOf(s.srv, lan.value.id))
  }

  /** Client r is in one room at most; as a member it keeps that room and lists
      only its players, and before joining it lists only players of the room it
      selected, and possibly itself. */
  ghost predicate NoGhosts(s: System, r: Ref)
    requires Consistent(s)
  {
    && OneRoom(s.srv, r)
    && (forall g | Member(s.srv, r, g) :: ListsPlayers(s, r, g))
    && (Registered(s.srv, r) && Roomless(s.srv, r) ==> ListsSelection(s, r))
  }

  /** A copy within a bound stays within it, if the messages put nobody else in. */
  lemma CopyWithin(c: Client, q: seq<Message>, bound: set<UserId>)
    requires c.lan.Some? && ListsWithin(c.lan.value, bound)
    requires forall u :: LastWord(q, u).Here? ==> u in bound
    ensures var lan := Fold(c, q).lan; lan.Some? && lan.value.id == c.lan.value.id && ListsWithin(lan.value, bound)
  {
    FoldWord(c, q, 0);
    forall u | u in Fold(c, q).lan.value.players ensures u in bound {
      FoldWord(c, q, u);
      assert EntryOf(Fold(c, q).lan.value.players, u).Some?;
    }
  }

  /** Entering oneself in a copy adds at most oneself to what it will be. */
  lemma CopyPlusSelf(c: Client, d: Client, u: UserId, q: seq<Message>)
    requires c.lan.Some? && d.lan.Some? && d.lan.value.id == c.lan.value.id
    requires d.lan.value.players.Keys <= c.lan.value.players.Keys + {u}
    ensures var c', d' := Fold(c, q).lan, Fold(d, q).lan;
            && c'.Some? && d'.Some? && d'.value.id == c'.value.id == c.lan.value.id
            && d'.value.players.Keys <= c'.value.players.Keys + {u}
  {
    FoldWord(c, q, u);
    FoldWord(d, q, u);
    var c', d' := Fold(c, q).lan.value.players, Fold(d, q).lan.value.players;
    forall v | v in d' ensures v in c'.Keys + {u} {
      FoldWord(c, q, v);
      FoldWord(d, q, v);
      assert EntryOf(d', v).Some?;
    }
  }

  /** Client r's list has gained at most itself and players of the room it lists. */
  predicate ListGrew(s: System, s': System, r: Ref)
    requires Consistent(s) && Consistent(s') && r in s.srv.heap && r in s'.srv.heap
  {
    var lan, lan' := View(s, r).lan, View(s', r).lan;
    && s'.clients[r].userID == s.clients[r].userID
    && lan.Some? == lan'.Some?
    && (lan.Some? ==>
         && lan.value.id == lan'.value.id
         && lan'.value.players.Keys <= lan.value.players.Keys + {s.clients[r].userID} + PlayersOf(s'.srv, lan.value.id))
  }

  ghost predicate RoomsGrew(s: Server, s': Server) {
    forall h :: PlayersOf(s, h) <= PlayersOf(s', h)
  }

  /** Rooms gain players while client r's memberships stay. */
  lemma GrowNoGhosts(s: System, s': System, r: Ref)
    requires Consistent(s) && Consistent(s') && r in s.srv.heap && r in s'.srv.heap && NoGhosts(s, r)
    requires ListGrew(s, s', r) && RoomsGrew(s.srv, s'.srv)
    requires Registered(s'.srv, r) ==> Registered(s.srv, r)
    requires forall h :: Member(s'.srv, r, h) <==> Member(s.srv, r, h)
    ensures NoGhosts(s', r)
  {
    assert Roomless(s'.srv, r) ==> Roomless(s.srv, r);
  }

  lemma ConnectNoGhosts(s: System, n: Ref, us: UserSession, order: seq<UserId>, r: Ref)
    requires Consistent(s) && Enabled(s, Connect(n, us, order)) && NoGhosts(s, r)
    ensures NoGhosts(Step(s, Connect(n, us, order)), r)
  {
    var s' := Step(s, Connect(n, us, order));
    assert s'.srv.rooms == s.srv.rooms;
    if r == n {
      NewcomerView(s, n, us, order);
      assert forall g :: !Member(s'.srv, n, g);
    } else if r in s.srv.heap {
      ConnectView(s, n, us, order, r);
      assert forall g :: Member(s'.srv, r, g) <==> Member(s.srv, r, g);
      GrowNoGhosts(s, s', r);
    }
  }

  function Drop(lan: Option<LanRoom>, u: UserId): Option<LanRoom> {
    if lan.None? then lan else Some(lan.value.(players := lan.value.players - {u}))
  }

  lemma LeaveLan(s: Server, x: Ref, next: UserId, v: Client)
    requires WellFormed(s) && x in s.heap && MayElect(s, x, next)
    requires s.heap[x].gameID in s.rooms && Remaining(s, x).Keys != {}
    ensures AfterLeave(s, x, next, v).lan == Drop(v.lan, s.heap[x].userID)
  {
  }

  lemma LeaveLobbyLan(v: Client, p: Player)
    ensures Apply(v, LeaveLobby(p)).lan == Drop(v.lan, p.userID)
  {
  }

  /** What a departure leaves of a copy: a player of its room drops the departed, and
      everyone registered drops the user its hello named. */
  function Bereft(lan: Option<LanRoom>, us: UserSession, member: bool, registered: bool): Option<LanRoom> {
    var left := if member then Drop(lan, us.userID) else lan;
    if registered then Drop(left, us.helloID) else left
  }

  lemma DisconnectLan(s: System, x: Ref, next: UserId, r: Ref)
    requires Consistent(s) && Enabled(s, Disconnect(x, next)) && r in s.srv.heap
    ensures var s', us := Step(s, Disconnect(x, next)), s.srv.heap[x];
            View(s', r).lan == Bereft(View(s, r).lan, us, Member(s'.srv, r, us.gameID), Registered(s'.srv, r))
  {
    var v, us := View(s, r), s.srv.heap[x];
    DisconnectView(s, x, next, r);
    LeaveLobbyLan(v, us.ToPlayer());
    if Member(Step(s, Disconnect(x, next)).srv, r, us.gameID) {
      LeaveLan(s.srv, x, next, v);
      LeaveLobbyLan(AfterLeave(s.srv, x, next, v), us.ToPlayer());
    }
  }

  lemma BereftWithin(lan: Option<LanRoom>, us: UserSession, member: bool, registered: bool, bound: set<UserId>)
    requires lan.Some? && ListsWithin(lan.value, bound)
    ensures var left := Bereft(lan, us, member, registered);
            left.Some? && left.value.id == lan.value.id
            && ListsWithin(left.value, if member then bound - {us.userID} else bound)
  {
  }

  lemma LeavePlayers(s: Server, x: Ref, next: UserId, g: RoomId)
    requires WellFormed(s) && x in s.heap && MayElect(s, x, next)
    ensures PlayersOf(ControlPlane.Leave(s, x, next), g) ==
            PlayersOf(s, g) - if g == s.heap[x].gameID then {s.heap[x].userID} else {}
  {
  }

  /** What a departure does to rooms and memberships. */
  lemma DisconnectRooms(s: System, x: Ref, next: UserId, r: Ref, g: RoomId)
    requires Consistent(s) && Enabled(s, Disconnect(x, next)) && r in s.srv.heap
    ensures var s' := Step(s, Disconnect(x, next));
            && s'.srv.heap == s.srv.heap && s'.clients == s.clients
            && (Member(s'.srv, r, g) ==> Member(s.srv, r, g))
            && (Registered(s'.srv, r) ==> Registered(s.srv, r) && s.srv.heap[r].userID != s.srv.heap[x].userID)
            && (Registered(s'.srv, r) && Member(s.srv, r, g) ==> Member(s'.srv, r, g))
            && PlayersOf(s'.srv, g) ==
               PlayersOf(s.srv, g) - if g == s.srv.heap[x].gameID then {s.srv.heap[x].userID} else {}
  {
    var left := ControlPlane.Leave(s.srv, x, next);
    var s' := Step(s, Disconnect(x, next));
    assert s'.srv.rooms == left.rooms && s'.srv.heap == left.heap;
    LeaveNet(s.srv, x, next, r);
    assert Member(s'.srv, r, g) <==> Member(left, r, g);
    LeavePlayers(s.srv, x, next, g);
  }

  /** A member keeps its room and loses the departed from its list, if it was there. */
  lemma DisconnectMember(s: System, x: Ref, next: UserId, r: Ref, g: RoomId)
    requires Consistent(s) && Enabled(s, Disconnect(x, next)) && r in s.srv.heap
    requires Member(Step(s, Disconnect(x, next)).srv, r, g) && ListsPlayers(s, r, g)
    ensures ListsPlayers(Step(s, Disconnect(x, next)), r, g)
  {
    var s', us := Step(s, Disconnect(x, next)), s.srv.heap[x];
    DisconnectRooms(s, x, next, r, g);
    DisconnectLan(s, x, next, r);
    BereftWithin(View(s, r).lan, us, Member(s'.srv, r, us.gameID), Registered(s'.srv, r), PlayersOf(s.srv, g));
  }

  /** The copy of somebody else, who is in no room, once session us has left. */
  lemma BereftSelection(lan: LanRoom, us: UserSession, self: UserId, players: set<UserId>)
    requires ListsWithin(lan, {self} + players) && self != us.userID
    ensures var left := Bereft(Some(lan), us, false, true);
            var after := players - if lan.id == us.gameID then {us.userID} else {};
            && left.Some? && left.value.id == lan.id
            && (ListsWithin(left.value, {self} + after) <==>
                  us.TrueName() || lan.id != us.gameID || us.userID !in lan.players)
  {
    var left := Bereft(Some(lan), us, false, true).value;
    assert left.players.Keys == lan.players.Keys - {us.helloID};
    if lan.id == us.gameID && us.userID in lan.players && !us.TrueName() { assert us.userID in left.players; }
  }

  lemma DisconnectSelection(s: System, x: Ref, next: UserId, r: Ref)
    requires Consistent(s) && Enabled(s, Disconnect(x, next)) && r in s.srv.heap && Roomless(s.srv, r)
    requires Registered(Step(s, Disconnect(x, next)).srv, r) && ListsSelection(s, r)
    ensures ListsSelection(Step(s, Disconnect(x, next)), r) <==> !Deserts(s, x, r)
  {
    var s', us, lan := Step(s, Disconnect(x, next)), s.srv.heap[x], View(s, r).lan;
    DisconnectRooms(s, x, next, r, us.gameID);
    assert !Member(s'.srv, r, us.gameID);
    DisconnectLan(s, x, next, r);
    assert View(s', r).lan == Bereft(lan, us, false, true);
    if lan.Some? {
      DisconnectRooms(s, x, next, r, lan.value.id);
      BereftSelection(lan.value, us, s.clients[r].userID, PlayersOf(s.srv, lan.value.id));
    }
  }

  /** The condition on departures is exact. */
  lemma DisconnectNoGhostsExactly(s: System, x: Ref, next: UserId, r: Ref)
    requires Consistent(s) && Enabled(s, Disconnect(x, next)) && NoGhosts(s, r) && r in s.srv.heap
    ensures NoGhosts(Step(s, Disconnect(x, next)), r) <==> !Deserts(s, x, r)
  {
    var s' := Step(s, Disconnect(x, next));
    forall g | Member(s'.srv, r, g) ensures Member(s.srv, r, g) && ListsPlayers(s', r, g) {
      DisconnectRooms(s, x, next, r, g);
      DisconnectMember(s, x, next, r, g);
    }
    if Registered(s'.srv, r) {
      forall g ensures Member(s'.srv, r, g) <==> Member(s.srv, r, g) { DisconnectRooms(s, x, next, r, g); }
      DisconnectRooms(s, x, next, r, "");
      assert Roomless(s'.srv, r) <==> Roomless(s.srv, r);
      if Roomless(s.srv, r) { DisconnectSelection(s, x, next, r); }
    } else {
      DisconnectRegistry(s, x, next, r);
    }
  }

  /** Only the departed user's session loses its registration. */
  lemma DisconnectRegistry(s: System, x: Ref, next: UserId, r: Ref)
    requires Consistent(s) && Enabled(s, Disconnect(x, next)) && r in s.srv.heap
    ensures var s' := Step(s, Disconnect(x, next));
            Registered(s'.srv, r) <==> Registered(s.srv, r) && s.srv.heap[r].userID != s.srv.heap[x].userID
  {
    LeaveTables(s.srv, x, next);
  }

  // ----- What client r copies -----

  /** s' is s, in what concerns session object r's rooms and messages, but client r has
      copied a room: at most its players and itself. */
  ghost predicate Copied(s: System, s': System, r: Ref, g: RoomId)
    requires Consistent(s) && Consistent(s') && r in s.srv.heap && r in s'.srv.heap
  {
    && s'.srv.net[r] == s.srv.net[r]
    && (forall h :: Member(s'.srv, r, h) <==> Member(s.srv, r, h))
    && (Registered(s'.srv, r) <==> Registered(s.srv, r))
    && RoomsGrew(s.srv, s'.srv)
    && var lan := s'.clients[r].lan;
       && lan.Some? && lan.value.id == g
       && ListsWithin(lan.value, {s'.clients[r].userID} + PlayersOf(s'.srv, g))
  }

  lemma CopiedLists(s: System, s': System, r: Ref, g: RoomId)
    requires Consistent(s) && Consistent(s') && r in s.srv.heap && r in s'.srv.heap
    requires Copied(s, s', r, g) && NewsRight(s.srv, r) && AllQuiet(s)
    ensures Member(s.srv, r, g) ==> ListsPlayers(s', r, g)
    ensures Registered(s.srv, r) && Roomless(s.srv, r) ==> ListsSelection(s', r)
  {
    var q, c := s.srv.net[r], s'.clients[r];
    var bound := {c.userID} + PlayersOf(s'.srv, g);
    if Member(s.srv, r, g) {
      assert c.userID in PlayersOf(s'.srv, g) by { assert Member(s'.srv, r, g); }
      assert bound == PlayersOf(s'.srv, g);
      forall u ensures LastWord(q, u).Here? ==> u in bound { assert PlayerRight(s.srv, r, g, u); }
      CopyWithin(c, q, bound);
    } else if Registered(s.srv, r) && Roomless(s.srv, r) {
      forall u ensures !LastWord(q, u).Here? { LobbyNews(q, u); }
      CopyWithin(c, q, bound);
    }
  }

  /** What client r may copy is exact. */
  lemma CopiedExactly(s: System, s': System, r: Ref, g: RoomId)
    requires Consistent(s) && Consistent(s') && r in s.srv.heap && r in s'.srv.heap
    requires Copied(s, s', r, g) && NewsRight(s.srv, r) && AllQuiet(s) && OneRoom(s.srv, r)
    ensures NoGhosts(s', r) <==> MayCopy(s, r, g)
  {
    CopiedLists(s, s', r, g);
    FoldWord(s'.clients[r], s.srv.net[r], 0);
    assert Roomless(s'.srv, r) <==> Roomless(s.srv, r);
    if h :| h in s.srv.rooms && Member(s.srv, r, h) && h != g {
      assert Member(s'.srv, r, h) && !ListsPlayers(s', r, h);
    }
  }

  lemma SelectedNoGhostsExactly(s: System, c: Ref, g: RoomId, r: Ref)
    requires Consistent(s) && c in s.live && AllQuiet(s) && NewsRight(s.srv, r) && NoGhosts(s, r) && r in s.srv.heap
    ensures NoGhosts(Selected(s, c, g), r) <==> LanAllows(r, s, Select(c, g))
  {
    var s' := Selected(s, c, g);
    assert s'.srv == s.srv;
    if c == r && g in s.srv.rooms { CopiedExactly(s, s', r, g); } else { GrowNoGhosts(s, s', r); }
  }

  // ----- Joins -----

  lemma JoinPlayers(s: Server, g: RoomId, u: UserId, ip: string, now: Time, r: Ref, h: RoomId)
    requires WellFormed(s) && r in s.heap
    ensures var s' := JoinGame(s, g, u, ip, now);
            && PlayersOf(s, h) <= PlayersOf(s', h)
            && (Registered(s', r) <==> Registered(s, r))
            && (Member(s, r, h) ==> Member(s', r, h))
            && (Member(s', r, h) ==>
                  Member(s, r, h) || (h == g && u in s.sessions && s.sessions[u] == r && u !in s.rooms[g].players))
            && (u in s.sessions && g in s.rooms ==> u in PlayersOf(s', g))
            && (r in s'.heap && s'.heap[r].userID == s.heap[r].userID)
  {
  }

  /** A join shows in client r's copy as the newcomer, if r is in the room, and as
      itself, if it is r's own. */
  lemma JoinedLan(s: System, c: Ref, g: RoomId, ip: string, now: Time, r: Ref)
    requires Consistent(s) && c in s.live && g in s.srv.rooms && r in s.srv.heap
    requires Member(s.srv, r, g) && View(s, r).lan.Some? ==> View(s, r).lan.value.id == g
    ensures var lan, lan' := View(s, r).lan, View(Joined(s, c, g, ip, now), r).lan;
            && lan.Some? == lan'.Some? == s.clients[r].lan.Some?
            && (lan.Some? ==> lan.value.id == lan'.value.id == s.clients[r].lan.value.id)
    ensures ListGrew(s, Joined(s, c, g, ip, now), r)
  {
    var u, s' := s.clients[c].userID, Joined(s, c, g, ip, now);
    JoinView(s.srv, g, u, ip, now, s'.clients[r], r);
    JoinPlayers(s.srv, g, u, ip, now, r, g);
    if s.clients[r].lan.Some? {
      CopyPlusSelf(s.clients[r], s'.clients[r], s.clients[r].userID, s.srv.net[r]);
    } else {
      FoldNone(s.clients[r], s.srv.net[r]);
      FoldNone(s'.clients[r], s.srv.net[r]);
    }
  }

  /** A join that does not seat session object r makes it list no ghosts. */
  lemma OtherJoinNoGhosts(s: System, c: Ref, g: RoomId, ip: string, now: Time, r: Ref)
    requires Consistent(s) && c in s.live && r in s.srv.heap && NoGhosts(s, r) && !JoinsAs(s, c, g, r)
    ensures NoGhosts(Joined(s, c, g, ip, now), r)
  {
    var u, s' := s.clients[c].userID, Joined(s, c, g, ip, now);
    if g in s.srv.rooms {
      if Member(s.srv, r, g) { assert ListsPlayers(s, r, g); }
      JoinedLan(s, c, g, ip, now, r);
      forall h
        ensures PlayersOf(s.srv, h) <= PlayersOf(s'.srv, h)
        ensures Member(s'.srv, r, h) <==> Member(s.srv, r, h)
      {
        JoinPlayers(s.srv, g, u, ip, now, r, h);
      }
      JoinPlayers(s.srv, g, u, ip, now, r, g);
      GrowNoGhosts(s, s', r);
    }
  }

  /** Client r, in no room, enters the room it lists. */
  lemma EnterNoGhosts(s: System, s': System, r: Ref, g: RoomId)
    requires Consistent(s) && Consistent(s') && r in s.srv.heap && r in s'.srv.heap && ListsSelection(s, r)
    requires ListGrew(s, s', r) && RoomsGrew(s.srv, s'.srv)
    requires View(s, r).lan.Some? && View(s, r).lan.value.id == g && Member(s'.srv, r, g)
    requires forall h :: Member(s'.srv, r, h) ==> h == g
    ensures NoGhosts(s', r)
  {
    assert s'.clients[r].userID in PlayersOf(s'.srv, g);
  }

  /** The condition on a join that seats session object r is exact. */
  lemma JoinNoGhostsExactly(s: System, c: Ref, g: RoomId, ip: string, now: Time, r: Ref)
    requires Consistent(s) && c in s.live && JoinsAs(s, c, g, r)
    requires Roomless(s.srv, r) ==> ListsSelection(s, r)
    ensures NoGhosts(Joined(s, c, g, ip, now), r) <==> Roomless(s.srv, r) && HasCopy(s, r, g)
  {
    var u, s' := s.clients[c].userID, Joined(s, c, g, ip, now);
    JoinsIn(s.srv, g, u, ip, now, r);
    if Roomless(s.srv, r) {
      JoinedLan(s, c, g, ip, now, r);
      forall h
        ensures PlayersOf(s.srv, h) <= PlayersOf(s'.srv, h)
        ensures Member(s'.srv, r, h) ==> h == g
      {
        JoinPlayers(s.srv, g, u, ip, now, r, h);
      }
      if HasCopy(s, r, g) { EnterNoGhosts(s, s', r, g); } else { assert !ListsPlayers(s', r, g); }
    } else {
      TwoRooms(s, c, g, ip, now, r);
    }
  }

  lemma TwoRooms(s: System, c: Ref, g: RoomId, ip: string, now: Time, r: Ref)
    requires Consistent(s) && c in s.live && JoinsAs(s, c, g, r) && !Roomless(s.srv, r)
    ensures !OneRoom(Joined(s, c, g, ip, now).srv, r)
  {
    var h :| h in s.srv.rooms && Member(s.srv, r, h);
    JoinsIn(s.srv, g, s.clients[c].userID, ip, now, r);
    JoinPlayers(s.srv, g, s.clients[c].userID, ip, now, r, h);
  }

  lemma JoinedNoGhostsExactly(s: System, c: Ref, g: RoomId, ip: string, now: Time, r: Ref)
    requires Consistent(s) && c in s.live && r in s.srv.heap && NoGhosts(s, r)
    ensures NoGhosts(Joined(s, c, g, ip, now), r) <==> LanAllows(r, s, Join(c, g, ip, now))
  {
    if JoinsAs(s, c, g, r) {
      assert Registered(s.srv, r);
      JoinNoGhostsExactly(s, c, g, ip, now, r);
    } else {
      OtherJoinNoGhosts(s, c, g, ip, now, r);
    }
  }

  /** Outside every room any room may be copied. */
  lemma RoomlessMayCopy(s: System, r: Ref, g: RoomId)
    requires Consistent(s) && Roomless(s.srv, r)
    ensures MayCopy(s, r, g)
  {
  }

  lemma EnterSeatedNoGhosts(s: System, c: Ref, g: RoomId, ip: string, now: Time, r: Ref)
    requires Consistent(s) && c in s.live && AllQuiet(s) && NewsRight(s.srv, r) && NoGhosts(s, r) && JoinsAs(s, c, g, r)
    ensures NoGhosts(Joined(Selected(s, c, g), c, g, ip, now), r) <==>
              Roomless(s.srv, r) && (c == r || HasCopy(s, r, g))
  {
    var mid := Selected(s, c, g);
    assert mid.srv == s.srv && Registered(s.srv, r);
    SelectedNoGhostsExactly(s, c, g, r);
    if Roomless(s.srv, r) { RoomlessMayCopy(s, r, g); }
    JoinNoGhostsExactly(mid, c, g, ip, now, r);
  }

  lemma EnterSeatedAllowed(s: System, c: Ref, g: RoomId, ip: string, now: Time, r: Ref)
    requires Consistent(s) && c in s.live && JoinsAs(s, c, g, r)
    ensures LanAllows(r, s, Enter(c, g, ip, now)) <==> Roomless(s.srv, r) && (c == r || HasCopy(s, r, g))
  {
    if Roomless(s.srv, r) { RoomlessMayCopy(s, r, g); }
  }

  lemma EnterElsewhereNoGhosts(s: System, c: Ref, g: RoomId, ip: string, now: Time, r: Ref)
    requires Consistent(s) && c in s.live && AllQuiet(s) && NewsRight(s.srv, r) && NoGhosts(s, r) && r in s.srv.heap
    requires !JoinsAs(s, c, g, r)
    ensures NoGhosts(Joined(Selected(s, c, g), c, g, ip, now), r) <==> LanAllows(r, s, Select(c, g))
  {
    var mid := Selected(s, c, g);
    assert mid.srv == s.srv;
    SelectedNoGhostsExactly(s, c, g, r);
    if NoGhosts(mid, r) {
      OtherJoinNoGhosts(mid, c, g, ip, now, r);
    } else {
      EnterSpoilt(s, c, g, ip, now, r);
    }
  }

  /** A member that has copied another room has, whatever it goes on to join. */
  lemma EnterSpoilt(s: System, c: Ref, g: RoomId, ip: string, now: Time, r: Ref)
    requires Consistent(s) && c in s.live && r in s.srv.heap && c == r && g in s.srv.rooms && !MayCopy(s, r, g)
    ensures !NoGhosts(Joined(Selected(s, c, g), c, g, ip, now), r)
  {
    var mid, u := Selected(s, c, g), s.clients[c].userID;
    var s' := Joined(mid, c, g, ip, now);
    var h :| h in s.srv.rooms && Member(s.srv, r, h) && h != g;
    JoinPlayers(s.srv, g, u, ip, now, r, h);
    JoinView(s.srv, g, u, ip, now, s'.clients[r], r);
    FoldWord(s'.clients[r], s.srv.net[r], 0);
    assert !ListsPlayers(s', r, h);
  }

  lemma EnteredNoGhostsExactly(s: System, c: Ref, g: RoomId, ip: string, now: Time, r: Ref)
    requires Consistent(s) && c in s.live && AllQuiet(s) && NewsRight(s.srv, r) && NoGhosts(s, r) && r in s.srv.heap
    ensures NoGhosts(Joined(Selected(s, c, g), c, g, ip, now), r) <==> LanAllows(r, s, Enter(c, g, ip, now))
  {
    if JoinsAs(s, c, g, r) {
      EnterSeatedNoGhosts(s, c, g, ip, now, r);
      EnterSeatedAllowed(s, c, g, ip, now, r);
    } else {
      EnterElsewhereNoGhosts(s, c, g, ip, now, r);
      assert LanAllows(r, s, Enter(c, g, ip, now)) <==> LanAllows(r, s, Select(c, g));
    }
  }

  // ----- Creations -----

  lemma CreatePlayers(s: Server, u: UserId, g: RoomId, ip: string, r: Ref, h: RoomId)
    requires WellFormed(s) && r in s.heap
    ensures var s' := Create(s, u, g, ip).0;
            && s'.net == s.net && r in s'.heap
            && PlayersOf(s, h) <= PlayersOf(s', h)
            && (Registered(s', r) <==> Registered(s, r))
            && (Member(s, r, h) ==> Member(s', r, h))
            && (Member(s', r, h) ==>
                  Member(s, r, h) || (h == g && g !in s.rooms && u in s.sessions && s.sessions[u] == r))
            && (u in s.sessions && g !in s.rooms ==>
                  PlayersOf(s', g) == {u} && (s.sessions[u] == r ==> Member(s', r, g) && s.heap[r].userID == u))
  {
  }

  /** A creation that does not seat session object r. */
  lemma CreateElsewhereNoGhosts(s: System, c: Ref, g: RoomId, addr: IP, r: Ref)
    requires Consistent(s) && c in s.live && AllQuiet(s) && NewsRight(s.srv, r) && NoGhosts(s, r) && r in s.srv.heap
    requires !CreatesAs(s, c, g, r)
    ensures NoGhosts(Created(s, c, g, addr), r) <==> (c == r ==> MayCopy(s, r, g))
  {
    var u, s' := s.clients[c].userID, Created(s, c, g, addr);
    forall h
      ensures PlayersOf(s.srv, h) <= PlayersOf(s'.srv, h)
      ensures Member(s'.srv, r, h) <==> Member(s.srv, r, h)
    {
      CreatePlayers(s.srv, u, g, addr.text, r, h);
    }
    CreatePlayers(s.srv, u, g, addr.text, r, g);
    if c == r { CopiedExactly(s, s', r, g); } else { GrowNoGhosts(s, s', r); }
  }

  /** The condition on a creation that seats session object r is exact. */
  lemma CreateNoGhostsExactly(s: System, c: Ref, g: RoomId, addr: IP, r: Ref)
    requires Consistent(s) && c in s.live && AllQuiet(s) && NoGhosts(s, r) && CreatesAs(s, c, g, r)
    ensures NoGhosts(Created(s, c, g, addr), r) <==> Roomless(s.srv, r) && (c == r || HasCopy(s, r, g))
  {
    var u, s' := s.clients[c].userID, Created(s, c, g, addr);
    assert Registered(s.srv, r);
    forall h ensures Member(s.srv, r, h) ==> Member(s'.srv, r, h) { CreatePlayers(s.srv, u, g, addr.text, r, h); }
    CreatePlayers(s.srv, u, g, addr.text, r, g);
    if Roomless(s.srv, r) {
      forall h ensures Member(s'.srv, r, h) ==> h == g { CreatePlayers(s.srv, u, g, addr.text, r, h); }
      SeatedLists(s, c, g, addr, r);
    } else {
      var h :| h in s.srv.rooms && Member(s.srv, r, h);
      assert Member(s'.srv, r, h) && Member(s'.srv, r, g) && h != g;
    }
  }

  lemma SeatedLists(s: System, c: Ref, g: RoomId, addr: IP, r: Ref)
    requires Consistent(s) && c in s.live && AllQuiet(s) && CreatesAs(s, c, g, r)
    requires Roomless(s.srv, r) && ListsSelection(s, r)
    ensures var s' := Created(s, c, g, addr);
            r in s'.clients && (ListsPlayers(s', r, g) <==> c == r || HasCopy(s, r, g))
  {
    var u, s', q := s.clients[c].userID, Created(s, c, g, addr), s.srv.net[r];
    CreatePlayers(s.srv, u, g, addr.text, r, g);
    if c == r {
      forall v ensures !LastWord(q, v).Here? { LobbyNews(q, v); }
      CopyWithin(s'.clients[r], q, {u});
    } else if s.clients[r].lan.Some? {
      FoldWord(s.clients[r], q, 0);
    } else {
      FoldNone(s.clients[r], q);
    }
  }

  lemma CreatedNoGhostsExactly(s: System, c: Ref, g: RoomId, addr: IP, r: Ref)
    requires Consistent(s) && c in s.live && AllQuiet(s) && NewsRight(s.srv, r) && NoGhosts(s, r) && r in s.srv.heap
    ensures NoGhosts(Created(s, c, g, addr), r) <==> LanAllows(r, s, CreateGame(c, g, addr))
  {
    if CreatesAs(s, c, g, r) {
      CreateNoGhostsExactly(s, c, g, addr, r);
      if Roomless(s.srv, r) { RoomlessMayCopy(s, r, g); }
    } else {
      CreateElsewhereNoGhosts(s, c, g, addr, r);
    }
  }

  // ----- The other steps, and runs -----

  lemma ReselectNoGhosts(s: System, c: Ref, characterID: int, classType: int, r: Ref)
    requires Consistent(s) && c in s.live && NoGhosts(s, r)
    ensures NoGhosts(Reselected(s, c, characterID, classType), r)
  {
    if r in s.srv.heap {
      ReselectView(s, c, characterID, classType, r);
      GrowNoGhosts(s, Reselected(s, c, characterID, classType), r);
    }
  }

  lemma DeliverNoGhosts(s: System, c: Ref, r: Ref)
    requires Consistent(s) && Enabled(s, Deliver(c)) && NoGhosts(s, r)
    ensures NoGhosts(Step(s, Deliver(c)), r)
  {
    var s' := Step(s, Deliver(c));
    if r in s.srv.heap {
      DeliverView(s, c, r);
      assert forall g :: Member(s'.srv, r, g) <==> Member(s.srv, r, g);
      GrowNoGhosts(s, s', r);
    }
  }

  /** A session object not allocated yet lists nobody, whatever is done. */
  lemma StrangerNoGhosts(s: System, e: Event, r: Ref)
    requires Consistent(s) && Enabled(s, e) && r !in s.srv.heap && !e.Connect?
    ensures LanAllows(r, s, e) && NoGhosts(Step(s, e), r)
  {
    assert r !in Step(s, e).srv.heap by { SameHeap(s, e); }
  }

  /** What a LAN player may do, and others while it looks on, is exact, step by step:
      from a copy free of ghosts, with right news, a step leaves client r's copy free of
      ghosts if and only if it is allowed. */
  lemma StepNoGhostsExactly(s: System, e: Event, r: Ref)
    requires Consistent(s) && Enabled(s, e) && AllQuiet(s) && NewsRight(s.srv, r) && NoGhosts(s, r)
    ensures NoGhosts(Step(s, e), r) <==> LanAllows(r, s, e)
  {
    if r !in s.srv.heap && !e.Connect? {
      StrangerNoGhosts(s, e, r);
    } else {
      match e
      case Connect(n, us, order) => ConnectNoGhosts(s, n, us, order, r);
      case Disconnect(x, next) => DisconnectNoGhostsExactly(s, x, next, r);
      case CreateGame(c, g, addr) => CreatedNoGhostsExactly(s, c, g, addr, r);
      case Select(c, g) => SelectedNoGhostsExactly(s, c, g, r);
      case Join(c, g, ip, now) => JoinedNoGhostsExactly(s, c, g, ip, now, r);
      case Enter(c, g, ip, now) => EnteredNoGhostsExactly(s, c, g, ip, now, r);
      case Reselect(c, characterID, classType) => ReselectNoGhosts(s, c, characterID, classType, r);
      case Deliver(c) => DeliverNoGhosts(s, c, r);
    }
  }

  lemma StepNoGhostsRight(s: System, e: Event, r: Ref)
    requires Consistent(s) && Enabled(s, e) && LanAllows(r, s, e)
    requires AllQuiet(s) && NewsRight(s.srv, r) && NoGhosts(s, r)
    ensures NoGhosts(Step(s, e), r) && NewsRight(Step(s, e).srv, r)
  {
    StepNoGhostsExactly(s, e, r);
    StepNewsRight(s, e, r);
  }

  lemma {:induction false} RunNoGhosts(s: System, es: seq<Event>, r: Ref)
    requires Consistent(s) && AllQuiet(s) && NewsRight(s.srv, r) && NoGhosts(s, r) && Run(LanPlayer(r), s, es)
    ensures NoGhosts(After(LanPlayer(r), s, es), r)
    decreases |es|
  {
    if es != [] {
      StepNoGhostsRight(s, es[0], r);
      StepQuiet(s, es[0]);
      RunNoGhosts(Step(s, es[0]), es[1..], r);
    }
  }

  /** Main result, for one client among clients of any behaviour: the players a
      LAN member lists, with its unread messages applied, are players of its room
      on the server. */
  lemma NoGhostPlayers(es: seq<Event>, r: Ref, g: RoomId)
    requires Run(LanPlayer(r), INITIAL, es)
    requires Member(After(LanPlayer(r), INITIAL, es).srv, r, g)
    ensures var s := After(LanPlayer(r), INITIAL, es);
            && View(s, r).lan.Some?
            && View(s, r).lan.value.id == g
            && View(s, r).lan.value.players.Keys <= s.srv.rooms[g].players.Keys
  {
    RunNoGhosts(INITIAL, es, r);
  }
}
