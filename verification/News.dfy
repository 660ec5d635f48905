/** What the messages a client has yet to read will tell it in the end: the last word
    on the host, and the last word on each player. For a member of a room these are
    never wrong, in any run in which it is in one room at a time. */
module News {
  import opened Wire
  import opened ControlPlane
  import opened Replicas
  import opened Protocol
  import opened Runs
  import opened Quiet

  // ----- The last word -----

  /** The host named by the last migration among the messages. */
  function LastHost(q: seq<Message>): Option<UserId> {
    if q == [] then None
    else if q[|q| - 1].HostMigration? then Some(q[|q| - 1].player.userID)
    else LastHost(q[..|q| - 1])
  }

  /** What a message says of a player to a client that keeps a copy of a room. */
  datatype Word = Unsaid | Gone | Here(player: Player)

  function WordOf(m: Message, u: UserId): Word {
    match m
    case JoinRoom(p) => if p.userID == u then Here(p) else Unsaid
    case LeaveRoom(p) => if p.userID == u then Gone else Unsaid
    case LeaveLobby(p) => if p.userID == u then Gone else Unsaid
    case _ => Unsaid
  }

  function LastWord(q: seq<Message>, u: UserId): Word {
    if q == [] then Unsaid
    else if WordOf(q[|q| - 1], u) != Unsaid then WordOf(q[|q| - 1], u)
    else LastWord(q[..|q| - 1], u)
  }

  /** What becomes of a player's entry. */
  function Entry(before: Option<Player>, w: Word): Option<Player> {
    match w
    case Unsaid => before
    case Gone => None
    case Here(p) => Some(p)
  }

  function EntryOf(players: map<UserId, Player>, u: UserId): Option<Player> {
    if u in players then Some(players[u]) else None
  }

  lemma {:induction false} FoldHost(c: Client, q: seq<Message>)
    ensures Fold(c, q).host == if LastHost(q).Some? then LastHost(q) else c.host
  {
    if q != [] { FoldHost(c, q[..|q| - 1]); }
  }

  lemma {:induction false} FoldWord(c: Client, q: seq<Message>, u: UserId)
    requires c.lan.Some?
    ensures var lan := Fold(c, q).lan;
            && lan.Some? && lan.value.id == c.lan.value.id
            && EntryOf(lan.value.players, u) == Entry(EntryOf(c.lan.value.players, u), LastWord(q, u))
  {
    if q != [] { FoldWord(c, q[..|q| - 1], u); }
  }

  lemma {:induction false} FoldNone(c: Client, q: seq<Message>)
    requires c.lan.None?
    ensures Fold(c, q).lan.None?
  {
    if q != [] { FoldNone(c, q[..|q| - 1]); }
  }

  lemma {:induction false} HostAppend(q: seq<Message>, news: seq<Message>)
    ensures LastHost(q + news) == if LastHost(news).Some? then LastHost(news) else LastHost(q)
  {
    if news == [] {
      assert q + news == q;
    } else {
      assert (q + news)[..|q + news| - 1] == q + news[..|news| - 1];
      HostAppend(q, news[..|news| - 1]);
    }
  }

  lemma {:induction false} WordAppend(q: seq<Message>, news: seq<Message>, u: UserId)
    ensures LastWord(q + news, u) == if LastWord(news, u) != Unsaid then LastWord(news, u) else LastWord(q, u)
  {
    if news == [] {
      assert q + news == q;
    } else {
      assert (q + news)[..|q + news| - 1] == q + news[..|news| - 1];
      WordAppend(q, news[..|news| - 1], u);
    }
  }

  /** Reading the oldest message leaves the last word as it was, or nothing said. */
  lemma TailNews(q: seq<Message>, u: UserId)
    requires q != []
    ensures LastHost(q[1..]) == LastHost(q) || LastHost(q[1..]) == None
    ensures LastWord(q[1..], u) == LastWord(q, u) || LastWord(q[1..], u) == Unsaid
  {
    assert q == [q[0]] + q[1..];
    HostAppend([q[0]], q[1..]);
    WordAppend([q[0]], q[1..], u);
  }

  /** A migration is among the messages exactly if there is a last one. */
  lemma {:induction false} MigrationLast(q: seq<Message>)
    ensures (exists m | m in q :: m.HostMigration?) <==> LastHost(q).Some?
  {
    if q != [] {
      var init, m := q[..|q| - 1], q[|q| - 1];
      assert q == init + [m];
      MigrationLast(init);
    }
  }

  /** Lobby messages name no host and nobody here. */
  lemma {:induction false} LobbyNews(q: seq<Message>, u: UserId)
    requires LobbyOnly(q)
    ensures LastHost(q) == None && !LastWord(q, u).Here?
  {
    if q != [] {
      var init, m := q[..|q| - 1], q[|q| - 1];
      assert q == init + [m] && m in q;
      LobbyNews(init, u);
    }
  }

  // ----- What each step sends a client -----

  lemma ConnectNews(s: Server, n: Ref, us: UserSession, order: seq<UserId>, r: Ref)
    requires WellFormed(s) && n !in s.heap && Lists(s, order) && r in s.heap
    ensures var s' := ControlPlane.Connect(s, n, us, order);
            s'.net[r] == s.net[r] + if Registered(s, r) then [JoinLobby(us.ToPlayer())] else []
  {
    var s' := ControlPlane.Connect(s, n, us, order);
    assert r in Refs(s'.sessions) <==> Registered(s', r);
    assert Registered(s', r) <==> Registered(s, r);
    assert s.net[r] + [] == s.net[r];
  }

  /** What a player who is left in the room hears of session x leaving it. */
  function PartingNews(s: Server, x: Ref, next: UserId): seq<Message>
    requires WellFormed(s) && x in s.heap && MayElect(s, x, next)
    requires s.heap[x].gameID in s.rooms && Remaining(s, x).Keys != {}
  {
    [LeaveRoom(s.heap[x].RoomPlayer())] +
    if WasHost(s, x) then [HostMigration(s.heap[Remaining(s, x)[next]].RoomPlayer())] else []
  }

  function DepartureNews(s: Server, x: Ref, next: UserId, member: bool, registered: bool): seq<Message>
    requires WellFormed(s) && x in s.heap && MayElect(s, x, next)
    requires member ==> s.heap[x].gameID in s.rooms && Remaining(s, x).Keys != {}
  {
    (if member then PartingNews(s, x, next) else []) +
    if registered then [LeaveLobby(s.heap[x].ToPlayer())] else []
  }

  lemma LeaveNews(s: Server, x: Ref, next: UserId, r: Ref)
    requires WellFormed(s) && x in s.heap && MayElect(s, x, next) && r in s.heap
    ensures var s' := ControlPlane.Leave(s, x, next);
            var member := Member(s', r, s.heap[x].gameID);
            && (member ==> s.heap[x].gameID in s.rooms && Remaining(s, x).Keys != {})
            && s'.net[r] == s.net[r] + if member then PartingNews(s, x, next) else []
  {
    assert s.net[r] + [] == s.net[r];
    if s.heap[x].gameID in s.rooms && Remaining(s, x).Keys != {} {
      assert r in Refs(Remaining(s, x)) <==> Member(ControlPlane.Leave(s, x, next), r, s.heap[x].gameID);
    }
  }

  lemma DisconnectNews(s: Server, x: Ref, next: UserId, r: Ref)
    requires WellFormed(s) && x in s.heap && MayElect(s, x, next) && r in s.heap
    ensures var s' := ControlPlane.Disconnect(s, x, next);
            var member := Member(s', r, s.heap[x].gameID);
            && (member ==> s.heap[x].gameID in s.rooms && Remaining(s, x).Keys != {})
            && s'.net[r] == s.net[r] + DepartureNews(s, x, next, member, Registered(s', r))
  {
    var left, s' := ControlPlane.Leave(s, x, next), ControlPlane.Disconnect(s, x, next);
    LeaveKeepsWellFormed(s, x, next);
    LeaveTables(s, x, next);
    LeaveNews(s, x, next, r);
    assert Member(s', r, s.heap[x].gameID) <==> Member(left, r, s.heap[x].gameID);
    assert r in Refs(s'.sessions) <==> Registered(s', r);
    var parting := if Member(left, r, s.heap[x].gameID) then PartingNews(s, x, next) else [];
    var goodbye := if Registered(s', r) then [LeaveLobby(s.heap[x].ToPlayer())] else [];
    assert s.net[r] + parting + goodbye == s.net[r] + (parting + goodbye);
    assert left.net[r] + [] == left.net[r];
  }

  lemma JoinNews(s: Server, g: RoomId, u: UserId, ip: string, now: Time, r: Ref)
    requires WellFormed(s) && r in s.heap
    ensures var s' := JoinGame(s, g, u, ip, now);
            && WellFormed(s') && r in s'.heap
            && if u in s.sessions && g in s.rooms && u !in s.rooms[g].players && Member(s, r, g)
               then s'.net[r] == s.net[r] + [JoinRoom(Player(u, SessionOf(s, u).profile, ip))]
               else s'.net[r] == s.net[r]
  {
    JoinGameKeepsWellFormed(s, g, u, ip, now);
    var (s1, res) := ControlPlane.Join(s, g, u, ip, now);
    if res.Ok? {
      assert (res.value.players - {u}) == s.rooms[g].players;
      assert r in Refs(s.rooms[g].players) <==> Member(s, r, g);
      assert s1.heap[s.sessions[u]].RoomPlayer() == Player(u, SessionOf(s, u).profile, ip);
    }
  }

  // ----- The news is right -----

  /** Session object r is in one room at most. */
  ghost predicate OneRoom(s: Server, r: Ref) {
    forall g, h | Member(s, r, g) && Member(s, r, h) :: g == h
  }

  /** The last migration that a member of room g has yet to read names its host. */
  predicate HostRight(s: Server, r: Ref, g: RoomId)
    requires WellFormed(s) && r in s.heap && g in s.rooms
  {
    LastHost(s.net[r]).Some? ==> LastHost(s.net[r]).value == HostOf(s, g)
  }

  /** And everybody last announced to it is a player. */
  predicate PlayerRight(s: Server, r: Ref, g: RoomId, u: UserId)
    requires WellFormed(s) && r in s.heap && g in s.rooms
  {
    LastWord(s.net[r], u).Here? ==> u in PlayersOf(s, g)
  }

  ghost predicate NewsRight(s: Server, r: Ref)
    requires WellFormed(s)
  {
    forall g | Member(s, r, g) :: HostRight(s, r, g) && forall u :: PlayerRight(s, r, g, u)
  }

  lemma QuietRight(s: Server, r: Ref, g: RoomId)
    requires WellFormed(s) && r in s.heap && g in s.rooms && LobbyOnly(s.net[r])
    ensures HostRight(s, r, g) && forall u :: PlayerRight(s, r, g, u)
  {
    forall u ensures PlayerRight(s, r, g, u) { LobbyNews(s.net[r], u); }
    LobbyNews(s.net[r], 0);
  }

  lemma ConnectRight(s: Server, n: Ref, us: UserSession, order: seq<UserId>, r: Ref)
    requires WellFormed(s) && n !in s.heap && Lists(s, order) && NewsRight(s, r)
    ensures WellFormed(ControlPlane.Connect(s, n, us, order)) && NewsRight(ControlPlane.Connect(s, n, us, order), r)
  {
    ConnectKeepsWellFormed(s, n, us, order);
    var s' := ControlPlane.Connect(s, n, us, order);
    forall g | Member(s', r, g) ensures HostRight(s', r, g) && forall u :: PlayerRight(s', r, g, u) {
      assert RoomWellFormed(s.heap, g, s.rooms[g]);
      assert Member(s, r, g);
      ConnectNews(s, n, us, order, r);
      var news := if Registered(s, r) then [JoinLobby(us.ToPlayer())] else [];
      SaysNothing(news);
      HostAppend(s.net[r], news);
      assert HostRight(s, r, g);
      forall u ensures PlayerRight(s', r, g, u) {
        WordAppend(s.net[r], news, u);
        assert PlayerRight(s, r, g, u);
      }
    }
  }

  /** Messages that join or leave nothing have no last word. */
  lemma SaysNothing(news: seq<Message>)
    requires |news| <= 1 && forall m | m in news :: m.JoinLobby?
    ensures LastHost(news) == None && forall u :: LastWord(news, u) == Unsaid
  {
    if news != [] { assert news[0] in news && news[..0] == []; }
  }

  /** A departure is the last word on the departed, and on the user its hello named, to
      those who hear of it; and the migration, if there is one, on the host. */
  lemma DepartureWords(s: Server, x: Ref, next: UserId, member: bool, registered: bool, u: UserId)
    requires WellFormed(s) && x in s.heap && MayElect(s, x, next)
    requires member ==> s.heap[x].gameID in s.rooms && Remaining(s, x).Keys != {}
    ensures var news := DepartureNews(s, x, next, member, registered);
            && LastHost(news) == (if member && WasHost(s, x) then Some(s.heap[Remaining(s, x)[next]].userID) else None)
            && LastWord(news, u) ==
               if (member && u == s.heap[x].userID) || (registered && u == s.heap[x].helloID) then Gone else Unsaid
  {
    var parting := if member then PartingNews(s, x, next) else [];
    var goodbye := if registered then [LeaveLobby(s.heap[x].ToPlayer())] else [];
    HostAppend(parting, goodbye);
    WordAppend(parting, goodbye, u);
    if registered { assert goodbye[..0] == []; }
    if member {
      var first := [LeaveRoom(s.heap[x].RoomPlayer())];
      assert first[..0] == [];
      if WasHost(s, x) { assert parting[..1] == first; } else { assert parting == first; }
    }
  }

  lemma DisconnectRight(s: Server, x: Ref, next: UserId, r: Ref)
    requires WellFormed(s) && x in s.heap && MayElect(s, x, next) && NewsRight(s, r) && OneRoom(s, r)
    ensures WellFormed(ControlPlane.Disconnect(s, x, next)) && NewsRight(ControlPlane.Disconnect(s, x, next), r)
  {
    DisconnectKeepsWellFormed(s, x, next);
    var s' := ControlPlane.Disconnect(s, x, next);
    forall g | Member(s', r, g) ensures HostRight(s', r, g) && forall u :: PlayerRight(s', r, g, u) {
      StaysIn(s, x, next, r, g);
      DisconnectNews(s, x, next, r);
      var member, registered := g == s.heap[x].gameID, Registered(s', r);
      var news := DepartureNews(s, x, next, member, registered);
      HostAppend(s.net[r], news);
      DepartureWords(s, x, next, member, registered, 0);
      assert HostRight(s, r, g);
      forall u ensures PlayerRight(s', r, g, u) {
        WordAppend(s.net[r], news, u);
        DepartureWords(s, x, next, member, registered, u);
        assert PlayerRight(s, r, g, u);
      }
    }
  }

  /** A member that is left in a room after a departure, and what became of the room. */
  lemma StaysIn(s: Server, x: Ref, next: UserId, r: Ref, g: RoomId)
    requires WellFormed(s) && x in s.heap && MayElect(s, x, next) && OneRoom(s, r)
    requires Member(ControlPlane.Disconnect(s, x, next), r, g)
    ensures var s' := ControlPlane.Disconnect(s, x, next);
            && WellFormed(s') && Member(s, r, g)
            && (Member(s', r, s.heap[x].gameID) <==> g == s.heap[x].gameID)
            && PlayersOf(s', g) == PlayersOf(s, g) - (if g == s.heap[x].gameID then {s.heap[x].userID} else {})
            && HostOf(s', g) == if g == s.heap[x].gameID && WasHost(s, x) then s.heap[Remaining(s, x)[next]].userID
               else HostOf(s, g)
  {
    DisconnectKeepsWellFormed(s, x, next);
    LeaveTables(s, x, next);
    LeaveNet(s, x, next, r);
    var left, s' := ControlPlane.Leave(s, x, next), ControlPlane.Disconnect(s, x, next);
    assert s'.rooms == left.rooms && s'.heap == left.heap;
    assert Member(left, r, g);
    if g != s.heap[x].gameID { assert left.rooms[g] == s.rooms[g]; }
    if Member(s', r, s.heap[x].gameID) { assert Member(left, r, s.heap[x].gameID); }
  }

  lemma CreateRight(s: Server, u: UserId, g: RoomId, ip: string, r: Ref)
    requires WellFormed(s) && NewsRight(s, r) && OneRoom(Create(s, u, g, ip).0, r)
    requires Registered(s, r) && Roomless(s, r) ==> LobbyOnly(s.net[r])
    ensures WellFormed(Create(s, u, g, ip).0) && NewsRight(Create(s, u, g, ip).0, r)
  {
    CreateKeepsWellFormed(s, u, g, ip);
    var s' := Create(s, u, g, ip).0;
    forall h | Member(s', r, h) ensures HostRight(s', r, h) && forall v :: PlayerRight(s', r, h, v) {
      if Member(s, r, h) {
        assert s'.rooms[h] == s.rooms[h] && HostOf(s', h) == HostOf(s, h);
        assert HostRight(s, r, h);
        forall v ensures PlayerRight(s', r, h, v) { assert PlayerRight(s, r, h, v); }
      } else {
        WasRoomless(s, s', r, h);
        QuietRight(s', r, h);
      }
    }
  }

  /** Whoever is in one room, and was not in it before, was in none, if it left none. */
  lemma WasRoomless(s: Server, s': Server, r: Ref, h: RoomId)
    requires OneRoom(s', r) && Member(s', r, h) && !Member(s, r, h)
    requires forall g | Member(s, r, g) :: Member(s', r, g)
    ensures Roomless(s, r)
  {
  }

  lemma JoinRight(s: Server, g: RoomId, u: UserId, ip: string, now: Time, r: Ref)
    requires WellFormed(s) && NewsRight(s, r) && OneRoom(JoinGame(s, g, u, ip, now), r)
    requires Registered(s, r) && Roomless(s, r) ==> LobbyOnly(s.net[r])
    ensures WellFormed(JoinGame(s, g, u, ip, now)) && NewsRight(JoinGame(s, g, u, ip, now), r)
  {
    JoinGameKeepsWellFormed(s, g, u, ip, now);
    var s' := JoinGame(s, g, u, ip, now);
    forall h | Member(s', r, h) ensures HostRight(s', r, h) && forall v :: PlayerRight(s', r, h, v) {
      JoinNews(s, g, u, ip, now, r);
      JoinedMember(s, g, u, ip, now, r, h);
      if Member(s, r, h) {
        JoinKeepsRight(s, g, u, ip, now, r, h);
      } else {
        WasRoomless(s, s', r, h);
        QuietRight(s', r, h);
      }
    }
  }

  lemma JoinedMember(s: Server, g: RoomId, u: UserId, ip: string, now: Time, r: Ref, h: RoomId)
    requires WellFormed(s) && Member(JoinGame(s, g, u, ip, now), r, h)
    ensures var s' := JoinGame(s, g, u, ip, now);
            && WellFormed(s') && r in s.heap && h in s.rooms
            && HostOf(s', h) == HostOf(s, h)
            && PlayersOf(s, h) <= PlayersOf(s', h)
            && (u in s.sessions && g in s.rooms ==> u in PlayersOf(s', g))
            && (Member(s, r, h) || (h == g && u in s.sessions && s.sessions[u] == r && u !in s.rooms[g].players))
            && (forall o :: Member(s, r, o) ==> Member(s', r, o))
            && (Registered(s', r) <==> Registered(s, r))
  {
    JoinGameKeepsWellFormed(s, g, u, ip, now);
    assert RoomWellFormed(s.heap, h, s.rooms[h]);
    assert JoinGame(s, g, u, ip, now).rooms[h].host == s.rooms[h].host;
  }

  lemma JoinsIn(s: Server, g: RoomId, u: UserId, ip: string, now: Time, r: Ref)
    requires WellFormed(s) && g in s.rooms && u in s.sessions && s.sessions[u] == r && u !in s.rooms[g].players
    ensures Member(JoinGame(s, g, u, ip, now), r, g) && !Member(s, r, g)
  {
    JoinGameKeepsWellFormed(s, g, u, ip, now);
  }

  lemma JoinKeepsRight(s: Server, g: RoomId, u: UserId, ip: string, now: Time, r: Ref, h: RoomId)
    requires WellFormed(s) && OneRoom(JoinGame(s, g, u, ip, now), r) && Member(s, r, h)
    requires HostRight(s, r, h) && forall v :: PlayerRight(s, r, h, v)
    requires Member(JoinGame(s, g, u, ip, now), r, h)
    ensures var s' := JoinGame(s, g, u, ip, now);
            WellFormed(s') && HostRight(s', r, h) && forall v :: PlayerRight(s', r, h, v)
  {
    var s' := JoinGame(s, g, u, ip, now);
    JoinedMember(s, g, u, ip, now, r, h);
    JoinNews(s, g, u, ip, now, r);
    var p := Player(u, if u in s.sessions then SessionOf(s, u).profile else Profile("", 0, 0), ip);
    var news := [JoinRoom(p)];
    assert news[..0] == [];
    HostAppend(s.net[r], news);
    forall v ensures PlayerRight(s', r, h, v) {
      WordAppend(s.net[r], news, v);
      assert PlayerRight(s, r, h, v);
      assert Member(s, r, g) ==> Member(s', r, g);
    }
  }

  lemma DeliverRight(s: System, c: Ref, r: Ref)
    requires Consistent(s) && Enabled(s, Deliver(c)) && NewsRight(s.srv, r)
    ensures NewsRight(Step(s, Deliver(c)).srv, r)
  {
    var s' := Step(s, Deliver(c));
    forall g | Member(s'.srv, r, g) ensures HostRight(s'.srv, r, g) && forall u :: PlayerRight(s'.srv, r, g, u) {
      assert Member(s.srv, r, g) && HostRight(s.srv, r, g);
      forall u ensures PlayerRight(s'.srv, r, g, u) {
        assert PlayerRight(s.srv, r, g, u);
        TailNews(s.srv.net[c], u);
      }
      TailNews(s.srv.net[c], 0);
    }
  }

  lemma SameHeap(s: System, e: Event)
    requires Consistent(s) && Enabled(s, e) && !e.Connect?
    ensures Step(s, e).srv.heap.Keys == s.srv.heap.Keys
  {
    match e
    case Disconnect(x, next) => LeaveTables(s.srv, x, next);
    case Join(c, g, ip, now) => JoinGameKeepsWellFormed(s.srv, g, s.clients[c].userID, ip, now);
    case Enter(c, g, ip, now) => JoinGameKeepsWellFormed(s.srv, g, s.clients[c].userID, ip, now);
    case _ =>
  }

  /** Every step keeps a member's news right, if it leaves it in one room at most. */
  lemma StepNewsRight(s: System, e: Event, r: Ref)
    requires Consistent(s) && Enabled(s, e) && AllQuiet(s) && NewsRight(s.srv, r) && OneRoom(s.srv, r)
    requires OneRoom(Step(s, e).srv, r)
    ensures NewsRight(Step(s, e).srv, r)
  {
    match e
    case Connect(n, us, order) => ConnectRight(s.srv, n, us, order, r);
    case Disconnect(x, next) => DisconnectRight(s.srv, x, next, r);
    case CreateGame(c, g, addr) => CreateRight(s.srv, s.clients[c].userID, g, addr.text, r);
    case Select(c, g) =>
    case Join(c, g, ip, now) => JoinRight(s.srv, g, s.clients[c].userID, ip, now, r);
    case Enter(c, g, ip, now) => JoinRight(s.srv, g, s.clients[c].userID, ip, now, r);
    case Reselect(c, characterID, classType) =>
    case Deliver(c) => DeliverRight(s, c, r);
  }
}
