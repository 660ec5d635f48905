/** When users log in once under their own names, create and enter rooms only from
    outside any, with the character they announced, select and join in one step with
    no departure from the room left to read, and in a room do no more than select it
    again, a LAN member's copy of its room is not merely free of ghosts: it is the
    room. */
module LanExact {
  import opened Wire
  import opened ControlPlane
  import opened Replicas
  import opened Protocol
  import opened Runs
  import opened Quiet
  import opened News
  import LanRoster
  import HostAgreement

  /** The live connections are the registered sessions, their hellos named their
      users, and a player of a room is live and carries that room's id. */
  ghost predicate Tidy(s: System)
    requires Consistent(s)
  {
    && (forall r :: r in s.live <==> Registered(s.srv, r))
    && (forall r | r in s.live :: s.srv.heap[r].TrueName())
    && (forall r, g | Member(s.srv, r, g) :: r in s.live && s.srv.heap[r].gameID == g)
  }

  /** No departure of user u is among the messages. */
  predicate StillHere(q: seq<Message>, u: UserId) {
    forall m | m in q :: (m.LeaveLobby? || m.LeaveRoom?) ==> m.player.userID != u
  }

  ghost predicate AllStillHere(s: System)
    requires Consistent(s)
  {
    forall r | r in s.live :: StillHere(s.srv.net[r], s.srv.heap[r].userID)
  }

  /** Client r will hold exactly the players the server has in room g. */
  predicate MirrorsRoom(s: System, r: Ref, g: RoomId)
    requires Consistent(s) && r in s.clients && g in s.srv.rooms
  {
    var lan := View(s, r).lan;
    lan.Some? && lan.value.id == g && lan.value.players == Snapshot(s.srv, g).players
  }

  /** Client r, as a member, will hold exactly the server's room. */
  ghost predicate Mirrors(s: System, r: Ref)
    requires Consistent(s)
  {
    forall g | Member(s.srv, r, g) :: MirrorsRoom(s, r, g)
  }

  /** What a member of room g has yet to read about a user ends at the user's record
      in the room, or at its absence. */
  predicate RecordRight(s: Server, r: Ref, g: RoomId, u: UserId)
    requires WellFormed(s) && r in s.heap && g in s.rooms
  {
    LastWord(s.net[r], u) != Unsaid ==> EntryOf(Snapshot(s, g).players, u) == Entry(None, LastWord(s.net[r], u))
  }

  ghost predicate RecordsRight(s: Server, r: Ref)
    requires WellFormed(s)
  {
    forall g | Member(s, r, g) :: forall u :: RecordRight(s, r, g, u)
  }

  ghost predicate Exact(s: System)
    requires Consistent(s)
  {
    Tidy(s) && AllStillHere(s) && AllQuiet(s) && forall r :: Mirrors(s, r) && RecordsRight(s.srv, r)
  }

  lemma SameEntries(m: map<UserId, Player>, n: map<UserId, Player>)
    requires forall u :: EntryOf(m, u) == EntryOf(n, u)
    ensures m == n
  {
    forall u ensures u in m <==> u in n { assert EntryOf(m, u) == EntryOf(n, u); }
    forall u | u in m ensures m[u] == n[u] { assert EntryOf(m, u) == EntryOf(n, u); }
    SameMap(m, n);
  }

  /** A copy of room g becomes the room, once all is read, if it has the records of
      those of whom nothing is left to read. */
  lemma CopyMirrors(s: System, r: Ref, g: RoomId)
    requires Consistent(s) && Member(s.srv, r, g) && RecordsRight(s.srv, r)
    requires s.clients[r].lan.Some? && s.clients[r].lan.value.id == g
    requires forall u :: LastWord(s.srv.net[r], u) == Unsaid ==>
               EntryOf(s.clients[r].lan.value.players, u) == EntryOf(Snapshot(s.srv, g).players, u)
    ensures MirrorsRoom(s, r, g)
  {
    var c, q := s.clients[r], s.srv.net[r];
    FoldWord(c, q, 0);
    forall u ensures EntryOf(Fold(c, q).lan.value.players, u) == EntryOf(Snapshot(s.srv, g).players, u) {
      FoldWord(c, q, u);
      assert RecordRight(s.srv, r, g, u);
    }
    SameEntries(Fold(c, q).lan.value.players, Snapshot(s.srv, g).players);
  }

  /** Conversely, a copy that becomes the room has those records already. */
  lemma MirrorHas(s: System, r: Ref, g: RoomId, u: UserId)
    requires Consistent(s) && r in s.clients && g in s.srv.rooms && MirrorsRoom(s, r, g)
    requires s.clients[r].lan.Some? && LastWord(s.srv.net[r], u) == Unsaid
    ensures EntryOf(s.clients[r].lan.value.players, u) == EntryOf(Snapshot(s.srv, g).players, u)
  {
    FoldWord(s.clients[r], s.srv.net[r], u);
  }

  /** The users whose departure from the lobby is among the messages. */
  function Departed(q: seq<Message>): set<UserId> {
    set m | m in q && m.LeaveLobby? :: m.player.userID
  }

  /** Before it joins a room, a client loses from its copy those who depart. */
  lemma {:induction false} FoldLobby(c: Client, q: seq<Message>)
    requires c.lan.Some? && LobbyOnly(q)
    ensures Fold(c, q).lan == Some(c.lan.value.(players := c.lan.value.players - Departed(q)))
  {
    var players := c.lan.value.players;
    if q == [] {
      assert players - Departed(q) == players;
    } else {
      var init, m := q[..|q| - 1], q[|q| - 1];
      assert q == init + [m] && m in q;
      FoldLobby(c, init);
      if m.LeaveLobby? {
        assert Departed(q) == Departed(init) + {m.player.userID};
        assert players - Departed(init) - {m.player.userID} == players - Departed(q);
      } else {
        assert Departed(q) == Departed(init);
      }
    }
  }

  lemma StillHereLobby(q: seq<Message>, u: UserId)
    requires StillHere(q, u)
    ensures u !in Departed(q)
  {
  }

  /** A map that gains an entry and loses others is the map that gains that entry
      exactly if the entries agree and the others were not there. */
  lemma SameEntered(m: map<UserId, Player>, u: UserId, p: Player, q: Player, gone: set<UserId>)
    requires u !in m && u !in gone
    ensures m[u := p] - gone == m[u := q] <==> p == q && gone !! m.Keys
  {
    var left, right := m[u := p] - gone, m[u := q];
    if p == q && gone !! m.Keys {
      assert left == right;
    }
    if left == right {
      assert left[u] == p && right[u] == q;
      forall v | v in m ensures v !in gone { assert v in right; }
    }
  }

  /** Session objects that a room does not hold do not show in its snapshot. */
  lemma SnapshotFrame(s: Server, s': Server, g: RoomId)
    requires WellFormed(s) && WellFormed(s') && g in s.rooms && g in s'.rooms && s'.rooms[g] == s.rooms[g]
    requires forall u | u in s.rooms[g].players :: s'.heap[s.rooms[g].players[u]] == s.heap[s.rooms[g].players[u]]
    ensures Snapshot(s', g).players == Snapshot(s, g).players
  {
    var after, before := Snapshot(s', g).players, Snapshot(s, g).players;
    assert after.Keys == before.Keys;
    forall u | u in before ensures after[u] == before[u] {
      assert u in s.rooms[g].players;
    }
  }

  // ----- Connect -----

  lemma ConnectRegistered(s: System, n: Ref, us: UserSession, order: seq<UserId>, r: Ref)
    requires Consistent(s) && Enabled(s, Connect(n, us, order)) && us.userID !in s.srv.sessions
    ensures Registered(Step(s, Connect(n, us, order)).srv, r) <==> Registered(s.srv, r) || r == n
  {
  }

  lemma ConnectMember(s: System, n: Ref, us: UserSession, order: seq<UserId>, r: Ref, g: RoomId)
    requires Consistent(s) && Enabled(s, Connect(n, us, order))
    requires Member(Step(s, Connect(n, us, order)).srv, r, g)
    ensures Member(s.srv, r, g) && Step(s, Connect(n, us, order)).srv.heap[r] == s.srv.heap[r]
  {
    assert RoomWellFormed(s.srv.heap, g, s.srv.rooms[g]);
  }

  lemma ConnectTidy(s: System, n: Ref, us: UserSession, order: seq<UserId>)
    requires Consistent(s) && Enabled(s, Connect(n, us, order)) && Tidy(s)
    requires us.TrueName() && forall o | o in s.live :: s.srv.heap[o].userID != us.userID
    ensures us.userID !in s.srv.sessions
    ensures Tidy(Step(s, Connect(n, us, order)))
  {
    if us.userID in s.srv.sessions { assert Registered(s.srv, s.srv.sessions[us.userID]); }
    var s' := Step(s, Connect(n, us, order));
    forall r ensures r in s'.live <==> Registered(s'.srv, r) { ConnectRegistered(s, n, us, order, r); }
    forall r, g | Member(s'.srv, r, g) ensures r in s'.live && s'.srv.heap[r].gameID == g {
      ConnectMember(s, n, us, order, r, g);
    }
  }

  lemma ConnectStillHere(s: System, n: Ref, us: UserSession, order: seq<UserId>)
    requires Consistent(s) && Enabled(s, Connect(n, us, order)) && AllStillHere(s)
    ensures AllStillHere(Step(s, Connect(n, us, order)))
  {
  }

  lemma ConnectMirrors(s: System, n: Ref, us: UserSession, order: seq<UserId>, r: Ref)
    requires Consistent(s) && Enabled(s, Connect(n, us, order)) && Mirrors(s, r)
    ensures Mirrors(Step(s, Connect(n, us, order)), r)
  {
    var s' := Step(s, Connect(n, us, order));
    assert s'.srv.rooms == s.srv.rooms;
    forall g | Member(s'.srv, r, g) ensures MirrorsRoom(s', r, g) {
      ConnectMember(s, n, us, order, r, g);
      assert MirrorsRoom(s, r, g);
      ConnectView(s, n, us, order, r);
      SnapshotFrame(s.srv, s'.srv, g);
    }
  }

  lemma ConnectRecords(s: System, n: Ref, us: UserSession, order: seq<UserId>, r: Ref)
    requires Consistent(s) && Enabled(s, Connect(n, us, order)) && RecordsRight(s.srv, r)
    ensures RecordsRight(Step(s, Connect(n, us, order)).srv, r)
  {
    var s' := Step(s, Connect(n, us, order));
    forall g | Member(s'.srv, r, g) ensures forall u :: RecordRight(s'.srv, r, g, u) {
      ConnectMember(s, n, us, order, r, g);
      ConnectNews(s.srv, n, us, order, r);
      var news := if Registered(s.srv, r) then [JoinLobby(us.ToPlayer())] else [];
      SaysNothing(news);
      SnapshotFrame(s.srv, s'.srv, g);
      forall u ensures RecordRight(s'.srv, r, g, u) {
        WordAppend(s.srv.net[r], news, u);
        assert RecordRight(s.srv, r, g, u);
      }
    }
  }

  // ----- Disconnect -----

  lemma DisconnectRegistered(s: System, x: Ref, next: UserId, r: Ref)
    requires Consistent(s) && Enabled(s, Disconnect(x, next)) && Registered(s.srv, x)
    ensures Registered(Step(s, Disconnect(x, next)).srv, r) <==> Registered(s.srv, r) && r != x
  {
    LeaveTables(s.srv, x, next);
  }

  /** No player of a room goes by a departed user's id. */
  lemma DisconnectMember(s: System, x: Ref, next: UserId, r: Ref, g: RoomId)
    requires Consistent(s) && Enabled(s, Disconnect(x, next)) && Tidy(s)
    requires Member(Step(s, Disconnect(x, next)).srv, r, g)
    ensures Member(s.srv, r, g) && r != x
  {
    LanRoster.DisconnectRooms(s, x, next, r, g);
    assert s.srv.heap[r].userID in PlayersOf(Step(s, Disconnect(x, next)).srv, g);
  }

  lemma DisconnectTidy(s: System, x: Ref, next: UserId)
    requires Consistent(s) && Enabled(s, Disconnect(x, next)) && Tidy(s)
    ensures Tidy(Step(s, Disconnect(x, next)))
  {
    var s' := Step(s, Disconnect(x, next));
    assert Registered(s.srv, x);
    LeaveTables(s.srv, x, next);
    forall r ensures r in s'.live <==> Registered(s'.srv, r) { DisconnectRegistered(s, x, next, r); }
    forall r, g | Member(s'.srv, r, g) ensures r in s'.live && s'.srv.heap[r].gameID == g {
      DisconnectMember(s, x, next, r, g);
    }
  }

  lemma LeaveStillHere(s: Server, x: Ref, next: UserId, o: Ref)
    requires WellFormed(s) && x in s.heap && MayElect(s, x, next) && o in s.heap
    requires s.heap[o].userID != s.heap[x].userID && StillHere(s.net[o], s.heap[o].userID)
    ensures StillHere(ControlPlane.Leave(s, x, next).net[o], s.heap[o].userID)
  {
  }

  lemma DisconnectStillHere(s: System, x: Ref, next: UserId)
    requires Consistent(s) && Enabled(s, Disconnect(x, next)) && Tidy(s) && AllStillHere(s)
    ensures AllStillHere(Step(s, Disconnect(x, next)))
  {
    var s' := Step(s, Disconnect(x, next));
    forall r | r in s'.live ensures StillHere(s'.srv.net[r], s'.srv.heap[r].userID) {
      assert Registered(s.srv, r) && Registered(s.srv, x);
      LeaveStillHere(s.srv, x, next, r);
    }
  }

  lemma SnapshotAfterLeave(s: Server, x: Ref, next: UserId, g: RoomId)
    requires WellFormed(s) && x in s.heap && MayElect(s, x, next)
    requires g in ControlPlane.Leave(s, x, next).rooms
    ensures var s' := ControlPlane.Leave(s, x, next);
            && WellFormed(s') && g in s.rooms
            && Snapshot(s', g).players ==
               if g == s.heap[x].gameID then Snapshot(s, g).players - {s.heap[x].userID} else Snapshot(s, g).players
  {
    LeaveKeepsWellFormed(s, x, next);
    LeaveTables(s, x, next);
    var s' := ControlPlane.Leave(s, x, next);
    if g != s.heap[x].gameID { assert s'.rooms[g] == s.rooms[g]; }
  }

  /** A user in one room is in no other. */
  lemma OneRoomEach(s: System, x: Ref, g: RoomId)
    requires Consistent(s) && Tidy(s) && x in s.live && g in s.srv.rooms && g != s.srv.heap[x].gameID
    ensures s.srv.heap[x].userID !in s.srv.rooms[g].players
  {
    if s.srv.heap[x].userID in s.srv.rooms[g].players {
      assert Member(s.srv, s.srv.rooms[g].players[s.srv.heap[x].userID], g);
    }
  }

  /** A departed user is dropped exactly once from a copy of its room, and not at all
      from a copy of another. */
  lemma BereftMirrors(lan: LanRoom, us: UserSession, players: map<UserId, Player>, member: bool, registered: bool)
    requires us.TrueName() && lan.players == players && (member || us.userID !in players)
    ensures LanRoster.Bereft(Some(lan), us, member, registered) ==
            Some(lan.(players := if member then players - {us.userID} else players))
  {
    assert players - {us.userID} - {us.userID} == players - {us.userID};
    if us.userID !in players { assert players - {us.userID} == players; }
  }

  lemma DisconnectMirrors(s: System, x: Ref, next: UserId, r: Ref, g: RoomId)
    requires Consistent(s) && Enabled(s, Disconnect(x, next)) && Tidy(s) && Mirrors(s, r)
    requires Member(Step(s, Disconnect(x, next)).srv, r, g)
    ensures MirrorsRoom(Step(s, Disconnect(x, next)), r, g)
  {
    var s', us := Step(s, Disconnect(x, next)), s.srv.heap[x];
    LanRoster.DisconnectRooms(s, x, next, r, g);
    assert MirrorsRoom(s, r, g) && s.srv.heap[r].gameID == g;
    LanRoster.DisconnectLan(s, x, next, r);
    SnapshotAfterLeave(s.srv, x, next, g);
    SnapshotAfterDisconnect(s, x, next, g);
    if g != us.gameID {
      OneRoomEach(s, x, g);
      LanRoster.DisconnectRooms(s, x, next, r, us.gameID);
    }
    BereftMirrors(View(s, r).lan.value, us, Snapshot(s.srv, g).players, g == us.gameID, Registered(s'.srv, r));
  }

  /** To a member of a room a departure is the last word on the departed alone. */
  lemma DisconnectWord(s: System, x: Ref, next: UserId, r: Ref, g: RoomId, u: UserId)
    requires Consistent(s) && Enabled(s, Disconnect(x, next)) && Tidy(s)
    requires Member(Step(s, Disconnect(x, next)).srv, r, g)
    ensures r in s.srv.heap
    ensures LastWord(Step(s, Disconnect(x, next)).srv.net[r], u) ==
            if u == s.srv.heap[x].userID then Gone else LastWord(s.srv.net[r], u)
  {
    var s', us := Step(s, Disconnect(x, next)), s.srv.heap[x];
    DisconnectTidy(s, x, next);
    OneRoomOf(s, r);
    StaysIn(s.srv, x, next, r, g);
    DisconnectNews(s.srv, x, next, r);
    WordAppend(s.srv.net[r], DepartureNews(s.srv, x, next, g == us.gameID, true), u);
    DepartureWords(s.srv, x, next, g == us.gameID, true, u);
  }

  lemma DisconnectRecords(s: System, x: Ref, next: UserId, r: Ref)
    requires Consistent(s) && Enabled(s, Disconnect(x, next)) && Tidy(s) && RecordsRight(s.srv, r)
    ensures RecordsRight(Step(s, Disconnect(x, next)).srv, r)
  {
    var s' := Step(s, Disconnect(x, next));
    forall g | Member(s'.srv, r, g) ensures forall u :: RecordRight(s'.srv, r, g, u) {
      DisconnectMember(s, x, next, r, g);
      forall u ensures RecordRight(s'.srv, r, g, u) {
        assert RecordRight(s.srv, r, g, u);
        DisconnectRecord(s, x, next, r, g, u);
      }
    }
  }

  lemma DisconnectRecord(s: System, x: Ref, next: UserId, r: Ref, g: RoomId, u: UserId)
    requires Consistent(s) && Enabled(s, Disconnect(x, next)) && Tidy(s)
    requires Member(Step(s, Disconnect(x, next)).srv, r, g) && Member(s.srv, r, g) && RecordRight(s.srv, r, g, u)
    ensures RecordRight(Step(s, Disconnect(x, next)).srv, r, g, u)
  {
    PlayersAfterDisconnect(s, x, next, g);
    DisconnectWord(s, x, next, r, g, u);
  }

  lemma OneRoomOf(s: System, r: Ref)
    requires Consistent(s) && Tidy(s)
    ensures OneRoom(s.srv, r)
  {
  }

  /** A departed user is in no room, and everybody else's record stays. */
  lemma PlayersAfterDisconnect(s: System, x: Ref, next: UserId, g: RoomId)
    requires Consistent(s) && Enabled(s, Disconnect(x, next)) && Tidy(s)
    requires g in Step(s, Disconnect(x, next)).srv.rooms
    ensures g in s.srv.rooms
    ensures Snapshot(Step(s, Disconnect(x, next)).srv, g).players ==
            Snapshot(s.srv, g).players - {s.srv.heap[x].userID}
  {
    SnapshotAfterLeave(s.srv, x, next, g);
    SnapshotAfterDisconnect(s, x, next, g);
    if g != s.srv.heap[x].gameID {
      OneRoomEach(s, x, g);
      var players, u := Snapshot(s.srv, g).players, s.srv.heap[x].userID;
      assert players - {u} == players;
    }
  }

  lemma SnapshotAfterDisconnect(s: System, x: Ref, next: UserId, g: RoomId)
    requires Consistent(s) && Enabled(s, Disconnect(x, next))
    requires g in Step(s, Disconnect(x, next)).srv.rooms
    ensures var left := ControlPlane.Leave(s.srv, x, next);
            && WellFormed(left) && g in left.rooms
            && Snapshot(Step(s, Disconnect(x, next)).srv, g).players == Snapshot(left, g).players
  {
    LeaveKeepsWellFormed(s.srv, x, next);
  }

  // ----- Create -----

  lemma CreateTidy(s: System, c: Ref, g: RoomId, ip: IP)
    requires Consistent(s) && c in s.live && Roomless(s.srv, c) && Tidy(s)
    ensures Tidy(Created(s, c, g, ip))
  {
    var s' := Created(s, c, g, ip);
    assert Registered(s.srv, c);
    forall r ensures r in s'.live <==> Registered(s'.srv, r) {
      assert r in s.live <==> Registered(s.srv, r);
    }
    forall r, h | Member(s'.srv, r, h) ensures r in s'.live && s'.srv.heap[r].gameID == h {
      assert Member(s.srv, r, h) || (r == c && h == g);
    }
  }

  /** A creator's copy is its room exactly if it plays the character it announced, and
      its address is rendered in one way. */
  lemma CreateMirrorsExactly(s: System, c: Ref, g: RoomId, addr: IP)
    requires Consistent(s) && c in s.live && ActsOn(s, c, c) && g !in s.srv.rooms
    requires LobbyOnly(s.srv.net[c]) && StillHere(s.srv.net[c], s.clients[c].userID)
    ensures Member(Created(s, c, g, addr).srv, c, g)
    ensures MirrorsRoom(Created(s, c, g, addr), c, g) <==> AsAnnounced(s, c) && addr.Plain()
  {
    var s' := Created(s, c, g, addr);
    var u, me := s.clients[c].userID, s.clients[c];
    var q := s.srv.net[c];
    var copied, recorded := Player(u, me.profile, addr.Text4()), Player(u, s.srv.heap[c].profile, addr.text);
    FoldLobby(s'.clients[c], q);
    StillHereLobby(q, u);
    SameEntered(map[], u, copied, recorded, Departed(q));
    assert Snapshot(s'.srv, g).players == map[][u := recorded];
    assert s'.clients[c].lan.value.players == map[][u := copied];
  }

  /** An IPv6 creator's own entry has no address, whatever the character. */
  lemma V6CreatorDiffers(s: System, c: Ref, g: RoomId)
    requires Consistent(s) && c in s.live && ActsOn(s, c, c) && g !in s.srv.rooms
    requires LobbyOnly(s.srv.net[c]) && StillHere(s.srv.net[c], s.clients[c].userID)
    ensures var s', u := Created(s, c, g, V6("::1")), s.clients[c].userID;
            && !MirrorsRoom(s', c, g)
            && View(s', c).lan.Some?
            && EntryOf(View(s', c).lan.value.players, u) == Some(Player(u, s.clients[c].profile, "<nil>"))
            && EntryOf(Snapshot(s'.srv, g).players, u) == Some(Player(u, s.srv.heap[c].profile, "::1"))
  {
    CreateMirrorsExactly(s, c, g, V6("::1"));
    var s' := Created(s, c, g, V6("::1"));
    FoldLobby(s'.clients[c], s.srv.net[c]);
    StillHereLobby(s.srv.net[c], s.clients[c].userID);
  }

  lemma CreateMirrors(s: System, c: Ref, g: RoomId, addr: IP, r: Ref, h: RoomId)
    requires Consistent(s) && c in s.live && Roomless(s.srv, c) && Exact(s)
    requires g !in s.srv.rooms ==> AsAnnounced(s, c) && addr.Plain()
    requires Member(Created(s, c, g, addr).srv, r, h)
    ensures MirrorsRoom(Created(s, c, g, addr), r, h)
  {
    assert Registered(s.srv, c);
    if r == c {
      HostAgreement.CreateMembers(s.srv, s.clients[c].userID, g, addr.text, r, h);
      assert h == g && g !in s.srv.rooms;
      CreateMirrorsExactly(s, c, g, addr);
    } else {
      OtherCreateSnapshot(s, c, g, addr, r, h);
      assert Mirrors(s, r) && MirrorsRoom(s, r, h);
      assert Created(s, c, g, addr).srv.net == s.srv.net;
    }
  }

  /** A room somebody else is in is not touched by a creation. */
  lemma OtherCreateSnapshot(s: System, c: Ref, g: RoomId, addr: IP, r: Ref, h: RoomId)
    requires Consistent(s) && c in s.live && Roomless(s.srv, c) && Tidy(s)
    requires r != c && Member(Created(s, c, g, addr).srv, r, h)
    ensures Member(s.srv, r, h)
    ensures Snapshot(Created(s, c, g, addr).srv, h).players == Snapshot(s.srv, h).players
  {
    var s' := Created(s, c, g, addr);
    assert Registered(s.srv, c);
    HostAgreement.CreateMembers(s.srv, s.clients[c].userID, g, addr.text, r, h);
    forall u | u in s.srv.rooms[h].players
      ensures s'.srv.heap[s.srv.rooms[h].players[u]] == s.srv.heap[s.srv.rooms[h].players[u]]
    {
      assert Member(s.srv, s.srv.rooms[h].players[u], h);
    }
    SnapshotFrame(s.srv, s'.srv, h);
  }

  lemma CreateRecords(s: System, c: Ref, g: RoomId, addr: IP, r: Ref)
    requires Consistent(s) && c in s.live && Roomless(s.srv, c) && Exact(s)
    ensures RecordsRight(Created(s, c, g, addr).srv, r)
  {
    var s' := Created(s, c, g, addr);
    assert Registered(s.srv, c);
    forall h | Member(s'.srv, r, h) ensures forall u :: RecordRight(s'.srv, r, h, u) {
      if r == c {
        HostAgreement.CreateMembers(s.srv, s.clients[c].userID, g, addr.text, r, h);
        AloneRecords(s, s', c, g);
      } else {
        OtherCreateSnapshot(s, c, g, addr, r, h);
        assert RecordsRight(s.srv, r);
        forall u ensures RecordRight(s'.srv, r, h, u) { assert RecordRight(s.srv, r, h, u); }
      }
    }
  }

  /** In a new room there is nobody whose departure is still to be read. */
  lemma AloneRecords(s: System, s': System, c: Ref, g: RoomId)
    requires Consistent(s) && Consistent(s') && c in s.srv.heap && c in s'.srv.heap && g in s'.srv.rooms
    requires LobbyOnly(s.srv.net[c]) && StillHere(s.srv.net[c], s.srv.heap[c].userID)
    requires s'.srv.net[c] == s.srv.net[c] && s'.srv.rooms[g].players.Keys == {s.srv.heap[c].userID}
    ensures forall u :: RecordRight(s'.srv, c, g, u)
  {
    forall u ensures RecordRight(s'.srv, c, g, u) {
      LobbyWord(s.srv.net[c], u);
      StillHereLobby(s.srv.net[c], s.srv.heap[c].userID);
    }
  }

  /** Lobby messages have a last word on those who depart. */
  lemma {:induction false} LobbyWord(q: seq<Message>, u: UserId)
    requires LobbyOnly(q)
    ensures LastWord(q, u) == if u in Departed(q) then Gone else Unsaid
  {
    if q != [] {
      var init, m := q[..|q| - 1], q[|q| - 1];
      assert q == init + [m] && m in q;
      LobbyWord(init, u);
      assert m.LeaveLobby? && m.player.userID == u ==> u in Departed(q);
      assert u in Departed(init) ==> u in Departed(q);
    }
  }

  // ----- Enter -----

  /** A live user outside every room is not already listed in the room. */
  lemma NewToRoom(s: System, c: Ref, g: RoomId)
    requires Consistent(s) && Tidy(s) && c in s.live && Roomless(s.srv, c) && g in s.srv.rooms
    ensures s.srv.heap[c].userID !in s.srv.rooms[g].players && ActsOn(s, c, c)
  {
    assert Registered(s.srv, c);
    if s.srv.heap[c].userID in s.srv.rooms[g].players {
      assert Member(s.srv, s.srv.rooms[g].players[s.srv.heap[c].userID], g);
    }
  }

  lemma JoinRegistered(s: Server, g: RoomId, u: UserId, ip: string, now: Time, r: Ref, h: RoomId)
    requires WellFormed(s) && g in s.rooms && r in s.heap
    ensures var s' := JoinGame(s, g, u, ip, now);
            && r in s'.heap && s'.heap[r].TrueName() == s.heap[r].TrueName()
            && (Registered(s', r) <==> Registered(s, r))
            && (Member(s', r, h) ==>
              || Member(s, r, h)
              || (h == g && u in s.sessions && s.sessions[u] == r && s'.heap[r].gameID == g))
            && (!(u in s.sessions && s.sessions[u] == r) ==> s'.heap[r] == s.heap[r])
  {
    JoinGameKeepsWellFormed(s, g, u, ip, now);
  }

  lemma JoinTidy(s: System, c: Ref, g: RoomId, ip: string, now: Time)
    requires Consistent(s) && c in s.live && Roomless(s.srv, c) && Tidy(s)
    ensures Tidy(Joined(s, c, g, ip, now))
  {
    var s' := Joined(s, c, g, ip, now);
    var u := s.clients[c].userID;
    if g in s.srv.rooms {
      NewToRoom(s, c, g);
      forall r ensures r in s'.live <==> Registered(s'.srv, r) {
        if r in s.srv.heap { JoinRegistered(s.srv, g, u, ip, now, r, g); }
      }
      forall r | r in s'.live ensures s'.srv.heap[r].TrueName() { JoinRegistered(s.srv, g, u, ip, now, r, g); }
      forall r, h | Member(s'.srv, r, h) ensures r in s'.live && s'.srv.heap[r].gameID == h {
        JoinRegistered(s.srv, g, u, ip, now, r, h);
      }
    }
  }

  lemma JoinStillHere(s: System, c: Ref, g: RoomId, ip: string, now: Time)
    requires Consistent(s) && c in s.live && AllStillHere(s)
    ensures AllStillHere(Joined(s, c, g, ip, now))
  {
    var s' := Joined(s, c, g, ip, now);
    if g in s.srv.rooms {
      forall r | r in s'.live ensures StillHere(s'.srv.net[r], s'.srv.heap[r].userID) {
        assert StillHere(s.srv.net[r], s.srv.heap[r].userID);
      }
    }
  }

  /** The players of a room after a join, if the joiner is in no other. */
  lemma JoinSnapshot(s: Server, g: RoomId, u: UserId, ip: string, now: Time, h: RoomId)
    requires WellFormed(s) && g in s.rooms && h in s.rooms && u in s.sessions
    requires u !in s.rooms[g].players && u !in s.rooms[h].players
    ensures var s', p := JoinGame(s, g, u, ip, now), Player(u, SessionOf(s, u).profile, ip);
            && WellFormed(s') && h in s'.rooms
            && Snapshot(s', h).players ==
               if h == g then Snapshot(s, g).players[u := p] else Snapshot(s, h).players
  {
    JoinGameKeepsWellFormed(s, g, u, ip, now);
    var s' := JoinGame(s, g, u, ip, now);
    forall v | v in s.rooms[h].players ensures s'.heap[s.rooms[h].players[v]] == s.heap[s.rooms[h].players[v]] {
      assert s.heap[s.rooms[h].players[v]].userID == v != u;
    }
  }

  /** The server's room after a join is the old one with the newcomer's record. */
  lemma SnapshotAfterJoin(s: System, c: Ref, g: RoomId, ip: string, now: Time, h: RoomId)
    requires Consistent(s) && c in s.live && Roomless(s.srv, c) && Tidy(s) && g in s.srv.rooms && h in s.srv.rooms
    ensures var s' := Joined(s, c, g, ip, now);
            var p := Player(s.clients[c].userID, s.srv.heap[c].profile, ip);
            && h in s'.srv.rooms
            && Snapshot(s'.srv, h).players ==
               if h == g then Snapshot(s.srv, g).players[p.userID := p] else Snapshot(s.srv, h).players
  {
    NewToRoom(s, c, g);
    NewToRoom(s, c, h);
    JoinSnapshot(s.srv, g, s.clients[c].userID, ip, now, h);
  }

  /** What the newcomer will hold: the room it selected and itself, without those
      whose departure it has yet to read. */
  lemma EnteredView(s: System, c: Ref, g: RoomId, ip: string, now: Time)
    requires Consistent(s) && Tidy(s) && c in s.live
    requires Roomless(s.srv, c) && g in s.srv.rooms && LobbyOnly(s.srv.net[c])
    ensures var s' := Joined(Selected(s, c, g), c, g, ip, now);
            var lan, u := View(s', c).lan, s.clients[c].userID;
            && Member(s'.srv, c, g)
            && lan.Some? && lan.value.id == g
            && lan.value.players ==
               Snapshot(s.srv, g).players[u := Player(u, s.clients[c].profile, ip)] - Departed(s.srv.net[c])
  {
    var mid := Selected(s, c, g);
    var s' := Joined(mid, c, g, ip, now);
    NewToRoom(s, c, g);
    JoinView(s.srv, g, s.clients[c].userID, ip, now, s'.clients[c], c);
    FoldLobby(s'.clients[c], s.srv.net[c]);
  }

  /** The guard on entering is exact: the copy is the room if and only if the player
      has announced its character and has no departure from the room left to read. */
  lemma EnterMirrorsExactly(s: System, c: Ref, g: RoomId, ip: string, now: Time)
    requires Consistent(s) && Exact(s) && c in s.live && Roomless(s.srv, c) && g in s.srv.rooms
    ensures var s' := Joined(Selected(s, c, g), c, g, ip, now);
            Member(s'.srv, c, g) && (MirrorsRoom(s', c, g) <==> AsAnnounced(s, c) && NoNewsOf(s, c, g))
  {
    var u, q := s.clients[c].userID, s.srv.net[c];
    var mid, m := Selected(s, c, g), Snapshot(s.srv, g).players;
    NewToRoom(s, c, g);
    assert LobbyOnly(q) && StillHere(q, u);
    StillHereLobby(q, u);
    EnteredView(s, c, g, ip, now);
    assert Tidy(mid) && Roomless(mid.srv, c);
    SnapshotAfterJoin(mid, c, g, ip, now, g);
    SameEntered(m, u, Player(u, s.clients[c].profile, ip), Player(u, s.srv.heap[c].profile, ip), Departed(q));
    NoNewsApart(s, c, g);
  }

  lemma NoNewsApart(s: System, c: Ref, g: RoomId)
    requires Consistent(s) && c in s.live && g in s.srv.rooms
    ensures NoNewsOf(s, c, g) <==> Departed(s.srv.net[c]) !! Snapshot(s.srv, g).players.Keys
  {
    assert Snapshot(s.srv, g).players.Keys == s.srv.rooms[g].players.Keys;
    if m :| m in s.srv.net[c] && m.LeaveLobby? && m.player.userID in s.srv.rooms[g].players {
      assert m.player.userID in Departed(s.srv.net[c]);
    }
  }

  /** What a join adds to the copy of another client. */
  lemma OtherJoinView(s: System, c: Ref, g: RoomId, ip: string, now: Time, r: Ref, h: RoomId)
    requires Consistent(s) && c in s.live && Roomless(s.srv, c) && Tidy(s) && g in s.srv.rooms
    requires r != c && Member(s.srv, r, h) && View(s, r).lan.Some?
    ensures var p := Player(s.clients[c].userID, s.srv.heap[c].profile, ip);
            var lan := View(s, r).lan.value;
            View(Joined(s, c, g, ip, now), r).lan ==
            Some(if h == g then lan.(players := lan.players[p.userID := p]) else lan)
  {
    var u := s.clients[c].userID;
    NewToRoom(s, c, g);
    assert s.srv.heap[r].gameID == h;
    JoinView(s.srv, g, u, ip, now, s.clients[r], r);
    JoinRecord(s.srv, g, u, ip, now);
    if h != g { assert !Member(s.srv, r, g); }
  }

  lemma OtherJoinMirrors(s: System, c: Ref, g: RoomId, ip: string, now: Time, r: Ref, h: RoomId)
    requires Consistent(s) && c in s.live && Roomless(s.srv, c) && Tidy(s) && g in s.srv.rooms && Mirrors(s, r)
    requires r != c && Member(Joined(s, c, g, ip, now).srv, r, h)
    ensures MirrorsRoom(Joined(s, c, g, ip, now), r, h)
  {
    NewToRoom(s, c, g);
    JoinedMember(s.srv, g, s.clients[c].userID, ip, now, r, h);
    assert MirrorsRoom(s, r, h);
    OtherJoinView(s, c, g, ip, now, r, h);
    SnapshotAfterJoin(s, c, g, ip, now, h);
  }

  lemma OtherJoinRecords(s: System, c: Ref, g: RoomId, ip: string, now: Time, r: Ref, h: RoomId)
    requires Consistent(s) && c in s.live && Roomless(s.srv, c) && Tidy(s) && g in s.srv.rooms && RecordsRight(s.srv, r)
    requires r != c && Member(Joined(s, c, g, ip, now).srv, r, h)
    ensures forall u :: RecordRight(Joined(s, c, g, ip, now).srv, r, h, u)
  {
    var s', me := Joined(s, c, g, ip, now), s.clients[c].userID;
    NewToRoom(s, c, g);
    JoinedMember(s.srv, g, me, ip, now, r, h);
    SnapshotAfterJoin(s, c, g, ip, now, h);
    OtherJoinNews(s, c, g, ip, now, r, h);
    var p := Player(me, s.srv.heap[c].profile, ip);
    var news := if h == g then [JoinRoom(p)] else [];
    forall u ensures RecordRight(s'.srv, r, h, u) {
      JoinWord(s.srv.net[r], p, u);
      assert s.srv.net[r] + [] == s.srv.net[r];
      assert RecordRight(s.srv, r, h, u);
    }
  }

  lemma OtherJoinNews(s: System, c: Ref, g: RoomId, ip: string, now: Time, r: Ref, h: RoomId)
    requires Consistent(s) && c in s.live && Roomless(s.srv, c) && Tidy(s) && g in s.srv.rooms
    requires r != c && Member(s.srv, r, h)
    ensures var p := Player(s.clients[c].userID, s.srv.heap[c].profile, ip);
            r in Joined(s, c, g, ip, now).srv.heap
            && Joined(s, c, g, ip, now).srv.net[r] == s.srv.net[r] + if h == g then [JoinRoom(p)] else []
  {
    NewToRoom(s, c, g);
    assert s.srv.heap[r].gameID == h;
    if h != g { assert !Member(s.srv, r, g); }
    JoinNews(s.srv, g, s.clients[c].userID, ip, now, r);
    assert s.srv.net[r] + [] == s.srv.net[r];
  }

  lemma JoinWord(q: seq<Message>, p: Player, u: UserId)
    ensures LastWord(q + [JoinRoom(p)], u) == if u == p.userID then Here(p) else LastWord(q, u)
  {
    assert (q + [JoinRoom(p)])[..|q|] == q;
  }

  /** A player who enters with no departure from the room left to read. */
  lemma EnterRecords(s: System, c: Ref, g: RoomId, ip: string, now: Time)
    requires Consistent(s) && Exact(s) && c in s.live && Roomless(s.srv, c) && g in s.srv.rooms && NoNewsOf(s, c, g)
    ensures Member(Joined(s, c, g, ip, now).srv, c, g)
    ensures forall u :: RecordRight(Joined(s, c, g, ip, now).srv, c, g, u)
  {
    var s', q := Joined(s, c, g, ip, now), s.srv.net[c];
    NewToRoom(s, c, g);
    SnapshotAfterJoin(s, c, g, ip, now, g);
    JoinsIn(s.srv, g, s.clients[c].userID, ip, now, c);
    JoinNews(s.srv, g, s.clients[c].userID, ip, now, c);
    NoNewsApart(s, c, g);
    assert LobbyOnly(q) && StillHere(q, s.clients[c].userID);
    StillHereLobby(q, s.clients[c].userID);
    forall u ensures RecordRight(s'.srv, c, g, u) { LobbyWord(q, u); }
  }

  /** The record a join announces. */
  lemma JoinRecord(s: Server, g: RoomId, u: UserId, ip: string, now: Time)
    requires WellFormed(s) && g in s.rooms && u in s.sessions && u !in s.rooms[g].players
    ensures var s', r := JoinGame(s, g, u, ip, now), s.sessions[u];
            r in s'.heap && s'.heap[r].RoomPlayer() == Player(u, s.heap[r].profile, ip)
  {
  }

  // ----- Runs -----

  lemma EnterMirrors(s: System, c: Ref, g: RoomId, ip: string, now: Time, r: Ref)
    requires Consistent(s) && c in s.live && Roomless(s.srv, c) && g in s.srv.rooms && Exact(s)
    requires AsAnnounced(s, c) && NoNewsOf(s, c, g)
    requires Tidy(Joined(Selected(s, c, g), c, g, ip, now))
    ensures Mirrors(Joined(Selected(s, c, g), c, g, ip, now), r)
  {
    var mid := Selected(s, c, g);
    var s' := Joined(mid, c, g, ip, now);
    if r == c {
      EnterMirrorsExactly(s, c, g, ip, now);
      forall h | Member(s'.srv, c, h) ensures h == g { assert s'.srv.heap[c].gameID == h; }
    } else {
      OthersMirror(s, c, g, r);
      assert Tidy(mid);
      forall h | Member(s'.srv, r, h) ensures MirrorsRoom(s', r, h) { OtherJoinMirrors(mid, c, g, ip, now, r, h); }
    }
  }

  lemma EnterRecordsAll(s: System, c: Ref, g: RoomId, ip: string, now: Time, r: Ref)
    requires Consistent(s) && c in s.live && Roomless(s.srv, c) && g in s.srv.rooms && Exact(s) && NoNewsOf(s, c, g)
    requires Tidy(Joined(s, c, g, ip, now))
    ensures RecordsRight(Joined(s, c, g, ip, now).srv, r)
  {
    var s' := Joined(s, c, g, ip, now);
    forall h | Member(s'.srv, r, h) ensures forall u :: RecordRight(s'.srv, r, h, u) {
      if r == c {
        EnterRecords(s, c, g, ip, now);
        assert s'.srv.heap[c].gameID == h && s'.srv.heap[c].gameID == g;
      } else {
        assert RecordsRight(s.srv, r);
        OtherJoinRecords(s, c, g, ip, now, r, h);
      }
    }
  }

  /** Selecting changes no copy but one's own. */
  lemma OthersMirror(s: System, c: Ref, g: RoomId, r: Ref)
    requires Consistent(s) && c in s.live && r != c && Mirrors(s, r)
    ensures Mirrors(Selected(s, c, g), r)
  {
    var s' := Selected(s, c, g);
    forall h | Member(s'.srv, r, h) ensures MirrorsRoom(s', r, h) {
      assert Member(s.srv, r, h) && MirrorsRoom(s, r, h);
    }
  }

  lemma EnterExact(s: System, c: Ref, g: RoomId, ip: string, now: Time)
    requires Consistent(s) && c in s.live && Roomless(s.srv, c) && Exact(s)
    requires g in s.srv.rooms && AsAnnounced(s, c) && NoNewsOf(s, c, g)
    ensures Exact(Joined(Selected(s, c, g), c, g, ip, now))
  {
    var mid := Selected(s, c, g);
    var s' := Joined(mid, c, g, ip, now);
    assert mid.srv == s.srv && s'.srv == Joined(s, c, g, ip, now).srv;
    assert Tidy(mid) && AllStillHere(mid) && AllQuiet(mid);
    JoinTidy(mid, c, g, ip, now);
    JoinStillHere(mid, c, g, ip, now);
    JoinedQuiet(mid, c, g, ip, now);
    assert Tidy(Joined(s, c, g, ip, now));
    forall r ensures Mirrors(s', r) && RecordsRight(s'.srv, r) {
      EnterMirrors(s, c, g, ip, now, r);
      EnterRecordsAll(s, c, g, ip, now, r);
    }
  }

  // ----- A member selects its room again, or retries its join -----

  /** Only client c's copy differs. */
  lemma OnlyCopy(s: System, s': System, c: Ref)
    requires Consistent(s) && Consistent(s') && Exact(s)
    requires s'.srv == s.srv && s'.live == s.live
    requires forall r | r in s.clients && r != c :: s'.clients[r] == s.clients[r]
    requires Mirrors(s', c)
    ensures Exact(s')
  {
    forall r ensures Mirrors(s', r) && RecordsRight(s'.srv, r) {
      assert Mirrors(s, r) && RecordsRight(s.srv, r);
      if r != c {
        forall h | Member(s'.srv, r, h) ensures MirrorsRoom(s', r, h) {
          assert Member(s.srv, r, h) && MirrorsRoom(s, r, h);
        }
      }
    }
  }

  lemma SelectExact(s: System, c: Ref, g: RoomId)
    requires Consistent(s) && c in s.live && (g in s.srv.rooms ==> MayCopy(s, c, g)) && Exact(s)
    ensures Exact(Selected(s, c, g))
  {
    var s' := Selected(s, c, g);
    if g in s.srv.rooms {
      forall h | Member(s'.srv, c, h) ensures MirrorsRoom(s', c, h) {
        assert Member(s.srv, c, h) && h == g;
        assert RecordsRight(s.srv, c);
        CopyMirrors(s', c, g);
      }
      OnlyCopy(s, s', c);
    }
  }

  /** A join by a member is refused, and enters in its copy the record it has there. */
  lemma RetryExact(s: System, c: Ref, g: RoomId, ip: string, now: Time)
    requires Consistent(s) && c in s.live && Member(s.srv, c, g) && AsListed(s, c, ip) && Exact(s)
    ensures Exact(Joined(s, c, g, ip, now))
  {
    var s', u := Joined(s, c, g, ip, now), s.clients[c].userID;
    assert s'.srv == s.srv;
    assert Mirrors(s, c) && MirrorsRoom(s, c, g);
    if s.clients[c].lan.None? { FoldNone(s.clients[c], s.srv.net[c]); }
    FoldWord(s.clients[c], s.srv.net[c], u);
    forall v | LastWord(s.srv.net[c], v) == Unsaid
      ensures EntryOf(s'.clients[c].lan.value.players, v) == EntryOf(Snapshot(s.srv, g).players, v)
    {
      MirrorHas(s, c, g, v);
    }
    assert RecordsRight(s.srv, c);
    CopyMirrors(s', c, g);
    forall h | Member(s'.srv, c, h) ensures MirrorsRoom(s', c, h) {
      assert s.srv.heap[c].gameID == h && s.srv.heap[c].gameID == g;
    }
    OnlyCopy(s, s', c);
  }

  lemma CreateExact(s: System, c: Ref, g: RoomId, addr: IP)
    requires Consistent(s) && c in s.live && Roomless(s.srv, c) && Exact(s)
    requires g !in s.srv.rooms ==> AsAnnounced(s, c) && addr.Plain()
    ensures Exact(Created(s, c, g, addr))
  {
    var s' := Created(s, c, g, addr);
    CreateTidy(s, c, g, addr);
    CreatedQuiet(s, c, g, addr);
    CreateStillHere(s, c, g, addr);
    forall r ensures Mirrors(s', r) && RecordsRight(s'.srv, r) {
      CreateRecords(s, c, g, addr, r);
      forall h | Member(s'.srv, r, h) ensures MirrorsRoom(s', r, h) { CreateMirrors(s, c, g, addr, r, h); }
    }
  }

  lemma CreateStillHere(s: System, c: Ref, g: RoomId, ip: IP)
    requires Consistent(s) && c in s.live && AllStillHere(s)
    ensures AllStillHere(Created(s, c, g, ip))
  {
    var s' := Created(s, c, g, ip);
    forall r | r in s'.live ensures StillHere(s'.srv.net[r], s'.srv.heap[r].userID) {
      assert StillHere(s.srv.net[r], s.srv.heap[r].userID);
    }
  }

  lemma ReselectMirrors(s: System, c: Ref, characterID: int, classType: int, r: Ref)
    requires Consistent(s) && c in s.live && Mirrors(s, r)
    ensures Mirrors(Reselected(s, c, characterID, classType), r)
  {
    var s' := Reselected(s, c, characterID, classType);
    forall g | Member(s'.srv, r, g) ensures MirrorsRoom(s', r, g) {
      assert Member(s.srv, r, g) && MirrorsRoom(s, r, g);
      ReselectView(s, c, characterID, classType, r);
    }
  }

  lemma ReselectExact(s: System, c: Ref, characterID: int, classType: int)
    requires Consistent(s) && c in s.live && Exact(s)
    ensures Exact(Reselected(s, c, characterID, classType))
  {
    forall r ensures Mirrors(Reselected(s, c, characterID, classType), r) && RecordsRight(s.srv, r) {
      assert RecordsRight(s.srv, r);
      ReselectMirrors(s, c, characterID, classType, r);
    }
  }

  lemma DeliverTidy(s: System, c: Ref)
    requires Consistent(s) && Enabled(s, Deliver(c)) && Tidy(s)
    ensures Tidy(Step(s, Deliver(c)))
  {
    var s' := Step(s, Deliver(c));
    forall r ensures r in s'.live <==> Registered(s'.srv, r) { assert r in s.live <==> Registered(s.srv, r); }
    forall r, g | Member(s'.srv, r, g) ensures r in s'.live && s'.srv.heap[r].gameID == g {
      assert Member(s.srv, r, g);
    }
  }

  lemma DeliverMirrors(s: System, c: Ref, r: Ref)
    requires Consistent(s) && Enabled(s, Deliver(c)) && Mirrors(s, r)
    ensures Mirrors(Step(s, Deliver(c)), r)
  {
    var s' := Step(s, Deliver(c));
    forall g | Member(s'.srv, r, g) ensures MirrorsRoom(s', r, g) {
      assert Member(s.srv, r, g) && MirrorsRoom(s, r, g);
      DeliverView(s, c, r);
      SnapshotFrame(s.srv, s'.srv, g);
    }
  }

  lemma DeliverRecords(s: System, c: Ref, r: Ref)
    requires Consistent(s) && Enabled(s, Deliver(c)) && RecordsRight(s.srv, r)
    ensures RecordsRight(Step(s, Deliver(c)).srv, r)
  {
    var s' := Step(s, Deliver(c));
    forall g | Member(s'.srv, r, g) ensures forall u :: RecordRight(s'.srv, r, g, u) {
      assert Member(s.srv, r, g);
      SnapshotFrame(s.srv, s'.srv, g);
      forall u ensures RecordRight(s'.srv, r, g, u) {
        assert RecordRight(s.srv, r, g, u);
        TailNews(s.srv.net[c], u);
      }
    }
  }

  lemma DeliverExact(s: System, c: Ref)
    requires Consistent(s) && Enabled(s, Deliver(c)) && Exact(s)
    ensures Exact(Step(s, Deliver(c)))
  {
    StepQuiet(s, Deliver(c));
    DeliverTidy(s, c);
    forall r ensures Mirrors(Step(s, Deliver(c)), r) && RecordsRight(Step(s, Deliver(c)).srv, r) {
      assert RecordsRight(s.srv, r);
      DeliverMirrors(s, c, r);
      DeliverRecords(s, c, r);
    }
  }

  lemma DisconnectExact(s: System, x: Ref, next: UserId)
    requires Consistent(s) && Enabled(s, Disconnect(x, next)) && Exact(s)
    ensures Exact(Step(s, Disconnect(x, next)))
  {
    var s' := Step(s, Disconnect(x, next));
    DisconnectTidy(s, x, next);
    DisconnectStillHere(s, x, next);
    StepQuiet(s, Disconnect(x, next));
    forall r ensures Mirrors(s', r) && RecordsRight(s'.srv, r) {
      DisconnectRecords(s, x, next, r);
      forall g | Member(s'.srv, r, g) ensures MirrorsRoom(s', r, g) { DisconnectMirrors(s, x, next, r, g); }
    }
  }

  lemma ConnectExact(s: System, n: Ref, us: UserSession, order: seq<UserId>)
    requires Consistent(s) && Enabled(s, Connect(n, us, order)) && Exact(s)
    requires us.TrueName() && forall o | o in s.live :: s.srv.heap[o].userID != us.userID
    ensures Exact(Step(s, Connect(n, us, order)))
  {
    ConnectTidy(s, n, us, order);
    ConnectStillHere(s, n, us, order);
    ConnectQuiet(s, n, us, order);
    forall r ensures Mirrors(Step(s, Connect(n, us, order)), r) && RecordsRight(Step(s, Connect(n, us, order)).srv, r) {
      assert Mirrors(s, r) && RecordsRight(s.srv, r);
      ConnectMirrors(s, n, us, order, r);
      ConnectRecords(s, n, us, order, r);
    }
  }

  lemma EnteredExact(s: System, c: Ref, g: RoomId, ip: string, now: Time)
    requires Consistent(s) && c in s.live && OrderlyAllows(s, Enter(c, g, ip, now)) && Exact(s)
    ensures Exact(Joined(Selected(s, c, g), c, g, ip, now))
  {
    if g in s.srv.rooms {
      if Member(s.srv, c, g) {
        forall h | Member(s.srv, c, h) ensures h == g {
          assert s.srv.heap[c].gameID == h && s.srv.heap[c].gameID == g;
        }
        SelectExact(s, c, g);
        RetryExact(Selected(s, c, g), c, g, ip, now);
      } else {
        EnterExact(s, c, g, ip, now);
      }
    }
  }

  lemma StepExact(s: System, e: Event)
    requires Consistent(s) && Enabled(s, e) && OrderlyAllows(s, e) && Exact(s)
    ensures Exact(Step(s, e))
  {
    match e
    case Connect(n, us, order) => ConnectExact(s, n, us, order);
    case Disconnect(x, next) => DisconnectExact(s, x, next);
    case CreateGame(c, g, addr) => CreateExact(s, c, g, addr);
    case Select(c, g) => SelectExact(s, c, g);
    case Enter(c, g, ip, now) => EnteredExact(s, c, g, ip, now);
    case Reselect(c, characterID, classType) => ReselectExact(s, c, characterID, classType);
    case Deliver(c) => DeliverExact(s, c);
    case Join(c, g, ip, now) => if g in s.srv.rooms { RetryExact(s, c, g, ip, now); }
  }

  lemma {:induction false} RunExact(s: System, es: seq<Event>)
    requires Consistent(s) && Exact(s) && Run(Orderly, s, es)
    ensures Exact(After(Orderly, s, es))
    decreases |es|
  {
    if es != [] {
      StepExact(s, es[0]);
      RunExact(Step(s, es[0]), es[1..]);
    }
  }

  /** Main result: in every orderly run, a LAN member's copy of its room, with its
      unread messages applied, has the server's players with their current
      records, addresses included. */
  lemma RosterMirrorsRoom(es: seq<Event>, r: Ref, g: RoomId)
    requires Run(Orderly, INITIAL, es)
    requires Member(After(Orderly, INITIAL, es).srv, r, g)
    ensures var s := After(Orderly, INITIAL, es);
            && View(s, r).lan.Some?
            && View(s, r).lan.value.id == g
            && View(s, r).lan.value.players == Snapshot(s.srv, g).players
  {
    RunExact(INITIAL, es);
    assert Mirrors(After(Orderly, INITIAL, es), r) && MirrorsRoom(After(Orderly, INITIAL, es), r, g);
  }
}
