/** The server's methods, in the form internal/console/multiplayer.go gives them:
    they update the tables in place and walk the maps in any order. Each is proved
    to have the effect ControlPlane gives it. */
module MultiplayerServer {
  import opened Wire
  import opened ControlPlane
  import opened Operations
  import Addresses
  import RelayRooms
  import RelayServerClass

  /** Posting to one more connection. */
  lemma PostOneMore(net: map<Ref, seq<Message>>, sent: set<Ref>, r: Ref, ms: seq<Message>)
    requires r !in sent
    ensures Post(Post(net, sent, ms), {r}, ms) == Post(net, sent + {r}, ms)
  {
  }

  /** Posting one message after another to the same connections. */
  lemma PostTwice(net: map<Ref, seq<Message>>, targets: set<Ref>, ms: seq<Message>, ns: seq<Message>)
    ensures Post(Post(net, targets, ms), targets, ns) == Post(net, targets, ms + ns)
  {
    forall r | r in net && r in targets ensures (net[r] + ms) + ns == net[r] + (ms + ns) {}
  }

  lemma PostNobody(net: map<Ref, seq<Message>>, ms: seq<Message>)
    ensures Post(net, {}, ms) == net
  {
  }

  lemma PostFirst(net: map<Ref, seq<Message>>, r: Ref, ms: seq<Message>)
    ensures Post(net[r := []], {r}, ms) == net[r := ms]
  {
    assert [] + ms == ms;
  }

  function LeaveNews(left: Message, hostChanged: bool, elected: Message): seq<Message> {
    [left] + if hostChanged then [elected] else []
  }

  /** A walk over the sessions under way: the users listed so far with their records, and
      those still to come. */
  predicate Listing(s: Server, order: seq<UserId>, players: seq<Player>, todo: set<UserId>)
    requires WellFormed(s)
  {
    && todo <= s.sessions.Keys
    && (forall u | u in s.sessions :: u in todo <==> u !in order)
    && (forall i | 0 <= i < |order| :: order[i] in s.sessions)
    && (forall i, j | 0 <= i < j < |order| :: order[i] != order[j])
    && |players| == |order| && |players| + |todo| == |s.sessions|
    && forall i | 0 <= i < |order| :: players[i] == SessionOf(s, order[i]).ToPlayer()
  }

  lemma ListOneMore(s: Server, order: seq<UserId>, players: seq<Player>, todo: set<UserId>, u: UserId)
    requires WellFormed(s) && Listing(s, order, players, todo) && u in todo
    ensures Listing(s, order + [u], players + [SessionOf(s, u).ToPlayer()], todo - {u})
  {
  }

  lemma ListedAll(s: Server, order: seq<UserId>, players: seq<Player>)
    requires WellFormed(s) && Listing(s, order, players, {})
    ensures Lists(s, order) && players == Roster(s, order)
    ensures |players| == |s.sessions| && Listed(s, order, players)
  {
  }

  /** The session objects of the entries a walk has seen. */
  function Visited(table: map<UserId, Ref>, seen: set<UserId>): set<Ref> {
    set u | u in table && u in seen :: table[u]
  }

  /** One step of a walk over a table, posting to each entry: entries of different
      users are different session objects, so nobody is sent anything twice. */
  lemma VisitOneMore(heap: map<Ref, UserSession>, table: map<UserId, Ref>, seen: set<UserId>, u: UserId,
                     net: map<Ref, seq<Message>>, ms: seq<Message>)
    requires Keyed(heap, table) && u in table && u !in seen
    ensures Post(Post(net, Visited(table, seen), ms), {table[u]}, ms) == Post(net, Visited(table, seen + {u}), ms)
  {
    assert table[u] !in Visited(table, seen);
    assert Visited(table, seen + {u}) == Visited(table, seen) + {table[u]};
    PostOneMore(net, Visited(table, seen), table[u], ms);
  }

  lemma VisitedOthers(table: map<UserId, Ref>, u: UserId)
    ensures Visited(table, table.Keys - {u}) == Refs(table - {u})
  {
    forall v | v in table && v != u ensures table[v] in Refs(table - {u}) {
      assert v in table - {u} && (table - {u})[v] == table[v];
    }
    forall v | v in table - {u} ensures (table - {u})[v] in Visited(table, table.Keys - {u}) {
      assert v in table && v in table.Keys - {u};
    }
  }

  class Multiplayer {
    /** The relay server, if this console runs one. */
    const relay: RelayServerClass.RelayServer?
    /** Every session object, by pointer. */
    var heap: map<Ref, UserSession>
    var sessions: map<UserId, Ref>
    var rooms: map<RoomId, GameRoom>
    /** What has been written to each session's connection and not been read. */
    var net: map<Ref, seq<Message>>

    ghost function State(): Server
      reads this
    {
      Server(heap, sessions, rooms, net)
    }

    constructor (rs: RelayServerClass.RelayServer?)
      ensures relay == rs && State() == NOBODY
    {
      relay := rs;
      heap, sessions, rooms, net := map[], map[], map[], map[];
    }

    method Send(r: Ref, m: Message)
      requires r in net
      modifies this`net
      ensures net == Post(old(net), {r}, [m])
    {
      net := net[r := net[r] + [m]];
    }

    method GetUserSession(u: UserId) returns (found: Option<Ref>)
      ensures found == if u in sessions then Some(sessions[u]) else None
    {
      if u in sessions { found := Some(sessions[u]); } else { found := None; }
    }

    method AddUserSession(u: UserId, r: Ref)
      modifies this`sessions
      ensures sessions == if u in old(sessions) then old(sessions) else old(sessions)[u := r]
    {
      var existing := GetUserSession(u);
      if existing.Some? { return; }
      sessions := sessions[u := r];
    }

    method DeleteUserSession(u: UserId)
      modifies this`sessions
      ensures sessions == old(sessions) - {u}
    {
      sessions := sessions - {u};
    }

    method BroadcastMessage(m: Message)
      requires WellFormed(State())
      modifies this`net
      ensures net == Post(old(net), Refs(sessions), [m])
    {
      var todo := sessions.Keys;
      PostNobody(net, [m]);
      while todo != {}
        invariant todo <= sessions.Keys
        invariant net == Post(old(net), Visited(sessions, sessions.Keys - todo), [m])
        decreases |todo|
      {
        ghost var some := Inhabited(todo);
        var u :| u in todo;
        VisitOneMore(heap, sessions, sessions.Keys - todo, u, old(net), [m]);
        assert (sessions.Keys - todo) + {u} == sessions.Keys - (todo - {u});
        Send(sessions[u], m);
        todo := todo - {u};
      }
      assert Visited(sessions, sessions.Keys) == Refs(sessions);
    }

    /** The records of the registered users, in the order of the walk. */
    method ListSessions() returns (players: seq<Player>, ghost order: seq<UserId>)
      requires WellFormed(State())
      ensures Lists(State(), order) && players == Roster(State(), order)
      ensures |players| == |sessions| && Listed(State(), order, players)
    {
      players, order := [], [];
      var todo := sessions.Keys;
      while todo != {}
        invariant Listing(State(), order, players, todo)
        decreases |todo|
      {
        ghost var some := Inhabited(todo);
        var u :| u in todo;
        ListOneMore(State(), order, players, todo, u);
        players := players + [heap[sessions[u]].ToPlayer()];
        order := order + [u];
        todo := todo - {u};
      }
      ListedAll(State(), order, players);
    }

    method CreateRoom(u: UserId, g: RoomId, ip: string) returns (res: Result<GameRoom, Error>)
      requires WellFormed(State())
      modifies this
      ensures (State(), res) == Create(old(State()), u, g, ip)
      ensures WellFormed(State())
    {
      var found := GetUserSession(u);
      if found.None? { return Err(SessionNotFound); }
      if g in rooms { return Err(RoomExists); }
      CreateKeepsWellFormed(State(), u, g, ip);
      var host := found.value;
      heap := heap[host := heap[host].(gameID := g)];
      heap := heap[host := heap[host].(ipAddress := ip)];
      var room := GameRoom(g, host, host, map[heap[host].userID := host]);
      rooms := rooms[g := room];
      assert heap == old(heap)[host := old(heap)[host].(gameID := g, ipAddress := ip)];
      return Ok(room);
    }

    method DestroyRoom(g: RoomId)
      modifies this`rooms
      ensures rooms == old(rooms) - {g}
    {
      rooms := rooms - {g};
    }

    method JoinRoom(g: RoomId, u: UserId, ip: string, now: Time) returns (res: Result<GameRoom, Error>)
      requires WellFormed(State())
      modifies this
      ensures (State(), res) == Join(old(State()), g, u, ip, now)
      ensures WellFormed(State())
    {
      JoinKeepsWellFormed(State(), g, u, ip, now);
      if u !in sessions { return Err(SessionNotFound); }
      var joining := sessions[u];
      if g !in rooms { return Err(RoomNotFound); }
      if u in rooms[g].players { return Err(AlreadyJoined); }
      heap := heap[joining := heap[joining].(ipAddress := ip)];
      heap := heap[joining := heap[joining].(gameID := rooms[g].id)];
      heap := heap[joining := heap[joining].(joinedAt := now)];
      rooms := rooms[g := rooms[g].(players := rooms[g].players[u := joining])];
      assert heap == old(heap)[joining := old(heap)[joining].(gameID := g, joinedAt := now, ipAddress := ip)];
      return Ok(rooms[g]);
    }

    /** Send news to every player except u. */
    method NotifyOthers(players: map<UserId, Ref>, u: UserId, news: Message)
      requires net.Keys == heap.Keys && Keyed(heap, players)
      modifies this`net
      ensures net == Post(old(net), Visited(players, players.Keys - {u}), [news])
    {
      var todo := players.Keys;
      ghost var seen: set<UserId> := {};
      PostNobody(net, [news]);
      while todo != {}
        invariant todo <= players.Keys && seen !! todo && u !in seen
        invariant players.Keys - {u} <= todo + seen && seen <= players.Keys
        invariant net == Post(old(net), Visited(players, seen), [news])
        decreases |todo|
      {
        ghost var some := Inhabited(todo);
        var id :| id in todo;
        todo := todo - {id};
        if id == u { continue; }
        VisitOneMore(heap, players, seen, id, old(net), [news]);
        seen := seen + {id};
        Send(players[id], news);
      }
      assert seen == players.Keys - {u};
    }

    method AnnounceJoin(room: GameRoom, u: UserId)
      requires WellFormed(State()) && Keyed(heap, room.players)
      modifies this`net
      ensures State() == Announce(old(State()), room, u)
    {
      var joined := GetUserSession(u);
      if joined.None? { return; }
      VisitedOthers(room.players, u);
      NotifyOthers(room.players, u, Message.JoinRoom(heap[joined.value].RoomPlayer()));
    }

    /** The player who joined earliest, found by scanning the map in any order. */
    method GetNextHost(players: map<UserId, Ref>) returns (earliest: Option<Ref>)
      requires Keyed(heap, players)
      ensures earliest.None? <==> players.Keys == {}
      ensures earliest.Some? ==>
                && earliest.value in heap
                && Earliest(heap, players, heap[earliest.value].userID)
                && players[heap[earliest.value].userID] == earliest.value
    {
      earliest := None;
      var todo := players.Keys;
      while todo != {}
        invariant todo <= players.Keys
        invariant earliest.None? <==> todo == players.Keys
        invariant earliest.Some? ==>
          && earliest.value in heap
          && heap[earliest.value].userID in players
          && players[heap[earliest.value].userID] == earliest.value
          && forall v | v in players && v !in todo :: heap[earliest.value].joinedAt <= heap[players[v]].joinedAt
        decreases |todo|
      {
        ghost var some := Inhabited(todo);
        var id :| id in todo;
        if earliest.None? || heap[players[id]].joinedAt < heap[earliest.value].joinedAt {
          earliest := Some(players[id]);
        }
        todo := todo - {id};
      }
    }

    method LeaveRoom(r: Ref) returns (ghost next: UserId)
      requires WellFormed(State()) && r in heap
      modifies this`rooms, this`net
      ensures MayElect(old(State()), r, next) && State() == Leave(old(State()), r, next)
      ensures WellFormed(State())
    {
      next := 0;
      var session := heap[r];
      if session.gameID !in rooms { return; }
      var room := rooms[session.gameID];
      var playerWasHost := heap[room.host].userID == session.userID;
      room := room.(players := room.players - {session.userID});
      ghost var was := State();
      if room.players.Keys == {} {
        DestroyRoom(room.id);
        return;
      }
      if playerWasHost {
        var elected := GetNextHost(room.players);
        room := room.(host := elected.value);
        next := heap[room.host].userID;
      }
      LeaveKeepsWellFormed(was, r, next);
      rooms := rooms[session.gameID := room];
      NotifyLeave(room, session, playerWasHost);
    }

    /** Tell one player of a departure, and of the new host if there is one. */
    method NotifyOne(r: Ref, left: Message, hostChanged: bool, elected: Message)
      requires r in net
      modifies this`net
      ensures net == Post(old(net), {r}, LeaveNews(left, hostChanged, elected))
    {
      Send(r, left);
      if hostChanged {
        Send(r, elected);
        PostTwice(old(net), {r}, [left], [elected]);
      } else {
        assert [left] + [] == [left];
      }
    }

    /** Tell the players who are left, and name the new host if there is one. */
    method NotifyLeave(room: GameRoom, session: UserSession, hostChanged: bool)
      requires net.Keys == heap.Keys && Keyed(heap, room.players) && room.host in heap
      modifies this`net
      ensures net == Post(old(net), Refs(room.players),
                          LeaveNews(Message.LeaveRoom(session.RoomPlayer()), hostChanged,
                                    HostMigration(heap[room.host].RoomPlayer())))
    {
      NotifyAll(room.players, Message.LeaveRoom(session.RoomPlayer()), hostChanged,
                HostMigration(heap[room.host].RoomPlayer()));
    }

    method NotifyAll(players: map<UserId, Ref>, left: Message, hostChanged: bool, elected: Message)
      requires net.Keys == heap.Keys && Keyed(heap, players)
      modifies this`net
      ensures net == Post(old(net), Refs(players), LeaveNews(left, hostChanged, elected))
    {
      ghost var was, news := net, LeaveNews(left, hostChanged, elected);
      var todo := players.Keys;
      PostNobody(net, news);
      while todo != {}
        invariant todo <= players.Keys && net.Keys == was.Keys
        invariant net == Post(was, Visited(players, players.Keys - todo), news)
        decreases |todo|
      {
        ghost var some := Inhabited(todo);
        var id :| id in todo;
        VisitOneMore(heap, players, players.Keys - todo, id, was, news);
        assert (players.Keys - todo) + {id} == players.Keys - (todo - {id});
        NotifyOne(players[id], left, hostChanged, elected);
        todo := todo - {id};
      }
      assert Visited(players, players.Keys) == Refs(players);
    }

    /** Allocate the session object, and register it unless its user has one. */
    method Admit(r: Ref, session: UserSession)
      requires WellFormed(State()) && r !in heap
      modifies this`heap, this`net, this`sessions
      ensures heap == old(heap)[r := session] && net == old(net)[r := []]
      ensures sessions == if session.userID in old(sessions) then old(sessions) else old(sessions)[session.userID := r]
      ensures WellFormed(State())
    {
      heap := heap[r := session];
      net := net[r := []];
      AddUserSession(session.userID, r);
    }

    /** A new connection: the session object is allocated, then announced. */
    method SetPlayerConnected(r: Ref, session: UserSession)
      returns (ghost order: seq<UserId>, ghost listed: seq<Player>)
      requires WellFormed(State()) && r !in heap
      modifies this
      ensures Lists(old(State()), order) && State() == Connect(old(State()), r, session, order)
      ensures Listed(old(State()), order, listed)
      ensures net[r] == [LobbyUsers(listed + [Player(session.helloID, session.profile, "")])] +
                        if session.userID in old(sessions) then []
                        else [JoinLobby(Player(session.helloID, session.profile, ""))]
      ensures forall o | o in old(net) ::
                net[o] == old(net)[o] + if Registered(old(State()), o)
                                        then [JoinLobby(Player(session.helloID, session.profile, ""))] else []
    {
      var players;
      players, order := ListSessions();
      listed := players;
      ConnectExactly(State(), r, session, order, listed);
      Admit(r, session);
      players := players + [session.ToPlayer()];
      PostFirst(old(net), r, [LobbyUsers(players)]);
      Send(r, LobbyUsers(players));
      BroadcastMessage(JoinLobby(session.ToPlayer()));
    }

    /** A closed connection: the user leaves its room here and on the relay server, and
        the lobby. */
    method SetPlayerDisconnected(r: Ref) returns (ghost next: UserId)
      requires WellFormed(State()) && r in heap
      modifies this, relay
      ensures MayElect(old(State()), r, next) && State() == Disconnect(old(State()), r, next)
      ensures relay != null ==>
                relay.State() ==
                RelayRooms.Leave(old(relay.State()), Addresses.PeerName(old(heap[r].userID)), old(heap[r].gameID))
    {
      next := LeaveRoom(r);
      if relay != null {
        relay.LeaveRoom(Addresses.PeerName(heap[r].userID), heap[r].gameID);
      }
      DeleteUserSession(heap[r].userID);
      BroadcastMessage(LeaveLobby(heap[r].ToPlayer()));
    }
  }
}
