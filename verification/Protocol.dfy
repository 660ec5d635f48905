/** Server, connections and clients together, as a state machine whose steps are
    the public operations, each taken to be atomic. */
module Protocol {
  import opened Wire
  import opened ControlPlane
  import opened Replicas

  datatype System = System(srv: Server, clients: map<Ref, Client>, live: set<Ref>, clock: Time)

  const INITIAL := System(NOBODY, map[], {}, 0)

  datatype Event =
    /** A connection completes its handshake as user `us.userID`. */
    | Connect(r: Ref, us: UserSession, order: seq<UserId>)
    /** The connection closes; `next` settles ties in the host election. */
    | Disconnect(r: Ref, next: UserId)
    /** The client creates a room: proxy.CreateRoom, then the CreateGame call. */
    | CreateGame(c: Ref, g: RoomId, addr: IP)
    /** The client looks at a room: the GetGame call, then proxy.SelectGame. */
    | Select(c: Ref, g: RoomId)
    /** The client joins a room: proxy.Join, then the JoinGame call. Both give the text
        of To4. */
    | Join(c: Ref, g: RoomId, ip: string, now: Time)
    /** Select and Join with nothing in between. */
    | Enter(c: Ref, g: RoomId, ip: string, now: Time)
    /** The player picks another character, which the server is not told. */
    | Reselect(c: Ref, characterID: int, classType: int)
    /** The client handles the oldest message on its connection. */
    | Deliver(c: Ref)

  predicate Consistent(s: System) {
    && WellFormed(s.srv)
    && s.clients.Keys == s.srv.heap.Keys
    && s.live <= s.srv.heap.Keys
    && (forall r | r in s.clients :: s.clients[r].userID == s.srv.heap[r].userID)
  }

  predicate Enabled(s: System, e: Event)
    requires Consistent(s)
  {
    match e
    case Connect(r, us, order) =>
      r !in s.srv.heap && Lists(s.srv, order) && us.gameID == "" && us.joinedAt == 0
    case Disconnect(r, next) => r in s.live && MayElect(s.srv, r, next)
    case Deliver(c) => c in s.live && s.srv.net[c] != []
    case _ => e.c in s.live
  }

  function Snapshot(s: Server, g: RoomId): LanRoom
    requires WellFormed(s) && g in s.rooms
  {
    var room := s.rooms[g];
    LanRoom(g, s.heap[room.host].RoomPlayer(),
            map u | u in room.players :: s.heap[room.players[u]].RoomPlayer())
  }

  /** list holds one entry for each of the players of room g, in some order: what
      the GetGame call answers. */
  predicate Answers(s: Server, g: RoomId, list: seq<Player>)
    requires WellFormed(s) && g in s.rooms
  {
    && |list| == |s.rooms[g].players|
    && (forall p | p in list :: p.userID in Snapshot(s, g).players && Snapshot(s, g).players[p.userID] == p)
    && (forall u | u in Snapshot(s, g).players :: exists i :: 0 <= i < |list| && list[i].userID == u)
  }

  function HostOf(s: Server, g: RoomId): UserId
    requires WellFormed(s) && g in s.rooms
  {
    s.heap[s.rooms[g].host].userID
  }

  function Connected(s: System, r: Ref, us: UserSession, order: seq<UserId>): (s': System)
    requires Consistent(s) && r !in s.srv.heap && Lists(s.srv, order)
    ensures Consistent(s')
  {
    ConnectKeepsWellFormed(s.srv, r, us, order);
    s.(srv := ControlPlane.Connect(s.srv, r, us, order),
       clients := s.clients[r := Client(us.userID, us.profile, [], None, None)],
       live := s.live + {r})
  }

  function Disconnected(s: System, r: Ref, next: UserId): (s': System)
    requires Consistent(s) && r in s.live && MayElect(s.srv, r, next)
    ensures Consistent(s')
  {
    DisconnectKeepsWellFormed(s.srv, r, next);
    s.(srv := ControlPlane.Disconnect(s.srv, r, next), live := s.live - {r})
  }

  function Selected(s: System, c: Ref, g: RoomId): (s': System)
    requires Consistent(s) && c in s.live
    ensures Consistent(s')
  {
    if g !in s.srv.rooms then s
    else s.(clients := s.clients[c := s.clients[c].(lan := Some(Snapshot(s.srv, g)), host := Some(HostOf(s.srv, g)))])
  }

  function WithSelf(c: Client, ip: string): Client {
    match c.lan
    case None => c
    case Some(room) => c.(lan := Some(room.(players := room.players[c.userID := Player(c.userID, c.profile, ip)])))
  }

  function Joined(s: System, c: Ref, g: RoomId, ip: string, now: Time): (s': System)
    requires Consistent(s) && c in s.live
    ensures Consistent(s')
  {
    JoinGameKeepsWellFormed(s.srv, g, s.clients[c].userID, ip, now);
    if g !in s.srv.rooms then s
    else System(JoinGame(s.srv, g, s.clients[c].userID, ip, now),
                s.clients[c := WithSelf(s.clients[c], ip)], s.live, now)
  }

  /** The client's copy has its address as To4 renders it, the request as String does. */
  function Created(s: System, c: Ref, g: RoomId, ip: IP): (s': System)
    requires Consistent(s) && c in s.live
    ensures Consistent(s')
  {
    var me := s.clients[c];
    var lan := NewLanRoom(g, Player(me.userID, me.profile, ip.Text4()));
    CreateKeepsWellFormed(s.srv, me.userID, g, ip.text);
    s.(srv := Create(s.srv, me.userID, g, ip.text).0,
       clients := s.clients[c := me.(lan := Some(lan), host := Some(me.userID))])
  }

  function Reselected(s: System, c: Ref, characterID: int, classType: int): (s': System)
    requires Consistent(s) && c in s.live
    ensures Consistent(s')
  {
    var me := s.clients[c];
    s.(clients := s.clients[c := me.(profile := Profile(me.profile.username, characterID, classType))])
  }

  function Delivered(s: System, c: Ref): (s': System)
    requires Consistent(s) && c in s.live && s.srv.net[c] != []
    ensures Consistent(s')
  {
    var q := s.srv.net[c];
    s.(srv := s.srv.(net := s.srv.net[c := q[1..]]), clients := s.clients[c := Apply(s.clients[c], q[0])])
  }

  function Step(s: System, e: Event): (s': System)
    requires Consistent(s) && Enabled(s, e)
    ensures Consistent(s')
  {
    match e
    case Connect(r, us, order) => Connected(s, r, us, order)
    case Disconnect(r, next) => Disconnected(s, r, next)
    case CreateGame(c, g, ip) => Created(s, c, g, ip)
    case Select(c, g) => Selected(s, c, g)
    case Join(c, g, ip, now) => Joined(s, c, g, ip, now)
    case Enter(c, g, ip, now) => Joined(Selected(s, c, g), c, g, ip, now)
    case Reselect(c, characterID, classType) => Reselected(s, c, characterID, classType)
    case Deliver(c) => Delivered(s, c)
  }

  /** What client r will hold once it has handled everything sent to it. */
  function View(s: System, r: Ref): Client
    requires Consistent(s) && r in s.clients
  {
    Fold(s.clients[r], s.srv.net[r])
  }

  // ----- What a step adds to a client's view -----

  lemma PostedView(c: Client, net: map<Ref, seq<Message>>, targets: set<Ref>, m: Message, r: Ref)
    requires r in net
    ensures Fold(c, Post(net, targets, [m])[r]) ==
            if r in targets then Apply(Fold(c, net[r]), m) else Fold(c, net[r])
  {
    FoldAppend(c, net[r], m);
  }

  /** A connecting user is announced to every registered session. */
  lemma ConnectView(s: System, r: Ref, us: UserSession, order: seq<UserId>, o: Ref)
    requires Consistent(s) && Enabled(s, Connect(r, us, order)) && o in s.srv.heap
    ensures var s' := Step(s, Connect(r, us, order));
            && o in s'.clients
            && View(s', o) == if Registered(s.srv, o) then Apply(View(s, o), JoinLobby(us.ToPlayer())) else View(s, o)
  {
    var s' := Step(s, Connect(r, us, order));
    var net := s.srv.net[r := [LobbyUsers(Roster(s.srv, order) + [us.ToPlayer()])]];
    PostedView(s.clients[o], net, Refs(s'.srv.sessions), JoinLobby(us.ToPlayer()), o);
    assert o in Refs(s'.srv.sessions) <==> Registered(s'.srv, o);
    assert Registered(s'.srv, o) <==> Registered(s.srv, o);
  }

  /** What a connecting client is sent first. */
  function Welcome(s: Server, us: UserSession, order: seq<UserId>): Client
    requires WellFormed(s) && Lists(s, order)
  {
    Client(us.userID, us.profile, Roster(s, order) + [us.ToPlayer()], None, None)
  }

  /** The connecting client starts from the list it is sent; it hears itself announced
      if it is the one registered. */
  lemma NewcomerView(s: System, r: Ref, us: UserSession, order: seq<UserId>)
    requires Consistent(s) && Enabled(s, Connect(r, us, order))
    ensures var v := Welcome(s.srv, us, order);
            View(Step(s, Connect(r, us, order)), r) ==
            if us.userID in s.srv.sessions then v else Apply(v, JoinLobby(us.ToPlayer()))
  {
    var s' := Step(s, Connect(r, us, order));
    var hello := LobbyUsers(Roster(s.srv, order) + [us.ToPlayer()]);
    FoldOne(s'.clients[r], hello);
    if us.userID in s.srv.sessions {
      assert r !in Refs(s'.srv.sessions);
    } else {
      assert s'.srv.sessions[us.userID] == r;
      assert r in Refs(s'.srv.sessions);
    }
    PostedView(s'.clients[r], s.srv.net[r := [hello]], Refs(s'.srv.sessions), JoinLobby(us.ToPlayer()), r);
  }

  /** The part of a room's news that a remaining player receives. */
  function AfterLeave(s: Server, x: Ref, next: UserId, v: Client): Client
    requires WellFormed(s) && x in s.heap && MayElect(s, x, next)
    requires s.heap[x].gameID in s.rooms && Remaining(s, x).Keys != {}
  {
    var left := Apply(v, LeaveRoom(s.heap[x].RoomPlayer()));
    if WasHost(s, x) then Apply(left, HostMigration(s.heap[Remaining(s, x)[next]].RoomPlayer())) else left
  }

  lemma LeaveView(s: Server, x: Ref, next: UserId, c: Client, o: Ref)
    requires WellFormed(s) && x in s.heap && MayElect(s, x, next) && o in s.heap
    ensures var s' := ControlPlane.Leave(s, x, next);
            Fold(c, s'.net[o]) == if Member(s', o, s.heap[x].gameID) then AfterLeave(s, x, next, Fold(c, s.net[o]))
                                  else Fold(c, s.net[o])
  {
    if s.heap[x].gameID in s.rooms && o in Refs(Remaining(s, x)) {
      var left := LeaveRoom(s.heap[x].RoomPlayer());
      if WasHost(s, x) {
        var host := HostMigration(s.heap[Remaining(s, x)[next]].RoomPlayer());
        FoldAppendTwo(c, s.net[o], left, host);
        assert [left] + [host] == [left, host];
      } else {
        FoldAppend(c, s.net[o], left);
        assert [left] + [] == [left];
      }
    }
  }

  lemma DisconnectView(s: System, x: Ref, next: UserId, o: Ref)
    requires Consistent(s) && Enabled(s, Disconnect(x, next)) && o in s.srv.heap
    ensures var s' := Step(s, Disconnect(x, next));
            var left := Member(s'.srv, o, s.srv.heap[x].gameID);
            var v := if left then AfterLeave(s.srv, x, next, View(s, o)) else View(s, o);
            View(s', o) == if Registered(s'.srv, o) then Apply(v, LeaveLobby(s.srv.heap[x].ToPlayer())) else v
  {
    var left := ControlPlane.Leave(s.srv, x, next);
    var sessions := left.sessions - {s.srv.heap[x].userID};
    LeaveView(s.srv, x, next, s.clients[o], o);
    PostedView(s.clients[o], left.net, Refs(sessions), LeaveLobby(s.srv.heap[x].ToPlayer()), o);
  }

  /** A successful join is announced to the players already in the room. */
  lemma JoinView(s: Server, g: RoomId, u: UserId, ip: string, now: Time, c: Client, o: Ref)
    requires WellFormed(s) && o in s.heap
    ensures var s' := JoinGame(s, g, u, ip, now);
            Fold(c, s'.net[o]) ==
            if u in s.sessions && g in s.rooms && u !in s.rooms[g].players && Member(s, o, g)
            then Apply(Fold(c, s.net[o]), JoinRoom(s'.heap[s.sessions[u]].RoomPlayer()))
            else Fold(c, s.net[o])
  {
    var (s1, res) := ControlPlane.Join(s, g, u, ip, now);
    if res.Ok? {
      assert (res.value.players - {u}) == s.rooms[g].players;
      PostedView(c, s1.net, Refs(s.rooms[g].players), JoinRoom(s1.heap[s.sessions[u]].RoomPlayer()), o);
    }
  }

  lemma DeliverView(s: System, c: Ref, o: Ref)
    requires Consistent(s) && Enabled(s, Deliver(c)) && o in s.srv.heap
    ensures View(Step(s, Deliver(c)), o) == View(s, o)
  {
    FoldHead(s.clients[c], s.srv.net[c]);
  }

  /** Another character changes nothing that the client has learnt. */
  lemma ReselectView(s: System, c: Ref, characterID: int, classType: int, o: Ref)
    requires Consistent(s) && c in s.live && o in s.srv.heap
    ensures var v, v' := View(s, o), View(Reselected(s, c, characterID, classType), o);
            v'.lobby == v.lobby && v'.lan == v.lan && v'.host == v.host
  {
    FoldIndependent(s.clients[o], Reselected(s, c, characterID, classType).clients[o], s.srv.net[o]);
  }
}
