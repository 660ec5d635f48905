/** The console control plane (internal/console/multiplayer.go) as a state and
    the effect of each operation on it. Class Multiplayer implements these
    operations statement by statement and is proved to have these effects. */
module ControlPlane {
  import opened Wire

  /** A session object (internal/console/session.go). The connection names the user
      whose session it is, and the hello message names a user once more; nothing
      compares the two. */
  datatype UserSession = UserSession(
    userID: UserId, helloID: UserId, gameID: RoomId, joinedAt: Time, ipAddress: string, profile: Profile)
  {
    /** The player record sent on lobby events: it carries the hello's user id, and
        no address. */
    function ToPlayer(): Player { Player(helloID, profile, "") }

    /** The hello names the user whose session it is. */
    predicate TrueName() { helloID == userID }

    /** The player record sent on room events. */
    function RoomPlayer(): Player { Player(userID, profile, ipAddress) }
  }

  datatype GameRoom = GameRoom(id: RoomId, host: Ref, createdBy: Ref, players: map<UserId, Ref>)

  datatype Error = SessionNotFound | RoomNotFound | RoomExists | AlreadyJoined

  /** The server: every session object ever allocated, the registered ones, the
      rooms, and the messages written to each connection and not yet handled. */
  datatype Server = Server(
    heap: map<Ref, UserSession>,
    sessions: map<UserId, Ref>,
    rooms: map<RoomId, GameRoom>,
    net: map<Ref, seq<Message>>)

  const NOBODY := Server(map[], map[], map[], map[])

  // ----- Well-formedness -----

  /** Every session in the table is an allocated object, kept under its user id. */
  predicate Keyed(heap: map<Ref, UserSession>, table: map<UserId, Ref>) {
    forall u | u in table :: table[u] in heap && heap[table[u]].userID == u
  }

  predicate RoomWellFormed(heap: map<Ref, UserSession>, g: RoomId, room: GameRoom) {
    && room.id == g
    && room.players.Keys != {}
    && Keyed(heap, room.players)
    && room.host in heap
    && heap[room.host].userID in room.players
    && room.players[heap[room.host].userID] == room.host
  }

  predicate WellFormed(s: Server) {
    && s.net.Keys == s.heap.Keys
    && Keyed(s.heap, s.sessions)
    && forall g | g in s.rooms :: RoomWellFormed(s.heap, g, s.rooms[g])
  }

  /** Session object r is a player of room g. */
  predicate Member(s: Server, r: Ref, g: RoomId) {
    && r in s.heap && g in s.rooms
    && s.heap[r].userID in s.rooms[g].players
    && s.rooms[g].players[s.heap[r].userID] == r
  }

  /** Session object r is the one registered for its user. */
  predicate Registered(s: Server, r: Ref) {
    && r in s.heap && s.heap[r].userID in s.sessions
    && s.sessions[s.heap[r].userID] == r
  }

  /** The session objects held by a table. */
  function Refs(table: map<UserId, Ref>): set<Ref> {
    set u | u in table :: table[u]
  }

  function PlayersOf(s: Server, g: RoomId): set<UserId> {
    if g in s.rooms then s.rooms[g].players.Keys else {}
  }

  // ----- Sending -----

  /** Append the messages, in order, to the connection of every target. */
  function Post(net: map<Ref, seq<Message>>, targets: set<Ref>, ms: seq<Message>): map<Ref, seq<Message>> {
    map r | r in net :: if r in targets then net[r] + ms else net[r]
  }

  // ----- Operations -----

  function Create(s: Server, u: UserId, g: RoomId, ip: string): (Server, Result<GameRoom, Error>)
    requires WellFormed(s)
  {
    if u !in s.sessions then (s, Err(SessionNotFound))
    else if g in s.rooms then (s, Err(RoomExists))
    else
      var r := s.sessions[u];
      var room := GameRoom(g, r, r, map[u := r]);
      (s.(heap := s.heap[r := s.heap[r].(gameID := g, ipAddress := ip)], rooms := s.rooms[g := room]), Ok(room))
  }

  function Join(s: Server, g: RoomId, u: UserId, ip: string, now: Time): (Server, Result<GameRoom, Error>)
    requires WellFormed(s)
  {
    if u !in s.sessions then (s, Err(SessionNotFound))
    else if g !in s.rooms then (s, Err(RoomNotFound))
    else if u in s.rooms[g].players then (s, Err(AlreadyJoined))
    else
      var r := s.sessions[u];
      var room := s.rooms[g].(players := s.rooms[g].players[u := r]);
      (s.(heap := s.heap[r := s.heap[r].(gameID := g, joinedAt := now, ipAddress := ip)],
          rooms := s.rooms[g := room]), Ok(room))
  }

  /** Tell every other player of the room that u has joined. */
  function Announce(s: Server, room: GameRoom, u: UserId): Server
    requires WellFormed(s)
  {
    if u !in s.sessions then s
    else s.(net := Post(s.net, Refs(room.players - {u}), [JoinRoom(s.heap[s.sessions[u]].RoomPlayer())]))
  }

  /** JoinGame: join and, on success, announce. */
  function JoinGame(s: Server, g: RoomId, u: UserId, ip: string, now: Time): Server
    requires WellFormed(s)
  {
    var (s', res) := Join(s, g, u, ip, now);
    if res.Ok? then JoinKeepsWellFormed(s, g, u, ip, now); Announce(s', res.value, u) else s'
  }

  /** u is a player with the earliest stamp: a possible result of the scan over
      the players, whatever order the map is walked in. */
  predicate Earliest(heap: map<Ref, UserSession>, players: map<UserId, Ref>, u: UserId)
    requires Keyed(heap, players)
  {
    u in players && forall v | v in players :: heap[players[u]].joinedAt <= heap[players[v]].joinedAt
  }

  function Remaining(s: Server, r: Ref): map<UserId, Ref>
    requires r in s.heap && s.heap[r].gameID in s.rooms
  {
    s.rooms[s.heap[r].gameID].players - {s.heap[r].userID}
  }

  predicate WasHost(s: Server, r: Ref)
    requires WellFormed(s) && r in s.heap && s.heap[r].gameID in s.rooms
  {
    s.heap[s.rooms[s.heap[r].gameID].host].userID == s.heap[r].userID
  }

  /** next is a host the election may pick when session object r leaves. */
  predicate MayElect(s: Server, r: Ref, next: UserId)
    requires WellFormed(s) && r in s.heap
  {
    s.heap[r].gameID in s.rooms && WasHost(s, r) && Remaining(s, r).Keys != {} ==>
      Earliest(s.heap, Remaining(s, r), next)
  }

  function Leave(s: Server, r: Ref, next: UserId): Server
    requires WellFormed(s) && r in s.heap && MayElect(s, r, next)
  {
    var us := s.heap[r];
    if us.gameID !in s.rooms then s
    else
      var room := s.rooms[us.gameID];
      var players := Remaining(s, r);
      if players.Keys == {} then s.(rooms := s.rooms - {room.id})
      else
        var host := if WasHost(s, r) then players[next] else room.host;
        var news := if WasHost(s, r) then [HostMigration(s.heap[host].RoomPlayer())] else [];
        s.(rooms := s.rooms[us.gameID := room.(players := players, host := host)],
           net := Post(s.net, Refs(players), [LeaveRoom(us.RoomPlayer())] + news))
  }

  /** order lists every registered user once: one way of walking the sessions map. */
  predicate Lists(s: Server, order: seq<UserId>) {
    && (forall i | 0 <= i < |order| :: order[i] in s.sessions)
    && (forall i, j | 0 <= i < j < |order| :: order[i] != order[j])
    && (forall u | u in s.sessions :: u in order)
  }

  function SessionOf(s: Server, u: UserId): UserSession
    requires WellFormed(s) && u in s.sessions
  {
    s.heap[s.sessions[u]]
  }

  function Roster(s: Server, order: seq<UserId>): (players: seq<Player>)
    requires WellFormed(s) && Lists(s, order)
  {
    seq(|order|, i requires 0 <= i < |order| && order[i] in s.sessions => SessionOf(s, order[i]).ToPlayer())
  }

  /** Allocate a session object and announce it (SetPlayerConnected). `order` is
      the order in which the walk over the sessions lists them. */
  function Connect(s: Server, r: Ref, us: UserSession, order: seq<UserId>): Server
    requires WellFormed(s) && r !in s.heap
    requires Lists(s, order)
  {
    var u := us.userID;
    var listed := Roster(s, order);
    var sessions := if u in s.sessions then s.sessions else s.sessions[u := r];
    s.(heap := s.heap[r := us],
       sessions := sessions,
       net := Post(s.net[r := [LobbyUsers(listed + [us.ToPlayer()])]], Refs(sessions), [JoinLobby(us.ToPlayer())]))
  }

  /** Leave the room, unregister the user, tell the others (SetPlayerDisconnected). */
  function Disconnect(s: Server, r: Ref, next: UserId): Server
    requires WellFormed(s) && r in s.heap && MayElect(s, r, next)
  {
    var left := Leave(s, r, next);
    var sessions := left.sessions - {s.heap[r].userID};
    left.(sessions := sessions, net := Post(left.net, Refs(sessions), [LeaveLobby(s.heap[r].ToPlayer())]))
  }

  // ----- Every operation keeps the tables well-formed -----

  lemma CreateKeepsWellFormed(s: Server, u: UserId, g: RoomId, ip: string)
    requires WellFormed(s)
    ensures WellFormed(Create(s, u, g, ip).0)
  {
    var s' := Create(s, u, g, ip).0;
    forall h | h in s'.rooms ensures RoomWellFormed(s'.heap, h, s'.rooms[h]) {
      if h in s.rooms { assert RoomWellFormed(s.heap, h, s.rooms[h]); } else { assert u in s'.rooms[h].players.Keys; }
    }
  }

  lemma JoinKeepsWellFormed(s: Server, g: RoomId, u: UserId, ip: string, now: Time)
    requires WellFormed(s)
    ensures WellFormed(Join(s, g, u, ip, now).0)
  {
    var s' := Join(s, g, u, ip, now).0;
    forall h | h in s'.rooms ensures RoomWellFormed(s'.heap, h, s'.rooms[h]) {
      assert RoomWellFormed(s.heap, h, s.rooms[h]);
    }
  }

  lemma LeaveKeepsWellFormed(s: Server, r: Ref, next: UserId)
    requires WellFormed(s) && r in s.heap && MayElect(s, r, next)
    ensures WellFormed(Leave(s, r, next))
  {
    var s' := Leave(s, r, next);
    forall h | h in s'.rooms ensures RoomWellFormed(s'.heap, h, s'.rooms[h]) {
      assert RoomWellFormed(s.heap, h, s.rooms[h]);
    }
  }

  lemma ConnectKeepsWellFormed(s: Server, r: Ref, us: UserSession, order: seq<UserId>)
    requires WellFormed(s) && r !in s.heap && Lists(s, order)
    ensures WellFormed(Connect(s, r, us, order))
  {
    var s' := Connect(s, r, us, order);
    forall h | h in s'.rooms ensures RoomWellFormed(s'.heap, h, s'.rooms[h]) {
      assert RoomWellFormed(s.heap, h, s.rooms[h]);
    }
  }

  lemma DisconnectKeepsWellFormed(s: Server, r: Ref, next: UserId)
    requires WellFormed(s) && r in s.heap && MayElect(s, r, next)
    ensures WellFormed(Disconnect(s, r, next))
  {
    LeaveKeepsWellFormed(s, r, next);
    var s', left := Disconnect(s, r, next), Leave(s, r, next);
    forall h | h in s'.rooms ensures RoomWellFormed(s'.heap, h, s'.rooms[h]) {
      assert RoomWellFormed(left.heap, h, left.rooms[h]);
    }
  }

  lemma JoinGameKeepsWellFormed(s: Server, g: RoomId, u: UserId, ip: string, now: Time)
    requires WellFormed(s)
    ensures var s' := JoinGame(s, g, u, ip, now);
            && WellFormed(s') && s'.heap.Keys == s.heap.Keys
            && forall r | r in s.heap :: s'.heap[r].userID == s.heap[r].userID
  {
    JoinKeepsWellFormed(s, g, u, ip, now);
    var s1, s' := Join(s, g, u, ip, now).0, JoinGame(s, g, u, ip, now);
    assert s'.net.Keys == s1.net.Keys;
    forall h | h in s'.rooms ensures RoomWellFormed(s'.heap, h, s'.rooms[h]) {
      assert RoomWellFormed(s1.heap, h, s1.rooms[h]);
    }
  }

  lemma LeaveTables(s: Server, r: Ref, next: UserId)
    requires WellFormed(s) && r in s.heap && MayElect(s, r, next)
    ensures Leave(s, r, next).heap == s.heap && Leave(s, r, next).sessions == s.sessions
  {
  }
}
