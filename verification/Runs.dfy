/** Runs of the protocol. A discipline says which steps a run may take; each
    theorem about runs names the weakest one it needs. */
module Runs {
  import opened Wire
  import opened ControlPlane
  import opened Replicas
  import opened Protocol

  datatype Discipline =
    /** Anything goes: double logins, stale sessions, membership of many rooms. */
    | Unrestricted
    /** Hellos name the users whose sessions they open, as far as it shows. */
    | TrueNames
    /** Hellos do so always, and nobody connects as a user who is registered, unless
        that user is the only one. */
    | OneLogin
    /** Client r, a relay player, is entered in a room only from outside any, with that
        room's host noted, and while it is in a room notes no other host. */
    | RelayPlayer(r: Ref)
    /** The same for every client. */
    | RelayPlayers
    /** Client r, a LAN player, is entered in a room only from outside any, with that
        room copied, however long ago, and while it is in a room copies no other; and
        nobody deserts the room it looks at under another name. */
    | LanPlayer(r: Ref)
    /** Users log in once under their own names; they create and enter rooms from
        outside any, with the character they announced, and select and join in one
        step with no departure from the room left to read; and while in a room they
        select it again or retry the join as they are listed, or leave it alone. */
    | Orderly
    /** The clock does not run backwards, and no join that succeeds re-stamps a host
        below another member of the room it hosts. */
    | Clocked

  /** Session object r is in no room. */
  predicate Roomless(s: Server, r: Ref) {
    forall g | g in s.rooms :: !Member(s, r, g)
  }

  /** A request by client c acts on session object r. */
  predicate ActsOn(s: System, c: Ref, r: Ref)
    requires Consistent(s) && c in s.live
  {
    s.clients[c].userID in s.srv.sessions && s.srv.sessions[s.clients[c].userID] == r
  }

  /** Client c's request makes session object r the host of a new room g. */
  predicate CreatesAs(s: System, c: Ref, g: RoomId, r: Ref)
    requires Consistent(s) && c in s.live
  {
    ActsOn(s, c, r) && g !in s.srv.rooms
  }

  /** Client c's request enters session object r in room g. */
  predicate JoinsAs(s: System, c: Ref, g: RoomId, r: Ref)
    requires Consistent(s) && c in s.live
  {
    ActsOn(s, c, r) && g in s.srv.rooms && s.clients[c].userID !in s.srv.rooms[g].players
  }

  /** Client r may note a host: it is that of the room r is in, if r is in one, or else
      a migration that r has yet to read will put it right. */
  predicate MayNote(s: System, r: Ref, host: UserId)
    requires Consistent(s) && r in s.srv.heap
  {
    forall g | g in s.srv.rooms && Member(s.srv, r, g) ::
      HostOf(s.srv, g) == host || exists m :: m in s.srv.net[r] && m.HostMigration?
  }

  /** Client r has noted the host of room g. */
  predicate HasNoted(s: System, r: Ref, g: RoomId)
    requires Consistent(s) && r in s.srv.heap && g in s.srv.rooms
  {
    s.clients[r].host == Some(HostOf(s.srv, g))
  }

  predicate RelayAllows(r: Ref, s: System, e: Event)
    requires Consistent(s) && Enabled(s, e)
  {
    match e
    case Select(c, g) => c == r && g in s.srv.rooms ==> MayNote(s, r, HostOf(s.srv, g))
    case CreateGame(c, g, ip) =>
      && (c == r ==> MayNote(s, r, s.clients[r].userID))
      && (CreatesAs(s, c, g, r) ==>
            Roomless(s.srv, r) && (c == r || s.clients[r].host == Some(s.clients[c].userID)))
    case Enter(c, g, ip, now) =>
      && (c == r && g in s.srv.rooms ==> MayNote(s, r, HostOf(s.srv, g)))
      && (JoinsAs(s, c, g, r) ==> Roomless(s.srv, r) && (c == r || HasNoted(s, r, g)))
    case Join(c, g, ip, now) => JoinsAs(s, c, g, r) ==> Roomless(s.srv, r) && HasNoted(s, r, g)
    case _ => true
  }

  /** Client r may copy room g: it is the one r is in, if r is in one. */
  predicate MayCopy(s: System, r: Ref, g: RoomId)
    requires Consistent(s)
  {
    forall h | h in s.srv.rooms && Member(s.srv, r, h) :: h == g
  }

  predicate HasCopy(s: System, r: Ref, g: RoomId)
    requires Consistent(s) && r in s.srv.heap
  {
    s.clients[r].lan.Some? && s.clients[r].lan.value.id == g
  }

  /** Session x leaves a room that client r is looking at from outside, and the lobby
      under a name that is not its own. */
  predicate Deserts(s: System, x: Ref, r: Ref)
    requires Consistent(s) && x in s.srv.heap
  {
    && Registered(s.srv, r) && Roomless(s.srv, r) && s.srv.heap[r].userID != s.srv.heap[x].userID
    && !s.srv.heap[x].TrueName()
    && var lan := View(s, r).lan;
       lan.Some? && lan.value.id == s.srv.heap[x].gameID && s.srv.heap[x].userID in lan.value.players
  }

  predicate LanAllows(r: Ref, s: System, e: Event)
    requires Consistent(s) && Enabled(s, e)
  {
    match e
    case Disconnect(x, next) => !Deserts(s, x, r)
    case Select(c, g) => c == r && g in s.srv.rooms ==> MayCopy(s, r, g)
    case CreateGame(c, g, ip) =>
      && (c == r ==> MayCopy(s, r, g))
      && (CreatesAs(s, c, g, r) ==> Roomless(s.srv, r) && (c == r || HasCopy(s, r, g)))
    case Enter(c, g, ip, now) =>
      && (c == r && g in s.srv.rooms ==> MayCopy(s, r, g))
      && (JoinsAs(s, c, g, r) ==> Roomless(s.srv, r) && (c == r || HasCopy(s, r, g)))
    case Join(c, g, ip, now) => JoinsAs(s, c, g, r) ==> Roomless(s.srv, r) && HasCopy(s, r, g)
    case _ => true
  }

  /** The character the player has selected is the one the server was told of. */
  predicate AsAnnounced(s: System, c: Ref)
    requires Consistent(s) && c in s.live
  {
    s.clients[c].profile == s.srv.heap[c].profile
  }

  /** Client c would enter itself with the record the server has of it. */
  predicate AsListed(s: System, c: Ref, ip: string)
    requires Consistent(s) && c in s.live
  {
    AsAnnounced(s, c) && s.srv.heap[c].ipAddress == ip
  }

  /** Client c has no departure of a player of room g to read. */
  predicate NoNewsOf(s: System, c: Ref, g: RoomId)
    requires Consistent(s) && c in s.live && g in s.srv.rooms
  {
    forall m | m in s.srv.net[c] && m.LeaveLobby? :: m.player.userID !in s.srv.rooms[g].players
  }

  /** A connection may be made: its hello names its user, or else the connection is
      not registered and the hello names someone who is. */
  predicate MayConnect(s: Server, us: UserSession) {
    us.TrueName() || (us.userID in s.sessions && us.helloID in s.sessions)
  }

  /** A connection may end: its hello named its user, or else nobody is left to be
      misled, or neither of the two users is registered. */
  predicate MayPart(s: Server, x: Ref)
    requires x in s.heap
  {
    var us := s.heap[x];
    us.TrueName() || s.sessions.Keys <= {us.userID} || (us.userID !in s.sessions && us.helloID !in s.sessions)
  }

  /** A connection under its user's own name, who is not registered or is alone. */
  predicate MayLogIn(s: Server, us: UserSession) {
    us.TrueName() && (us.userID in s.sessions ==> s.sessions.Keys == {us.userID})
  }

  predicate TrueNamesAllow(s: System, e: Event)
    requires Consistent(s) && Enabled(s, e)
  {
    match e
    case Connect(r, us, order) => MayConnect(s.srv, us)
    case Disconnect(x, next) => MayPart(s.srv, x)
    case _ => true
  }

  predicate OrderlyAllows(s: System, e: Event)
    requires Consistent(s) && Enabled(s, e)
  {
    match e
    case Connect(r, us, order) => us.TrueName() && forall o | o in s.live :: s.srv.heap[o].userID != us.userID
    case Select(c, g) => g in s.srv.rooms ==> MayCopy(s, c, g)
    case CreateGame(c, g, ip) =>
      Roomless(s.srv, c) && (g !in s.srv.rooms ==> AsAnnounced(s, c) && ip.Plain())
    case Enter(c, g, ip, now) =>
      g in s.srv.rooms ==>
        if Member(s.srv, c, g) then AsListed(s, c, ip)
        else Roomless(s.srv, c) && AsAnnounced(s, c) && NoNewsOf(s, c, g)
    case Join(c, g, ip, now) => g in s.srv.rooms ==> Member(s.srv, c, g) && AsListed(s, c, ip)
    case _ => true
  }

  /** Stamping session object r with `now` leaves no room it hosts with a member
      of an earlier stamp. */
  predicate MayStamp(s: Server, r: Ref, now: Time)
    requires WellFormed(s)
  {
    forall g | g in s.rooms && s.rooms[g].host == r ::
      forall u | u in s.rooms[g].players && s.rooms[g].players[u] != r ::
        now <= s.heap[s.rooms[g].players[u]].joinedAt
  }

  predicate ClockedAllows(s: System, e: Event)
    requires Consistent(s) && Enabled(s, e)
  {
    e.Join? || e.Enter? ==>
      && s.clock <= e.now
      && (s.clients[e.c].userID in s.srv.sessions && JoinsAs(s, e.c, e.g, s.srv.sessions[s.clients[e.c].userID]) ==>
            MayStamp(s.srv, s.srv.sessions[s.clients[e.c].userID], e.now))
  }

  predicate Allows(d: Discipline, s: System, e: Event)
    requires Consistent(s) && Enabled(s, e)
  {
    match d
    case Unrestricted => true
    case TrueNames => TrueNamesAllow(s, e)
    case OneLogin => e.Connect? ==> MayLogIn(s.srv, e.us)
    case RelayPlayer(r) => RelayAllows(r, s, e)
    case RelayPlayers => forall r | r in s.srv.heap :: RelayAllows(r, s, e)
    case LanPlayer(r) => LanAllows(r, s, e)
    case Orderly => OrderlyAllows(s, e)
    case Clocked => ClockedAllows(s, e)
  }

  predicate Run(d: Discipline, s: System, es: seq<Event>)
    requires Consistent(s)
    decreases |es|
  {
    es == [] || (Enabled(s, es[0]) && Allows(d, s, es[0]) && Run(d, Step(s, es[0]), es[1..]))
  }

  function After(d: Discipline, s: System, es: seq<Event>): (s': System)
    requires Consistent(s) && Run(d, s, es)
    ensures Consistent(s')
    decreases |es|
  {
    if es == [] then s else After(d, Step(s, es[0]), es[1..])
  }
}
