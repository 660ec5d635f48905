/** What each of the console's operations does to every room, session record and inbox,
    with the records it sends written out. */
module Operations {
  import opened Wire
  import opened ControlPlane

  /** Nothing but the record of session object r has changed, and of it only the room,
      the stamp and the address. */
  predicate OnlyReseated(s: Server, s': Server, r: Ref, g: RoomId, stamp: Time, ip: string)
    requires r in s.heap
  {
    && s'.sessions == s.sessions && s'.heap.Keys == s.heap.Keys
    && (forall o | o in s.heap && o != r :: s'.heap[o] == s.heap[o])
    && s'.heap[r].userID == s.heap[r].userID && s'.heap[r].helloID == s.heap[r].helloID
    && s'.heap[r].profile == s.heap[r].profile
    && s'.heap[r].gameID == g && s'.heap[r].joinedAt == stamp && s'.heap[r].ipAddress == ip
  }

  /** A room is created exactly for a registered user under a new id. The user's session
      is its host, its creator and its only player, and keeps its stamp; nobody is told. */
  lemma CreateExactly(s: Server, u: UserId, g: RoomId, ip: string)
    requires WellFormed(s)
    ensures var (s', res) := Create(s, u, g, ip);
            && (res == Err(SessionNotFound) <==> u !in s.sessions)
            && (res == Err(RoomExists) <==> u in s.sessions && g in s.rooms)
            && (res.Ok? <==> u in s.sessions && g !in s.rooms)
            && (res.Err? ==> s' == s)
            && (res.Ok? ==>
                  var r := s.sessions[u];
                  && OnlyReseated(s, s', r, g, s.heap[r].joinedAt, ip)
                  && s'.rooms.Keys == s.rooms.Keys + {g} && (forall h | h in s.rooms :: s'.rooms[h] == s.rooms[h])
                  && s'.rooms[g] == res.value && res.value.id == g
                  && res.value.host == res.value.createdBy == r
                  && res.value.players == map[u := r]
                  && s'.net == s.net)
  {
  }

  /** A user joins exactly if registered, the room is there and does not have the user;
      failures are told apart in that order. */
  lemma JoinFailsExactly(s: Server, g: RoomId, u: UserId, ip: string, now: Time)
    requires WellFormed(s)
    ensures var (s', res) := Join(s, g, u, ip, now);
            && (res == Err(SessionNotFound) <==> u !in s.sessions)
            && (res == Err(RoomNotFound) <==> u in s.sessions && g !in s.rooms)
            && (res == Err(AlreadyJoined) <==> u in s.sessions && g in s.rooms && u in s.rooms[g].players)
            && (res.Ok? <==> u in s.sessions && g in s.rooms && u !in s.rooms[g].players)
            && (res.Ok? ==> g in s'.rooms && s'.rooms[g] == res.value)
            && (res.Err? ==> s' == s && JoinGame(s, g, u, ip, now) == s)
  {
  }

  /** What a join that succeeds does to the rooms and the records: the joiner is stamped
      and entered, and the room's host and other players stay. */
  lemma JoinSeats(s: Server, g: RoomId, u: UserId, ip: string, now: Time)
    requires WellFormed(s) && u in s.sessions && g in s.rooms && u !in s.rooms[g].players
    ensures var s', r := JoinGame(s, g, u, ip, now), s.sessions[u];
            && OnlyReseated(s, s', r, g, now, ip)
            && s'.rooms.Keys == s.rooms.Keys && (forall h | h in s.rooms && h != g :: s'.rooms[h] == s.rooms[h])
            && s'.rooms[g].id == g && s'.rooms[g].host == s.rooms[g].host
            && s'.rooms[g].createdBy == s.rooms[g].createdBy
            && s'.rooms[g].players.Keys == s.rooms[g].players.Keys + {u}
            && s'.rooms[g].players[u] == r
            && forall v | v in s.rooms[g].players :: s'.rooms[g].players[v] == s.rooms[g].players[v]
  {
  }

  /** Each player already in the room is sent the joiner's record, once, and nobody else
      is sent anything. */
  lemma JoinTells(s: Server, g: RoomId, u: UserId, ip: string, now: Time, o: Ref)
    requires WellFormed(s) && u in s.sessions && g in s.rooms && u !in s.rooms[g].players && o in s.heap
    ensures var joiner := Player(u, SessionOf(s, u).profile, ip);
            JoinGame(s, g, u, ip, now).net[o] == s.net[o] + if Member(s, o, g) then [JoinRoom(joiner)] else []
  {
    var room := Join(s, g, u, ip, now).1.value;
    assert room.players - {u} == s.rooms[g].players;
    assert o in Refs(s.rooms[g].players) <==> Member(s, o, g);
    assert s.net[o] + [] == s.net[o];
  }

  /** What a leave does to the rooms: the room that the session names loses the user, and
      goes if it has nobody else. If the user hosted it, the chosen player is its host
      from now on. Other rooms, records and registrations stay. */
  lemma LeaveUnseats(s: Server, r: Ref, next: UserId)
    requires WellFormed(s) && r in s.heap && MayElect(s, r, next)
    ensures var s', u, g := Leave(s, r, next), s.heap[r].userID, s.heap[r].gameID;
            && s'.heap == s.heap && s'.sessions == s.sessions
            && (forall h :: h in s'.rooms <==> h in s.rooms && !(h == g && s.rooms[h].players.Keys <= {u}))
            && (forall h | h in s'.rooms && h != g :: s'.rooms[h] == s.rooms[h])
            && (g in s'.rooms ==>
                  var room, room' := s.rooms[g], s'.rooms[g];
                  && room'.id == g && room'.createdBy == room.createdBy
                  && room'.players.Keys == room.players.Keys - {u}
                  && (forall v | v in room'.players :: room'.players[v] == room.players[v])
                  && (s.heap[room.host].userID != u ==> room'.host == room.host)
                  && (s.heap[room.host].userID == u ==>
                        && next in room'.players && room'.host == room'.players[next]
                        && forall v | v in room'.players ::
                             s.heap[room'.host].joinedAt <= s.heap[room'.players[v]].joinedAt))
  {
    var g := s.heap[r].gameID;
    if g in s.rooms { assert Remaining(s, r).Keys == s.rooms[g].players.Keys - {s.heap[r].userID}; }
  }

  /** Each player left in the room is sent the leaver's record and then, if the leaver
      hosted it, the new host's; nobody else is sent anything. */
  lemma LeaveTells(s: Server, r: Ref, next: UserId, o: Ref)
    requires WellFormed(s) && r in s.heap && MayElect(s, r, next) && o in s.heap
    ensures WellFormed(Leave(s, r, next))
    ensures var s', us := Leave(s, r, next), s.heap[r];
            if !Member(s', o, us.gameID) then s'.net[o] == s.net[o]
            else
              var host := s.heap[s'.rooms[us.gameID].host];
              var left := LeaveRoom(Player(us.userID, us.profile, us.ipAddress));
              var elected := HostMigration(Player(host.userID, host.profile, host.ipAddress));
              s'.net[o] == s.net[o] +
                if s.heap[s.rooms[us.gameID].host].userID == us.userID then [left, elected] else [left]
  {
    LeaveKeepsWellFormed(s, r, next);
    var s', us, g := Leave(s, r, next), s.heap[r], s.heap[r].gameID;
    assert s.net[o] + [] == s.net[o];
    if g in s.rooms && Remaining(s, r).Keys != {} {
      assert o in Refs(Remaining(s, r)) <==> Member(s', o, g);
      var host, left := s.heap[s'.rooms[g].host], LeaveRoom(Player(us.userID, us.profile, us.ipAddress));
      var elected := HostMigration(Player(host.userID, host.profile, host.ipAddress));
      assert [left] + [] == [left] && [left] + [elected] == [left, elected];
    }
  }

  /** The records by which the users of the walk are known in the lobby: the user that the
      hello named, the character that the session came with, and no address. */
  predicate Listed(s: Server, order: seq<UserId>, players: seq<Player>)
    requires WellFormed(s) && Lists(s, order)
  {
    && |players| == |order|
    && forall i | 0 <= i < |order| ::
         players[i] == Player(SessionOf(s, order[i]).helloID, SessionOf(s, order[i]).profile, "")
  }

  /** A newcomer is sent the record of every registered user, in some order, and its own;
      and everybody registered afterwards is sent the newcomer's, once. The newcomer is
      registered unless its user is. */
  lemma ConnectExactly(s: Server, r: Ref, us: UserSession, order: seq<UserId>, listed: seq<Player>)
    requires WellFormed(s) && r !in s.heap && Lists(s, order) && Listed(s, order, listed)
    ensures var s', me := Connect(s, r, us, order), Player(us.helloID, us.profile, "");
            && s'.heap == s.heap[r := us] && s'.rooms == s.rooms
            && s'.sessions == (if us.userID in s.sessions then s.sessions else s.sessions[us.userID := r])
            && s'.net[r] == [LobbyUsers(listed + [me])] + (if us.userID in s.sessions then [] else [JoinLobby(me)])
            && (forall o | o in s.heap :: s'.net[o] == s.net[o] + if Registered(s, o) then [JoinLobby(me)] else [])
  {
    var s', me := Connect(s, r, us, order), Player(us.helloID, us.profile, "");
    var hello := LobbyUsers(listed + [me]);
    assert listed == Roster(s, order);
    assert r in Refs(s'.sessions) <==> us.userID !in s.sessions by {
      if us.userID !in s.sessions { assert s'.sessions[us.userID] == r; }
    }
    assert [hello] + [] == [hello];
    forall o | o in s.heap ensures s'.net[o] == s.net[o] + if Registered(s, o) then [JoinLobby(me)] else [] {
      assert o in Refs(s'.sessions) <==> Registered(s, o) by {
        if Registered(s, o) { assert s'.sessions[s.heap[o].userID] == o; }
      }
      assert s.net[o] + [] == s.net[o];
    }
  }

  /** A departure is a leave; then the user's registration goes, and everybody still
      registered is sent the departed's record, once. */
  lemma DisconnectExactly(s: Server, r: Ref, next: UserId, o: Ref)
    requires WellFormed(s) && r in s.heap && MayElect(s, r, next) && o in s.heap
    ensures var s', left := Disconnect(s, r, next), Leave(s, r, next);
            && s'.heap == s.heap && s'.rooms == left.rooms && s'.sessions == s.sessions - {s.heap[r].userID}
            && s'.net[o] == left.net[o] +
                 if Registered(s', o) then [LeaveLobby(Player(s.heap[r].helloID, s.heap[r].profile, ""))] else []
  {
    var s', left := Disconnect(s, r, next), Leave(s, r, next);
    LeaveTables(s, r, next);
    assert o in Refs(s'.sessions) <==> Registered(s', o) by {
      if Registered(s', o) { assert s'.sessions[s.heap[o].userID] == o; }
    }
    assert left.net[o] + [] == left.net[o];
  }
}
