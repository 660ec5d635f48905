/** Hosting passes down by seniority: a room's host is never stamped later than
    another member, whatever order the election walks the players in. */
module Seniority {
  import opened Wire
  import opened ControlPlane
  import opened Replicas
  import opened Protocol
  import opened Runs

  /** No stamp is in the future, and every host has the least stamp in its room. */
  ghost predicate Senior(s: System)
    requires Consistent(s)
  {
    && (forall r | r in s.srv.heap :: s.srv.heap[r].joinedAt <= s.clock)
    && (forall g | g in s.srv.rooms :: HostIsSenior(s.srv, g))
  }

  predicate HostIsSenior(s: Server, g: RoomId)
    requires WellFormed(s) && g in s.rooms
  {
    forall u | u in s.rooms[g].players :: s.heap[s.rooms[g].host].joinedAt <= s.heap[s.rooms[g].players[u]].joinedAt
  }

  lemma ConnectSenior(s: System, n: Ref, us: UserSession, order: seq<UserId>)
    requires Consistent(s) && Enabled(s, Connect(n, us, order)) && Senior(s)
    ensures Senior(Step(s, Connect(n, us, order)))
  {
    var s' := Step(s, Connect(n, us, order));
    forall g | g in s'.srv.rooms ensures HostIsSenior(s'.srv, g) {
      assert RoomWellFormed(s.srv.heap, g, s.srv.rooms[g]) && HostIsSenior(s.srv, g);
    }
  }

  lemma LeaveSenior(s: Server, x: Ref, next: UserId, g: RoomId)
    requires WellFormed(s) && x in s.heap && MayElect(s, x, next)
    requires g in ControlPlane.Leave(s, x, next).rooms && g in s.rooms && HostIsSenior(s, g)
    ensures WellFormed(ControlPlane.Leave(s, x, next)) && HostIsSenior(ControlPlane.Leave(s, x, next), g)
  {
    LeaveKeepsWellFormed(s, x, next);
    LeaveTables(s, x, next);
    var s' := ControlPlane.Leave(s, x, next);
    if g != s.heap[x].gameID { assert s'.rooms[g] == s.rooms[g]; }
  }

  lemma DisconnectSenior(s: System, x: Ref, next: UserId)
    requires Consistent(s) && Enabled(s, Disconnect(x, next)) && Senior(s)
    ensures Senior(Step(s, Disconnect(x, next)))
  {
    var s' := Step(s, Disconnect(x, next));
    var left := ControlPlane.Leave(s.srv, x, next);
    assert s'.srv.rooms == left.rooms && s'.srv.heap == s.srv.heap == left.heap;
    forall g | g in s'.srv.rooms ensures HostIsSenior(s'.srv, g) {
      assert g in s.srv.rooms && HostIsSenior(s.srv, g);
      LeaveSenior(s.srv, x, next, g);
    }
  }

  lemma CreateHost(s: Server, u: UserId, g: RoomId, ip: string, h: RoomId)
    requires WellFormed(s) && h in Create(s, u, g, ip).0.rooms && (h in s.rooms ==> HostIsSenior(s, h))
    ensures var s' := Create(s, u, g, ip).0; WellFormed(s') && HostIsSenior(s', h)
  {
    CreateKeepsWellFormed(s, u, g, ip);
    if h in s.rooms { assert RoomWellFormed(s.heap, h, s.rooms[h]); }
  }

  lemma CreateStamps(s: Server, u: UserId, g: RoomId, ip: string)
    requires WellFormed(s)
    ensures var s' := Create(s, u, g, ip).0;
            s'.heap.Keys == s.heap.Keys && forall r | r in s.heap :: s'.heap[r].joinedAt == s.heap[r].joinedAt
  {
  }

  lemma CreateSenior(s: System, c: Ref, g: RoomId, ip: IP)
    requires Consistent(s) && c in s.live && Senior(s)
    ensures Senior(Created(s, c, g, ip))
  {
    var s' := Created(s, c, g, ip);
    CreateStamps(s.srv, s.clients[c].userID, g, ip.text);
    forall h | h in s'.srv.rooms ensures HostIsSenior(s'.srv, h) {
      CreateHost(s.srv, s.clients[c].userID, g, ip.text, h);
    }
  }

  /** A join that succeeds re-stamps one session object and adds one player. */
  lemma JoinStamps(s: Server, g: RoomId, u: UserId, ip: string, now: Time)
    requires WellFormed(s) && g in s.rooms && u in s.sessions && u !in s.rooms[g].players
    ensures var s', r := JoinGame(s, g, u, ip, now), s.sessions[u];
            && WellFormed(s') && s'.heap.Keys == s.heap.Keys && s'.rooms.Keys == s.rooms.Keys
            && (forall o | o in s.heap :: s'.heap[o].joinedAt == if o == r then now else s.heap[o].joinedAt)
            && (forall h | h in s.rooms :: s'.rooms[h].host == s.rooms[h].host)
            && (forall h | h in s.rooms ::
                  s'.rooms[h].players == if h == g then s.rooms[h].players[u := r] else s.rooms[h].players)
  {
    JoinGameKeepsWellFormed(s, g, u, ip, now);
  }

  lemma JoinedHost(s: Server, g: RoomId, u: UserId, ip: string, now: Time, h: RoomId)
    requires WellFormed(s) && g in s.rooms && u in s.sessions && u !in s.rooms[g].players
    requires forall r | r in s.heap :: s.heap[r].joinedAt <= now
    requires MayStamp(s, s.sessions[u], now) && h in s.rooms && HostIsSenior(s, h)
    ensures var s' := JoinGame(s, g, u, ip, now); WellFormed(s') && h in s'.rooms && HostIsSenior(s', h)
  {
    JoinStamps(s, g, u, ip, now);
    assert RoomWellFormed(s.heap, h, s.rooms[h]);
  }

  /** A host stamped past another member of its room is not senior there. */
  lemma JoinedHostBreaks(s: Server, g: RoomId, u: UserId, ip: string, now: Time, h: RoomId, v: UserId)
    requires WellFormed(s) && g in s.rooms && u in s.sessions && u !in s.rooms[g].players
    requires h in s.rooms && s.rooms[h].host == s.sessions[u]
    requires v in s.rooms[h].players && s.rooms[h].players[v] != s.sessions[u]
    requires s.heap[s.rooms[h].players[v]].joinedAt < now
    ensures var s' := JoinGame(s, g, u, ip, now); WellFormed(s') && h in s'.rooms && !HostIsSenior(s', h)
  {
    JoinStamps(s, g, u, ip, now);
    var s' := JoinGame(s, g, u, ip, now);
    assert v in s'.rooms[h].players && s'.rooms[h].players[v] == s.rooms[h].players[v];
  }

  /** The guard on joins is exact: a join that succeeds, by a clock that does not
      run backwards, keeps hosts senior if and only if the new stamp leaves no
      room hosted by the joiner with a member of an earlier stamp. */
  lemma JoinSeniorExactly(s: System, c: Ref, g: RoomId, ip: string, now: Time)
    requires Consistent(s) && c in s.live && Senior(s) && s.clock <= now && g in s.srv.rooms
    requires s.clients[c].userID in s.srv.sessions && s.clients[c].userID !in s.srv.rooms[g].players
    ensures Senior(Joined(s, c, g, ip, now)) <==> MayStamp(s.srv, s.srv.sessions[s.clients[c].userID], now)
  {
    var u := s.clients[c].userID;
    var r, s' := s.srv.sessions[u], Joined(s, c, g, ip, now);
    JoinStamps(s.srv, g, u, ip, now);
    if MayStamp(s.srv, r, now) {
      forall h | h in s'.srv.rooms ensures HostIsSenior(s'.srv, h) { JoinedHost(s.srv, g, u, ip, now, h); }
    } else {
      var h, v :| h in s.srv.rooms && s.srv.rooms[h].host == r && v in s.srv.rooms[h].players
        && s.srv.rooms[h].players[v] != r && s.srv.heap[s.srv.rooms[h].players[v]].joinedAt < now;
      JoinedHostBreaks(s.srv, g, u, ip, now, h, v);
    }
  }

  lemma JoinSenior(s: System, c: Ref, g: RoomId, ip: string, now: Time)
    requires Consistent(s) && c in s.live && Senior(s) && s.clock <= now
    requires var u := s.clients[c].userID;
             u in s.srv.sessions && g in s.srv.rooms && u !in s.srv.rooms[g].players ==>
               MayStamp(s.srv, s.srv.sessions[u], now)
    ensures Senior(Joined(s, c, g, ip, now))
  {
    if g in s.srv.rooms && s.clients[c].userID in s.srv.sessions && s.clients[c].userID !in s.srv.rooms[g].players {
      JoinSeniorExactly(s, c, g, ip, now);
    } else if g in s.srv.rooms {
      var s' := Joined(s, c, g, ip, now);
      assert s'.srv == s.srv;
      forall h | h in s'.srv.rooms ensures HostIsSenior(s'.srv, h) { assert HostIsSenior(s.srv, h); }
    }
  }

  /** Hosting no room at all is enough to join one. */
  lemma NonHostMayStamp(s: Server, r: Ref, now: Time)
    requires WellFormed(s) && forall g | g in s.rooms :: s.rooms[g].host != r
    ensures MayStamp(s, r, now)
  {
  }

  lemma SelectSenior(s: System, c: Ref, g: RoomId)
    requires Consistent(s) && c in s.live && Senior(s)
    ensures Senior(Selected(s, c, g))
  {
    forall h | h in s.srv.rooms ensures HostIsSenior(Selected(s, c, g).srv, h) { assert HostIsSenior(s.srv, h); }
  }

  lemma SameSenior(s: System, s': System)
    requires Consistent(s) && Consistent(s') && Senior(s)
    requires s'.srv.heap == s.srv.heap && s'.srv.rooms == s.srv.rooms && s'.clock == s.clock
    ensures Senior(s')
  {
    forall h | h in s'.srv.rooms ensures HostIsSenior(s'.srv, h) { assert HostIsSenior(s.srv, h); }
  }

  lemma StepSenior(s: System, e: Event)
    requires Consistent(s) && Enabled(s, e) && ClockedAllows(s, e) && Senior(s)
    ensures Senior(Step(s, e))
  {
    match e
    case Connect(n, us, order) => ConnectSenior(s, n, us, order);
    case Disconnect(x, next) => DisconnectSenior(s, x, next);
    case CreateGame(c, g, ip) => CreateSenior(s, c, g, ip);
    case Select(c, g) => SelectSenior(s, c, g);
    case Join(c, g, ip, now) => JoinSenior(s, c, g, ip, now);
    case Enter(c, g, ip, now) =>
      SelectSenior(s, c, g);
      JoinSenior(Selected(s, c, g), c, g, ip, now);
    case Reselect(c, characterID, classType) => SameSenior(s, Step(s, e));
    case Deliver(c) => SameSenior(s, Step(s, e));
  }

  lemma {:induction false} RunSenior(s: System, es: seq<Event>)
    requires Consistent(s) && Senior(s) && Run(Clocked, s, es)
    ensures Senior(After(Clocked, s, es))
    decreases |es|
  {
    if es != [] {
      StepSenior(s, es[0]);
      RunSenior(Step(s, es[0]), es[1..]);
    }
  }

  /** Main result: in every run by a clock that does not run backwards, in which
      no join re-stamps a host past another member of its room, every host has
      the earliest stamp in its room. */
  lemma HostsAreSenior(es: seq<Event>, g: RoomId)
    requires Run(Clocked, INITIAL, es) && g in After(Clocked, INITIAL, es).srv.rooms
    ensures HostIsSenior(After(Clocked, INITIAL, es).srv, g)
  {
    RunSenior(INITIAL, es);
  }

  /** No join that succeeds is by a session that hosts a room, and the clock does not
      run backwards. */
  predicate ByNonHost(s: System, e: Event)
    requires Consistent(s) && Enabled(s, e)
  {
    e.Join? || e.Enter? ==>
      && s.clock <= e.now
      && forall r, h | r in s.srv.heap && JoinsAs(s, e.c, e.g, r) && h in s.srv.rooms :: s.srv.rooms[h].host != r
  }

  predicate JoinsByNonHosts(s: System, es: seq<Event>)
    requires Consistent(s) && Run(Unrestricted, s, es)
    decreases |es|
  {
    es == [] || (ByNonHost(s, es[0]) && JoinsByNonHosts(Step(s, es[0]), es[1..]))
  }

  lemma ByNonHostIsClocked(s: System, e: Event)
    requires Consistent(s) && Enabled(s, e) && ByNonHost(s, e)
    ensures ClockedAllows(s, e)
  {
    if (e.Join? || e.Enter?) && s.clients[e.c].userID in s.srv.sessions {
      var r := s.srv.sessions[s.clients[e.c].userID];
      if JoinsAs(s, e.c, e.g, r) { NonHostMayStamp(s.srv, r, e.now); }
    }
  }

  lemma {:induction false} NonHostRunsAreClocked(s: System, es: seq<Event>)
    requires Consistent(s) && Run(Unrestricted, s, es) && JoinsByNonHosts(s, es)
    ensures Run(Clocked, s, es) && After(Clocked, s, es) == After(Unrestricted, s, es)
    decreases |es|
  {
    if es != [] {
      ByNonHostIsClocked(s, es[0]);
      NonHostRunsAreClocked(Step(s, es[0]), es[1..]);
    }
  }

  /** So hosts are senior in particular if no user joins a room while hosting one. */
  lemma NonHostsKeepSeniority(es: seq<Event>, g: RoomId)
    requires Run(Unrestricted, INITIAL, es) && JoinsByNonHosts(INITIAL, es)
    requires g in After(Unrestricted, INITIAL, es).srv.rooms
    ensures HostIsSenior(After(Unrestricted, INITIAL, es).srv, g)
  {
    NonHostRunsAreClocked(INITIAL, es);
    HostsAreSenior(es, g);
  }
}
