/** A registered session that is in no room has never been in one since it
    connected, so no room message is on its way to it. This holds in every run
    and is why a newcomer to a room cannot be misled by news of an older one. */
module Quiet {
  import opened Wire
  import opened ControlPlane
  import opened Replicas
  import opened Protocol
  import opened Runs

  predicate LobbyOnly(q: seq<Message>) {
    forall m | m in q :: m.LobbyUsers? || m.JoinLobby? || m.LeaveLobby?
  }

  /** Lobby messages leave the relay host alone and can only shrink a LAN room. */
  lemma {:induction false} LobbyOnlyFold(c: Client, q: seq<Message>)
    requires LobbyOnly(q)
    ensures Fold(c, q).host == c.host
    ensures c.lan.None? ==> Fold(c, q).lan.None?
    ensures c.lan.Some? ==>
              && Fold(c, q).lan.Some?
              && Fold(c, q).lan.value.id == c.lan.value.id
              && Fold(c, q).lan.value.players.Keys <= c.lan.value.players.Keys
  {
    if q != [] {
      LobbyOnlyFold(c, q[..|q| - 1]);
      assert q[|q| - 1] in q;
    }
  }

  ghost predicate AllQuiet(s: System)
    requires Consistent(s)
  {
    forall r | Registered(s.srv, r) && Roomless(s.srv, r) :: LobbyOnly(s.srv.net[r])
  }

  lemma LeaveNet(s: Server, x: Ref, next: UserId, o: Ref)
    requires WellFormed(s) && x in s.heap && MayElect(s, x, next) && o in s.heap
    ensures var s' := ControlPlane.Leave(s, x, next);
            && s'.heap == s.heap && s'.sessions == s.sessions
            && (!Member(s', o, s.heap[x].gameID) ==> s'.net[o] == s.net[o])
            && (forall g :: Member(s', o, g) ==> Member(s, o, g))
            && (s.heap[o].userID != s.heap[x].userID ==> forall g :: Member(s', o, g) <==> Member(s, o, g))
  {
    if s.heap[o].userID != s.heap[x].userID && Member(s, o, s.heap[x].gameID) {
      assert s.heap[o].userID in Remaining(s, x).Keys;
    }
  }

  lemma DisconnectQuiet(s: System, x: Ref, next: UserId, o: Ref)
    requires Consistent(s) && Enabled(s, Disconnect(x, next)) && AllQuiet(s)
    requires var s' := Step(s, Disconnect(x, next)); Registered(s'.srv, o) && Roomless(s'.srv, o)
    ensures LobbyOnly(Step(s, Disconnect(x, next)).srv.net[o])
  {
    var left := ControlPlane.Leave(s.srv, x, next);
    LeaveNet(s.srv, x, next, o);
    assert forall g :: Member(left, o, g) <==> Member(Step(s, Disconnect(x, next)).srv, o, g);
    assert Roomless(s.srv, o);
  }

  lemma JoinNet(s: Server, g: RoomId, u: UserId, ip: string, now: Time, o: Ref)
    requires WellFormed(s) && o in s.heap
    ensures var s' := JoinGame(s, g, u, ip, now);
            && (forall h :: Member(s, o, h) ==> Member(s', o, h))
            && (!Member(s, o, g) ==> s'.net[o] == s.net[o])
            && (Registered(s', o) <==> Registered(s, o))
  {
  }

  lemma JoinedQuiet(s: System, c: Ref, g: RoomId, ip: string, now: Time)
    requires Consistent(s) && c in s.live && AllQuiet(s)
    ensures AllQuiet(Joined(s, c, g, ip, now))
  {
    var s' := Joined(s, c, g, ip, now);
    forall o | Registered(s'.srv, o) && Roomless(s'.srv, o) ensures LobbyOnly(s'.srv.net[o]) {
      JoinNet(s.srv, g, s.clients[c].userID, ip, now, o);
      assert Roomless(s.srv, o);
    }
  }

  lemma CreatedQuiet(s: System, c: Ref, g: RoomId, ip: IP)
    requires Consistent(s) && c in s.live && AllQuiet(s)
    ensures AllQuiet(Created(s, c, g, ip))
  {
    var s' := Created(s, c, g, ip);
    forall o | Registered(s'.srv, o) && Roomless(s'.srv, o) ensures LobbyOnly(s'.srv.net[o]) {
      assert forall h :: Member(s.srv, o, h) ==> Member(s'.srv, o, h);
      assert Roomless(s.srv, o) && Registered(s.srv, o);
    }
  }

  lemma ConnectQuiet(s: System, r: Ref, us: UserSession, order: seq<UserId>)
    requires Consistent(s) && Enabled(s, Connect(r, us, order)) && AllQuiet(s)
    ensures AllQuiet(Step(s, Connect(r, us, order)))
  {
    var s' := Step(s, Connect(r, us, order));
    forall o | Registered(s'.srv, o) && Roomless(s'.srv, o) ensures LobbyOnly(s'.srv.net[o]) {
      if o != r {
        assert Registered(s.srv, o);
        assert forall h :: Member(s.srv, o, h) ==> Member(s'.srv, o, h);
        assert Roomless(s.srv, o);
      }
    }
  }

  lemma StepQuiet(s: System, e: Event)
    requires Consistent(s) && Enabled(s, e) && AllQuiet(s)
    ensures AllQuiet(Step(s, e))
  {
    match e
    case Connect(r, us, order) => ConnectQuiet(s, r, us, order);
    case Disconnect(x, next) =>
      var s' := Step(s, e);
      forall o | Registered(s'.srv, o) && Roomless(s'.srv, o) ensures LobbyOnly(s'.srv.net[o]) {
        DisconnectQuiet(s, x, next, o);
      }
    case CreateGame(c, g, ip) => CreatedQuiet(s, c, g, ip);
    case Select(c, g) =>
    case Join(c, g, ip, now) => JoinedQuiet(s, c, g, ip, now);
    case Enter(c, g, ip, now) => JoinedQuiet(Selected(s, c, g), c, g, ip, now);
    case Reselect(c, characterID, classType) =>
    case Deliver(c) =>
      var s' := Step(s, e);
      forall o | Registered(s'.srv, o) && Roomless(s'.srv, o) ensures LobbyOnly(s'.srv.net[o]) {
        assert forall h :: Member(s'.srv, o, h) <==> Member(s.srv, o, h);
        assert Registered(s.srv, o) && Roomless(s.srv, o);
      }
  }

  /** In every run, double logins included. */
  lemma {:induction false} RunQuiet(d: Discipline, s: System, es: seq<Event>)
    requires Consistent(s) && AllQuiet(s) && Run(d, s, es)
    ensures AllQuiet(After(d, s, es))
    decreases |es|
  {
    if es != [] {
      StepQuiet(s, es[0]);
      RunQuiet(d, Step(s, es[0]), es[1..]);
    }
  }
}
