/** Presence converges: what a registered client will show once it has read its
    messages is always the set of registered users. */
module Presence {
  import opened Wire
  import opened ControlPlane
  import opened Replicas
  import opened Protocol
  import opened Runs

  function Ids(list: seq<Player>): set<UserId> {
    set p | p in list :: p.userID
  }

  /** No user is listed twice. */
  predicate Distinct(list: seq<Player>) {
    forall i, j | 0 <= i < j < |list| :: list[i].userID != list[j].userID
  }

  lemma {:induction false} WithoutSpec(list: seq<Player>, u: UserId)
    ensures forall p :: p in Without(list, u) <==> p in list && p.userID != u
    ensures Distinct(list) ==> Distinct(Without(list, u))
  {
    if list != [] {
      var rest := list[..|list| - 1];
      WithoutSpec(rest, u);
      assert list == rest + [list[|list| - 1]];
      assert forall p :: p in rest ==> exists i :: 0 <= i < |rest| && list[i] == p;
    }
  }

  lemma WithoutIds(list: seq<Player>, u: UserId)
    ensures Ids(Without(list, u)) == Ids(list) - {u}
  {
    WithoutSpec(list, u);
  }

  lemma AppendIds(list: seq<Player>, p: Player)
    ensures Ids(list + [p]) == Ids(list) + {p.userID}
  {
    assert p in list + [p];
    assert forall q :: q in list ==> q in list + [p];
  }

  /** Every registered session's hello named its user. */
  predicate Truthful(s: Server)
    requires WellFormed(s)
  {
    forall u | u in s.sessions :: SessionOf(s, u).TrueName()
  }

  lemma RosterIds(s: Server, order: seq<UserId>)
    requires WellFormed(s) && Lists(s, order) && Truthful(s)
    ensures Ids(Roster(s, order)) == s.sessions.Keys && Distinct(Roster(s, order))
  {
    var list := Roster(s, order);
    assert forall i | 0 <= i < |list| :: SessionOf(s, order[i]).TrueName() && list[i].userID == order[i];
    forall u | u in s.sessions ensures u in Ids(list) {
      var i :| 0 <= i < |order| && order[i] == u;
      assert list[i] in list;
    }
    forall u | u in Ids(list) ensures u in s.sessions {
      var p :| p in list && p.userID == u;
      var i :| 0 <= i < |list| && list[i] == p;
      assert order[i] in s.sessions;
    }
  }

  /** Every registered client will list exactly the registered users. */
  ghost predicate Converges(s: System)
    requires Consistent(s)
  {
    forall r | Registered(s.srv, r) :: Shows(s, r)
  }

  predicate Shows(s: System, r: Ref)
    requires Consistent(s) && r in s.clients
  {
    Ids(View(s, r).lobby) == s.srv.sessions.Keys
  }

  /** The ids on a list once a client of user self has heard of a newcomer. */
  lemma HearIds(self: UserId, list: seq<Player>, p: Player)
    ensures Ids(ApplyLobby(self, list, JoinLobby(p))) == if p.userID == self then Ids(list) else Ids(list) + {p.userID}
  {
    AppendIds(list, p);
  }

  /** A registered client other than the newcomer lists the newcomer's hello. */
  lemma ConnectOther(s: System, r: Ref, us: UserSession, order: seq<UserId>, o: Ref)
    requires Consistent(s) && Enabled(s, Connect(r, us, order)) && Registered(s.srv, o) && Shows(s, o)
    ensures var s' := Step(s, Connect(r, us, order));
            && Registered(s'.srv, o)
            && Ids(View(s', o).lobby) == s.srv.sessions.Keys + {us.helloID}
  {
    ConnectView(s, r, us, order, o);
    HearIds(s.srv.heap[o].userID, View(s, o).lobby, us.ToPlayer());
  }

  /** A newcomer who is registered lists the others and its own hello. */
  lemma ConnectSelf(s: System, r: Ref, us: UserSession, order: seq<UserId>)
    requires Consistent(s) && Enabled(s, Connect(r, us, order)) && us.userID !in s.srv.sessions && Truthful(s.srv)
    ensures var s' := Step(s, Connect(r, us, order));
            && Registered(s'.srv, r)
            && Ids(View(s', r).lobby) == s.srv.sessions.Keys + {us.helloID}
  {
    NewcomerView(s, r, us, order);
    RosterIds(s.srv, order);
    var list := Roster(s.srv, order);
    AppendIds(list, us.ToPlayer());
    HearIds(us.userID, list + [us.ToPlayer()], us.ToPlayer());
  }

  lemma SameWith(ids: set<UserId>, a: UserId, b: UserId)
    ensures ids + {a} == ids + {b} <==> a == b || (a in ids && b in ids)
  {
    if a != b && a !in ids { assert a !in ids + {b}; }
    if a != b && b !in ids { assert b !in ids + {a}; }
    if a in ids && b in ids { assert ids + {a} == ids == ids + {b}; }
  }

  /** Whoever is registered after a connect has a right list if and only if the connect
      was allowed. */
  lemma ConnectShows(s: System, r: Ref, us: UserSession, order: seq<UserId>, o: Ref)
    requires Consistent(s) && Enabled(s, Connect(r, us, order)) && Converges(s) && Truthful(s.srv)
    requires Registered(Step(s, Connect(r, us, order)).srv, o)
    ensures Shows(Step(s, Connect(r, us, order)), o) <==> MayConnect(s.srv, us)
  {
    var ids := s.srv.sessions.Keys;
    assert Step(s, Connect(r, us, order)).srv.sessions.Keys == ids + {us.userID};
    if o == r {
      ConnectSelf(s, r, us, order);
    } else {
      assert Registered(s.srv, o) && Shows(s, o);
      ConnectOther(s, r, us, order, o);
    }
    SameWith(ids, us.helloID, us.userID);
  }

  /** The guard on connects is exact. */
  lemma ConnectConvergesExactly(s: System, r: Ref, us: UserSession, order: seq<UserId>)
    requires Consistent(s) && Enabled(s, Connect(r, us, order)) && Converges(s) && Truthful(s.srv)
    ensures Converges(Step(s, Connect(r, us, order))) <==> MayConnect(s.srv, us)
  {
    var s' := Step(s, Connect(r, us, order));
    forall o | Registered(s'.srv, o) ensures Shows(s', o) <==> MayConnect(s.srv, us) {
      ConnectShows(s, r, us, order, o);
    }
    assert Registered(s'.srv, s'.srv.sessions[us.userID]);
  }

  lemma ConnectTruthful(s: System, r: Ref, us: UserSession, order: seq<UserId>)
    requires Consistent(s) && Enabled(s, Connect(r, us, order)) && Truthful(s.srv) && MayConnect(s.srv, us)
    ensures Truthful(Step(s, Connect(r, us, order)).srv)
  {
    var s' := Step(s, Connect(r, us, order));
    forall u | u in s'.srv.sessions ensures SessionOf(s'.srv, u).TrueName() {
      if u in s.srv.sessions { assert SessionOf(s.srv, u).TrueName(); }
    }
  }

  /** A departure takes the user named by its hello off every remaining client's list. */
  lemma DisconnectLobby(s: System, x: Ref, next: UserId, o: Ref)
    requires Consistent(s) && Enabled(s, Disconnect(x, next))
    requires Registered(Step(s, Disconnect(x, next)).srv, o)
    ensures Registered(s.srv, o)
    ensures View(Step(s, Disconnect(x, next)), o).lobby == Without(View(s, o).lobby, s.srv.heap[x].helloID)
  {
    DisconnectSessions(s, x, next);
    DisconnectView(s, x, next, o);
    if Member(Step(s, Disconnect(x, next)).srv, o, s.srv.heap[x].gameID) {
      AfterLeaveLobby(s.srv, x, next, View(s, o), o);
    }
  }

  lemma AfterLeaveLobby(s: Server, x: Ref, next: UserId, v: Client, o: Ref)
    requires WellFormed(s) && x in s.heap && MayElect(s, x, next)
    requires s.heap[x].gameID in s.rooms && Remaining(s, x).Keys != {}
    ensures AfterLeave(s, x, next, v).lobby == v.lobby
  {
  }

  lemma DisconnectSessions(s: System, x: Ref, next: UserId)
    requires Consistent(s) && Enabled(s, Disconnect(x, next))
    ensures var s' := Step(s, Disconnect(x, next));
            s'.srv.heap == s.srv.heap && s'.srv.sessions == s.srv.sessions - {s.srv.heap[x].userID}
  {
    LeaveTables(s.srv, x, next);
  }

  /** The guard on departures is exact. */
  lemma DisconnectConvergesExactly(s: System, x: Ref, next: UserId)
    requires Consistent(s) && Enabled(s, Disconnect(x, next)) && Converges(s)
    ensures Converges(Step(s, Disconnect(x, next))) <==> MayPart(s.srv, x)
  {
    var s' := Step(s, Disconnect(x, next));
    var us, ids := s.srv.heap[x], s.srv.sessions.Keys;
    DisconnectSessions(s, x, next);
    assert s'.srv.sessions.Keys == ids - {us.userID};
    forall o | Registered(s'.srv, o) ensures Shows(s', o) <==> ids - {us.helloID} == ids - {us.userID} {
      DisconnectLobby(s, x, next, o);
      assert Shows(s, o);
      WithoutIds(View(s, o).lobby, us.helloID);
    }
    SameWithout(ids, us.helloID, us.userID);
    if s'.srv.sessions.Keys != {} {
      var u := Inhabited(s'.srv.sessions.Keys);
      assert Registered(s'.srv, s'.srv.sessions[u]);
    }
  }

  lemma SameWithout(ids: set<UserId>, a: UserId, b: UserId)
    ensures ids - {a} == ids - {b} <==> a == b || (a !in ids && b !in ids)
  {
    if a != b && a in ids { assert a in ids - {b}; }
    if a != b && b in ids { assert b in ids - {a}; }
    if a !in ids && b !in ids { assert ids - {a} == ids == ids - {b}; }
  }

  lemma JoinedLobby(s: System, c: Ref, g: RoomId, ip: string, now: Time, o: Ref)
    requires Consistent(s) && c in s.live && o in s.srv.heap
    ensures View(Joined(s, c, g, ip, now), o).lobby == View(s, o).lobby
  {
    var s' := Joined(s, c, g, ip, now);
    FoldIndependent(s.clients[o], s'.clients[o], s.srv.net[o]);
    JoinView(s.srv, g, s.clients[c].userID, ip, now, s'.clients[o], o);
  }

  lemma SelectedLobby(s: System, c: Ref, g: RoomId, o: Ref)
    requires Consistent(s) && c in s.live && o in s.srv.heap
    ensures View(Selected(s, c, g), o).lobby == View(s, o).lobby
  {
    FoldIndependent(s.clients[o], Selected(s, c, g).clients[o], s.srv.net[o]);
  }

  /** What a client does about rooms and its character leaves every lobby list alone. */
  lemma RoomEventLobby(s: System, e: Event, o: Ref)
    requires Consistent(s) && Enabled(s, e) && o in s.srv.heap
    requires !e.Connect? && !e.Disconnect? && !e.Deliver?
    ensures View(Step(s, e), o).lobby == View(s, o).lobby
  {
    match e
    case Select(c, g) => SelectedLobby(s, c, g, o);
    case CreateGame(c, g, ip) =>
      FoldIndependent(s.clients[o], Created(s, c, g, ip).clients[o], s.srv.net[o]);
    case Join(c, g, ip, now) => JoinedLobby(s, c, g, ip, now, o);
    case Enter(c, g, ip, now) =>
      SelectedLobby(s, c, g, o);
      JoinedLobby(Selected(s, c, g), c, g, ip, now, o);
    case Reselect(c, characterID, classType) => ReselectView(s, c, characterID, classType, o);
  }

  /** The same sessions, of the same users, with the same hellos and characters. */
  predicate SameProfiles(s: Server, s': Server) {
    && s'.sessions == s.sessions && s'.heap.Keys == s.heap.Keys
    && forall r | r in s.heap ::
         && s'.heap[r].userID == s.heap[r].userID && s'.heap[r].helloID == s.heap[r].helloID
         && s'.heap[r].profile == s.heap[r].profile
  }

  lemma JoinProfiles(s: Server, g: RoomId, u: UserId, ip: string, now: Time)
    requires WellFormed(s)
    ensures SameProfiles(s, JoinGame(s, g, u, ip, now))
  {
  }

  lemma CreateProfiles(s: Server, u: UserId, g: RoomId, ip: string)
    requires WellFormed(s)
    ensures SameProfiles(s, Create(s, u, g, ip).0)
  {
  }

  /** And it changes no character on the server. */
  lemma RoomEventProfiles(s: System, e: Event)
    requires Consistent(s) && Enabled(s, e)
    requires !e.Connect? && !e.Disconnect? && !e.Deliver?
    ensures SameProfiles(s.srv, Step(s, e).srv)
  {
    match e
    case Select(c, g) =>
    case CreateGame(c, g, ip) => CreateProfiles(s.srv, s.clients[c].userID, g, ip.text);
    case Join(c, g, ip, now) => JoinProfiles(s.srv, g, s.clients[c].userID, ip, now);
    case Enter(c, g, ip, now) => JoinProfiles(s.srv, g, s.clients[c].userID, ip, now);
    case Reselect(c, characterID, classType) =>
  }

  lemma RoomEventConverges(s: System, e: Event)
    requires Consistent(s) && Enabled(s, e) && Converges(s) && Truthful(s.srv)
    requires !e.Connect? && !e.Disconnect? && !e.Deliver?
    ensures Converges(Step(s, e)) && Truthful(Step(s, e).srv)
  {
    var s' := Step(s, e);
    RoomEventProfiles(s, e);
    forall o | Registered(s'.srv, o) ensures Shows(s', o) {
      assert s'.srv.heap[o].userID == s.srv.heap[o].userID;
      assert Shows(s, o);
      RoomEventLobby(s, e, o);
    }
    forall u | u in s'.srv.sessions ensures SessionOf(s'.srv, u).TrueName() { assert SessionOf(s.srv, u).TrueName(); }
  }

  lemma DeliverConverges(s: System, c: Ref)
    requires Consistent(s) && Enabled(s, Deliver(c)) && Converges(s) && Truthful(s.srv)
    ensures Converges(Step(s, Deliver(c))) && Truthful(Step(s, Deliver(c)).srv)
  {
    var s' := Step(s, Deliver(c));
    forall o | Registered(s'.srv, o) ensures Shows(s', o) {
      assert Shows(s, o);
      DeliverView(s, c, o);
    }
    forall u | u in s'.srv.sessions ensures SessionOf(s'.srv, u).TrueName() { assert SessionOf(s.srv, u).TrueName(); }
  }

  lemma DisconnectConverges(s: System, x: Ref, next: UserId)
    requires Consistent(s) && Enabled(s, Disconnect(x, next)) && Converges(s) && Truthful(s.srv) && MayPart(s.srv, x)
    ensures Converges(Step(s, Disconnect(x, next))) && Truthful(Step(s, Disconnect(x, next)).srv)
  {
    DisconnectConvergesExactly(s, x, next);
    DisconnectSessions(s, x, next);
    var s' := Step(s, Disconnect(x, next));
    forall u | u in s'.srv.sessions ensures SessionOf(s'.srv, u).TrueName() { assert SessionOf(s.srv, u).TrueName(); }
  }

  lemma StepConverges(s: System, e: Event)
    requires Consistent(s) && Enabled(s, e) && Converges(s) && Truthful(s.srv) && TrueNamesAllow(s, e)
    ensures Converges(Step(s, e)) && Truthful(Step(s, e).srv)
  {
    match e
    case Connect(r, us, order) =>
      ConnectConvergesExactly(s, r, us, order);
      ConnectTruthful(s, r, us, order);
    case Disconnect(x, next) => DisconnectConverges(s, x, next);
    case Deliver(c) => DeliverConverges(s, c);
    case _ => RoomEventConverges(s, e);
  }

  lemma {:induction false} RunConverges(s: System, es: seq<Event>)
    requires Consistent(s) && Converges(s) && Truthful(s.srv) && Run(TrueNames, s, es)
    ensures Converges(After(TrueNames, s, es))
    decreases |es|
  {
    if es != [] {
      StepConverges(s, es[0]);
      RunConverges(Step(s, es[0]), es[1..]);
    }
  }

  /** Main result: in every reachable state, double logins included, each
      registered client's list with its unread messages applied names exactly
      the registered users, as long as hellos pass the two guards. */
  lemma PresenceConverges(es: seq<Event>)
    requires Run(TrueNames, INITIAL, es)
    ensures Converges(After(TrueNames, INITIAL, es))
  {
    RunConverges(INITIAL, es);
  }

  /** Hellos that name their users pass the guards, in any run. */
  lemma {:induction false} HonestHellosPass(s: System, es: seq<Event>)
    requires Consistent(s) && Run(Unrestricted, s, es)
    requires forall r | r in s.srv.heap :: s.srv.heap[r].TrueName()
    requires forall i | 0 <= i < |es| && es[i].Connect? :: es[i].us.TrueName()
    ensures Run(TrueNames, s, es) && After(TrueNames, s, es) == After(Unrestricted, s, es)
    decreases |es|
  {
    if es != [] {
      StepTrueNames(s, es[0]);
      HonestHellosPass(Step(s, es[0]), es[1..]);
    }
  }

  lemma StepTrueNames(s: System, e: Event)
    requires Consistent(s) && Enabled(s, e) && forall r | r in s.srv.heap :: s.srv.heap[r].TrueName()
    requires e.Connect? ==> e.us.TrueName()
    ensures TrueNamesAllow(s, e) && forall r | r in Step(s, e).srv.heap :: Step(s, e).srv.heap[r].TrueName()
  {
    match e
    case Connect(r, us, order) =>
    case Disconnect(x, next) => DisconnectSessions(s, x, next);
    case Deliver(c) =>
    case _ =>
      RoomEventProfiles(s, e);
      forall r | r in Step(s, e).srv.heap ensures Step(s, e).srv.heap[r].TrueName() { assert s.srv.heap[r].TrueName(); }
  }

  // ----- Without double logins the list is exact -----

  /** The record of a registered user: the character its session came with, no address. */
  predicate Current(p: Player, heap: map<Ref, UserSession>, sessions: map<UserId, Ref>) {
    && p.userID in sessions && sessions[p.userID] in heap
    && p.profile == heap[sessions[p.userID]].profile && p.ipAddress == ""
  }

  /** The list names each registered user once, with that user's own record. */
  predicate Names(list: seq<Player>, heap: map<Ref, UserSession>, sessions: map<UserId, Ref>) {
    && Distinct(list)
    && Ids(list) == sessions.Keys
    && forall p | p in list :: Current(p, heap, sessions)
  }

  lemma NamesRoster(s: Server, order: seq<UserId>)
    requires WellFormed(s) && Lists(s, order) && Truthful(s)
    ensures Names(Roster(s, order), s.heap, s.sessions)
  {
    RosterIds(s, order);
    forall p | p in Roster(s, order) ensures Current(p, s.heap, s.sessions) {
      var i :| 0 <= i < |order| && Roster(s, order)[i] == p;
      assert SessionOf(s, order[i]).TrueName();
    }
  }

  lemma NamesAppend(list: seq<Player>, heap: map<Ref, UserSession>, sessions: map<UserId, Ref>, r: Ref, us: UserSession)
    requires Names(list, heap, sessions) && r !in heap && us.userID !in sessions && us.TrueName()
    ensures Names(list + [us.ToPlayer()], heap[r := us], sessions[us.userID := r])
  {
    AppendIds(list, us.ToPlayer());
    assert forall i | 0 <= i < |list| :: list[i] in list && list[i].userID in Ids(list);
  }

  lemma NamesWithout(list: seq<Player>, heap: map<Ref, UserSession>, sessions: map<UserId, Ref>, u: UserId)
    requires Names(list, heap, sessions)
    ensures Names(Without(list, u), heap, sessions - {u})
  {
    WithoutSpec(list, u);
    WithoutIds(list, u);
  }

  predicate ShowsAll(s: System, r: Ref)
    requires Consistent(s) && r in s.clients
  {
    Names(View(s, r).lobby, s.srv.heap, s.srv.sessions)
  }

  /** Every registered client's list is exact. */
  ghost predicate AllShow(s: System)
    requires Consistent(s)
  {
    forall r | Registered(s.srv, r) :: ShowsAll(s, r)
  }

  /** So it is, and every hello named its user. */
  ghost predicate Exact(s: System)
    requires Consistent(s)
  {
    AllShow(s) && forall r | r in s.srv.heap :: s.srv.heap[r].TrueName()
  }

  lemma ExactTruthful(s: System)
    requires Consistent(s) && Exact(s)
    ensures Truthful(s.srv)
  {
  }

  /** A new user who gives its own name is on every list once. */
  lemma ConnectNew(s: System, r: Ref, us: UserSession, order: seq<UserId>, o: Ref)
    requires Consistent(s) && Enabled(s, Connect(r, us, order)) && Truthful(s.srv)
    requires us.TrueName() && us.userID !in s.srv.sessions
    requires o != r ==> Registered(s.srv, o) && ShowsAll(s, o)
    ensures o in Step(s, Connect(r, us, order)).clients && ShowsAll(Step(s, Connect(r, us, order)), o)
  {
    if o == r {
      NewcomerView(s, r, us, order);
      NamesRoster(s.srv, order);
      NamesAppend(Roster(s.srv, order), s.srv.heap, s.srv.sessions, r, us);
    } else {
      ConnectView(s, r, us, order, o);
      NamesAppend(View(s, o).lobby, s.srv.heap, s.srv.sessions, r, us);
    }
  }

  /** A second login of the only registered user is ignored by that user's client. */
  lemma ConnectAlone(s: System, r: Ref, us: UserSession, order: seq<UserId>, o: Ref)
    requires Consistent(s) && Enabled(s, Connect(r, us, order)) && us.TrueName()
    requires s.srv.sessions.Keys == {us.userID} && Registered(s.srv, o) && ShowsAll(s, o)
    ensures ShowsAll(Step(s, Connect(r, us, order)), o)
  {
    ConnectView(s, r, us, order, o);
    assert s.srv.heap[o].userID in s.srv.sessions.Keys;
  }

  /** A second login under a name that others list is listed twice by them. */
  lemma ConnectTwice(s: System, r: Ref, us: UserSession, order: seq<UserId>, o: Ref)
    requires Consistent(s) && Enabled(s, Connect(r, us, order)) && Registered(s.srv, o) && ShowsAll(s, o)
    requires us.helloID in s.srv.sessions && s.srv.heap[o].userID != us.helloID
    ensures var s' := Step(s, Connect(r, us, order)); o in s'.clients && !Distinct(View(s', o).lobby)
  {
    ConnectView(s, r, us, order, o);
    var list := View(s, o).lobby;
    assert us.helloID in Ids(list);
    var p :| p in list && p.userID == us.helloID;
    var i :| 0 <= i < |list| && list[i] == p;
    var list' := list + [us.ToPlayer()];
    assert list'[i].userID == list'[|list|].userID;
  }

  /** The guard on logins is exact. */
  lemma ConnectShowsExactly(s: System, r: Ref, us: UserSession, order: seq<UserId>)
    requires Consistent(s) && Enabled(s, Connect(r, us, order)) && AllShow(s) && Truthful(s.srv)
    ensures AllShow(Step(s, Connect(r, us, order))) <==> MayLogIn(s.srv, us)
  {
    var s' := Step(s, Connect(r, us, order));
    if MayLogIn(s.srv, us) {
      forall o | Registered(s'.srv, o) ensures ShowsAll(s', o) {
        if us.userID in s.srv.sessions {
          assert Registered(s.srv, o) && ShowsAll(s, o);
          ConnectAlone(s, r, us, order, o);
        } else {
          assert o != r ==> Registered(s.srv, o);
          ConnectNew(s, r, us, order, o);
        }
      }
    } else {
      ConnectSpoils(s, r, us, order);
    }
  }

  lemma ConnectSpoils(s: System, r: Ref, us: UserSession, order: seq<UserId>)
    requires Consistent(s) && Enabled(s, Connect(r, us, order)) && AllShow(s) && Truthful(s.srv)
    requires !MayLogIn(s.srv, us)
    ensures !AllShow(Step(s, Connect(r, us, order)))
  {
    var s' := Step(s, Connect(r, us, order));
    if us.userID !in s.srv.sessions {
      ConnectSelf(s, r, us, order);
      assert !ShowsAll(s', r);
    } else if us.helloID !in s.srv.sessions {
      var o := s.srv.sessions[us.userID];
      assert Registered(s.srv, o) && ShowsAll(s, o);
      ConnectOther(s, r, us, order, o);
      assert !ShowsAll(s', o);
    } else {
      var o := SomebodyElse(s.srv, us);
      ConnectStays(s, r, us, order, o);
      assert ShowsAll(s, o);
      ConnectTwice(s, r, us, order, o);
      assert !ShowsAll(s', o);
    }
  }

  lemma ConnectStays(s: System, r: Ref, us: UserSession, order: seq<UserId>, o: Ref)
    requires Consistent(s) && Enabled(s, Connect(r, us, order)) && Registered(s.srv, o)
    ensures Registered(Step(s, Connect(r, us, order)).srv, o)
  {
  }

  lemma OnlyOne(ids: set<UserId>, u: UserId)
    requires u in ids
    ensures ids - {u} == {} ==> ids == {u}
  {
    assert ids == (ids - {u}) + {u};
  }

  /** A registered session of a user other than the one the hello names. */
  lemma SomebodyElse(s: Server, us: UserSession) returns (o: Ref)
    requires WellFormed(s) && us.userID in s.sessions && us.helloID in s.sessions && !MayLogIn(s, us)
    ensures Registered(s, o) && s.heap[o].userID != us.helloID
  {
    if us.userID != us.helloID {
      o := s.sessions[us.userID];
    } else {
      OnlyOne(s.sessions.Keys, us.userID);
      var u := Inhabited(s.sessions.Keys - {us.userID});
      o := s.sessions[u];
    }
  }

  lemma ConnectExact(s: System, r: Ref, us: UserSession, order: seq<UserId>)
    requires Consistent(s) && Enabled(s, Connect(r, us, order)) && Exact(s) && MayLogIn(s.srv, us)
    ensures Exact(Step(s, Connect(r, us, order)))
  {
    ExactTruthful(s);
    ConnectShowsExactly(s, r, us, order);
  }

  lemma DisconnectExact(s: System, x: Ref, next: UserId)
    requires Consistent(s) && Enabled(s, Disconnect(x, next)) && Exact(s)
    ensures Exact(Step(s, Disconnect(x, next)))
  {
    var s' := Step(s, Disconnect(x, next));
    DisconnectSessions(s, x, next);
    forall o | Registered(s'.srv, o) ensures ShowsAll(s', o) {
      DisconnectLobby(s, x, next, o);
      assert ShowsAll(s, o);
      NamesWithout(View(s, o).lobby, s.srv.heap, s.srv.sessions, s.srv.heap[x].userID);
    }
  }

  lemma RoomEventExact(s: System, e: Event)
    requires Consistent(s) && Enabled(s, e) && Exact(s)
    requires !e.Connect? && !e.Disconnect? && !e.Deliver?
    ensures Exact(Step(s, e))
  {
    var s' := Step(s, e);
    RoomEventProfiles(s, e);
    forall o | Registered(s'.srv, o) ensures ShowsAll(s', o) {
      assert Registered(s.srv, o) && ShowsAll(s, o);
      RoomEventLobby(s, e, o);
    }
    forall r | r in s'.srv.heap ensures s'.srv.heap[r].TrueName() { assert s.srv.heap[r].TrueName(); }
  }

  lemma DeliverExact(s: System, c: Ref)
    requires Consistent(s) && Enabled(s, Deliver(c)) && Exact(s)
    ensures Exact(Step(s, Deliver(c)))
  {
    var s' := Step(s, Deliver(c));
    forall o | Registered(s'.srv, o) ensures ShowsAll(s', o) {
      assert ShowsAll(s, o);
      DeliverView(s, c, o);
    }
  }

  lemma StepExact(s: System, e: Event)
    requires Consistent(s) && Enabled(s, e) && Exact(s) && Allows(OneLogin, s, e)
    ensures Exact(Step(s, e))
  {
    match e
    case Connect(r, us, order) => ConnectExact(s, r, us, order);
    case Disconnect(x, next) => DisconnectExact(s, x, next);
    case Deliver(c) => DeliverExact(s, c);
    case _ => RoomEventExact(s, e);
  }

  lemma {:induction false} RunExact(s: System, es: seq<Event>)
    requires Consistent(s) && Exact(s) && Run(OneLogin, s, es)
    ensures Exact(After(OneLogin, s, es))
    decreases |es|
  {
    if es != [] {
      StepExact(s, es[0]);
      RunExact(Step(s, es[0]), es[1..]);
    }
  }

  /** Main result: when hellos name their users and nobody connects as a registered
      user, unless that user is alone, every list names the registered users with no
      repeats and every record in it is the current one. */
  lemma PresenceExact(es: seq<Event>)
    requires Run(OneLogin, INITIAL, es)
    ensures Exact(After(OneLogin, INITIAL, es))
  {
    RunExact(INITIAL, es);
  }

  // ----- Where the records come from -----

  /** Session object r was opened by one of the events, for user u with this character. */
  ghost predicate Opened(es: seq<Event>, r: Ref, u: UserId, profile: Profile) {
    exists i ::
      && 0 <= i < |es| && es[i].Connect?
      && es[i].r == r && es[i].us.userID == u && es[i].us.profile == profile
  }

  /** Every session of s is as it was opened, by one of the events or before them. */
  ghost predicate AsOpened(before: Server, es: seq<Event>, s: Server) {
    forall r | r in s.heap ::
      || (r in before.heap && s.heap[r].userID == before.heap[r].userID && s.heap[r].profile == before.heap[r].profile)
      || Opened(es, r, s.heap[r].userID, s.heap[r].profile)
  }

  lemma StepAsOpened(s: System, e: Event)
    requires Consistent(s) && Enabled(s, e)
    ensures AsOpened(s.srv, [e], Step(s, e).srv)
  {
    match e
    case Connect(r, us, order) => assert [e][0].Connect? && [e][0].r == r;
    case Disconnect(x, next) => DisconnectSessions(s, x, next);
    case Deliver(c) =>
    case _ => RoomEventProfiles(s, e);
  }

  lemma OpenedLater(e: Event, es: seq<Event>, r: Ref, u: UserId, profile: Profile)
    requires Opened([e], r, u, profile) || Opened(es, r, u, profile)
    ensures Opened([e] + es, r, u, profile)
  {
    if i :| 0 <= i < |es| && es[i].Connect? && es[i].r == r && es[i].us.userID == u && es[i].us.profile == profile {
      assert ([e] + es)[i + 1] == es[i];
    } else {
      assert ([e] + es)[0] == [e][0];
    }
  }

  lemma {:induction false} RunAsOpened(d: Discipline, s: System, es: seq<Event>)
    requires Consistent(s) && Run(d, s, es)
    ensures AsOpened(s.srv, es, After(d, s, es).srv)
    decreases |es|
  {
    if es != [] {
      var s1, s' := Step(s, es[0]), After(d, s, es);
      StepAsOpened(s, es[0]);
      RunAsOpened(d, s1, es[1..]);
      assert es == [es[0]] + es[1..];
      forall r | r in s'.srv.heap && !(r in s.srv.heap && s'.srv.heap[r].userID == s.srv.heap[r].userID
                                       && s'.srv.heap[r].profile == s.srv.heap[r].profile)
        ensures Opened(es, r, s'.srv.heap[r].userID, s'.srv.heap[r].profile)
      {
        OpenedLater(es[0], es[1..], r, s'.srv.heap[r].userID, s'.srv.heap[r].profile);
      }
    }
  }

  /** Main result: in such runs every record on a registered client's list, once it has
      read its messages, shows the character with which that user's registered session
      was opened, and no address. */
  lemma RecordsAreAsOpened(es: seq<Event>, r: Ref, p: Player)
    requires Run(OneLogin, INITIAL, es) && Registered(After(OneLogin, INITIAL, es).srv, r)
    requires p in View(After(OneLogin, INITIAL, es), r).lobby
    ensures var s := After(OneLogin, INITIAL, es).srv;
            p.userID in s.sessions && Opened(es, s.sessions[p.userID], p.userID, p.profile) && p.ipAddress == ""
  {
    PresenceExact(es);
    RunAsOpened(OneLogin, INITIAL, es);
    var s := After(OneLogin, INITIAL, es);
    assert ShowsAll(s, r);
    assert Current(p, s.srv.heap, s.srv.sessions);
  }
}
