/** Two short runs that show the conditions of HostAgreement and Seniority to be
    needed: each breaks the property by one step that breaks the condition. */
module Counterexamples {
  import opened Wire
  import opened ControlPlane
  import opened Replicas
  import opened Protocol
  import opened Runs
  import Quiet
  import News
  import HostAgreement
  import Seniority

  const P := Profile("", 0, 0)

  /** User u as it connects. */
  function New(u: UserId): UserSession {
    UserSession(u, u, "", 0, "", P)
  }

  predicate StepsTo(d: Discipline, s: System, e: Event, s': System) {
    Consistent(s) && Enabled(s, e) && Allows(d, s, e) && Step(s, e) == s'
  }

  predicate Follows(d: Discipline, s: System, es: seq<Event>, last: System) {
    Consistent(s) && Run(d, s, es) && After(d, s, es) == last
  }

  lemma AddFirst(d: Discipline, s: System, e: Event, s1: System, rest: seq<Event>, last: System)
    requires StepsTo(d, s, e, s1) && Follows(d, s1, rest, last)
    ensures Follows(d, s, [e] + rest, last)
  {
    assert ([e] + rest)[1..] == rest;
  }

  /** A run of discipline d, written as the states it passes, leads to the last. */
  predicate Path(d: Discipline, ss: seq<System>, es: seq<Event>) {
    && |ss| == |es| + 1 && ss[0] == INITIAL && Consistent(ss[|es|])
    && forall i | 0 <= i < |es| :: StepsTo(d, ss[i], es[i], ss[i + 1])
  }

  ghost predicate Reached(d: Discipline, es: seq<Event>, s: System) {
    Consistent(s) && exists ss :: Path(d, ss, es) && ss[|es|] == s
  }

  lemma PathGrows(d: Discipline, ss: seq<System>, es: seq<Event>, e: Event, s': System)
    requires Path(d, ss, es) && StepsTo(d, ss[|es|], e, s')
    ensures Path(d, ss + [s'], es + [e]) && Consistent(s')
  {
    var ss', es' := ss + [s'], es + [e];
    forall i | 0 <= i < |es'| ensures StepsTo(d, ss'[i], es'[i], ss'[i + 1]) {
      if i < |es| { assert StepsTo(d, ss[i], es[i], ss[i + 1]); } else { assert ss'[i] == ss[|es|] && es'[i] == e; }
    }
  }

  lemma Extend(d: Discipline, es: seq<Event>, s: System, e: Event, s': System)
    requires Reached(d, es, s) && StepsTo(d, s, e, s')
    ensures Reached(d, es + [e], s')
  {
    var ss :| Path(d, ss, es) && ss[|es|] == s;
    PathGrows(d, ss, es, e, s');
  }

  lemma PathStep(d: Discipline, ss: seq<System>, es: seq<Event>, i: nat, last: System)
    requires Path(d, ss, es) && i < |es| && Follows(d, ss[i + 1], es[i + 1..], last)
    ensures Follows(d, ss[i], es[i..], last)
  {
    assert StepsTo(d, ss[i], es[i], ss[i + 1]);
    AddFirst(d, ss[i], es[i], ss[i + 1], es[i + 1..], last);
    assert es[i..] == [es[i]] + es[i + 1..];
  }

  lemma {:induction false} PathFollows(d: Discipline, ss: seq<System>, es: seq<Event>, i: nat)
    requires Path(d, ss, es) && i <= |es|
    ensures Follows(d, ss[i], es[i..], ss[|es|])
    decreases |es| - i
  {
    if i < |es| {
      PathFollows(d, ss, es, i + 1);
      PathStep(d, ss, es, i, ss[|es|]);
    }
  }

  lemma ReachedByRun(d: Discipline, es: seq<Event>, s: System)
    requires Reached(d, es, s)
    ensures Run(d, INITIAL, es) && After(d, INITIAL, es) == s
  {
    var ss :| Path(d, ss, es) && ss[|es|] == s;
    PathFollows(d, ss, es, 0);
    assert es[0..] == es;
  }

  /** The tables of a state, all but the messages. */
  predicate Looks(s: System, heap: map<Ref, UserSession>, sessions: map<UserId, Ref>, rooms: map<RoomId, GameRoom>,
                  live: set<Ref>)
  {
    s.srv.heap == heap && s.srv.sessions == sessions && s.srv.rooms == rooms && s.live == live
  }

  const LAN3 := LanPlayer(3)

  /** Both runs begin alike. */
  predicate Ours(d: Discipline) {
    d == LAN3 || d == Clocked
  }

  /** A user connects for the first time, to a server that knows some users already. */
  lemma Connects(d: Discipline, s: System, u: UserId, order: seq<UserId>,
                  heap: map<Ref, UserSession>, sessions: map<UserId, Ref>, live: set<Ref>)
    returns (e: Event, s': System)
    requires Ours(d) && Consistent(s) && Looks(s, heap, sessions, map[], live)
    requires u >= 0 && u !in heap && u !in sessions && Lists(s.srv, order)
    ensures StepsTo(d, s, e, s') && s'.clock == s.clock
    ensures Looks(s', heap[u := New(u)], sessions[u := u], map[], live + {u})
  {
    e := Connect(u, New(u), order);
    s' := Step(s, e);
  }

  function Heap(): map<Ref, UserSession> { map[][1 := New(1)][2 := New(2)][3 := New(3)] }

  function Sessions(): map<UserId, Ref> { map[][1 := 1][2 := 2][3 := 3] }

  lemma OneConnect(d: Discipline) returns (es: seq<Event>, s: System)
    requires Ours(d)
    ensures Reached(d, es, s) && |es| == 1 && s.clock == 0
    ensures Looks(s, map[][1 := New(1)], map[][1 := 1], map[], {1})
  {
    var e, s';
    es, s := [], INITIAL;
    assert Path(d, [INITIAL], []);
    e, s' := Connects(d, s, 1, [], map[], map[], {});
    Extend(d, es, s, e, s');
    es, s := es + [e], s';
  }

  lemma TwoConnect(d: Discipline) returns (es: seq<Event>, s: System)
    requires Ours(d)
    ensures Reached(d, es, s) && |es| == 2 && s.clock == 0
    ensures Looks(s, map[][1 := New(1)][2 := New(2)], map[][1 := 1][2 := 2], map[], {1, 2})
  {
    var e, s';
    es, s := OneConnect(d);
    e, s' := Connects(d, s, 2, [1], map[][1 := New(1)], map[][1 := 1], {1});
    Extend(d, es, s, e, s');
    es, s := es + [e], s';
  }

  /** Users 1, 2 and 3 connect, on connections 1, 2 and 3. */
  lemma ThreeConnect(d: Discipline) returns (es: seq<Event>, s: System)
    requires Ours(d)
    ensures Reached(d, es, s) && |es| == 3 && s.clock == 0
    ensures Looks(s, Heap(), Sessions(), map[], {1, 2, 3})
  {
    es, s := TwoConnect(d);
    var e, s';
    assert Lists(s.srv, [1, 2]);
    e, s' := Connects(d, s, 3, [1, 2], map[][1 := New(1)][2 := New(2)], map[][1 := 1][2 := 2], {1, 2});
    Extend(d, es, s, e, s');
    es, s := es + [e], s';
  }

  function Host1(): UserSession { UserSession(1, 1, "g", 0, "", P) }
  function Guest2(): UserSession { UserSession(2, 2, "g", 1, "", P) }

  function Seated(): map<Ref, UserSession> { Heap()[1 := Host1()][2 := Guest2()] }

  function BothIn(): map<RoomId, GameRoom> { map["g" := GameRoom("g", 1, 1, map[1 := 1][2 := 2])] }

  function GuestIn(): map<RoomId, GameRoom> { map["g" := GameRoom("g", 2, 1, map[2 := 2])] }

  lemma OneCreates(s: Server)
    requires WellFormed(s) && s.heap == Heap() && s.sessions == Sessions() && s.rooms == map[]
    ensures var s' := Create(s, 1, "g", "").0;
      && s'.heap == Heap()[1 := Host1()] && s'.sessions == s.sessions
      && s'.rooms == map["g" := GameRoom("g", 1, 1, map[1 := 1])]
  {
  }

  lemma OneMayCreate(d: Discipline, s: System)
    requires Ours(d) && Consistent(s) && s.srv.sessions == Sessions()
    requires 1 in s.live && 1 in s.srv.heap && s.srv.heap[1].userID == 1
    ensures Enabled(s, CreateGame(1, "g", V4(""))) && Allows(d, s, CreateGame(1, "g", V4("")))
  {
    assert s.clients[1].userID == 1 && s.srv.sessions[1] == 1;
  }

  lemma UserOneCreates(d: Discipline, s: System) returns (e: Event, s': System)
    requires Ours(d) && Consistent(s) && s.clock == 0 && Looks(s, Heap(), Sessions(), map[], {1, 2, 3})
    ensures StepsTo(d, s, e, s') && s'.clock == 0
    ensures Looks(s', Heap()[1 := Host1()], Sessions(), map["g" := GameRoom("g", 1, 1, map[1 := 1])], {1, 2, 3})
  {
    e := CreateGame(1, "g", V4(""));
    OneCreates(s.srv);
    OneMayCreate(d, s);
    s' := Created(s, 1, "g", V4(""));
  }

  lemma TwoMayEnter(d: Discipline, s: System)
    requires Ours(d) && Consistent(s) && s.clock == 0 && 2 in s.live && 2 in s.srv.heap && s.srv.heap[2].userID == 2
    requires s.srv.sessions == Sessions() && s.srv.rooms == map["g" := GameRoom("g", 1, 1, map[1 := 1])]
    ensures Enabled(s, Enter(2, "g", "", 1)) && Allows(d, s, Enter(2, "g", "", 1))
  {
    assert s.clients[2].userID == 2 && s.srv.sessions[2] == 2;
  }

  lemma UserTwoEnters(d: Discipline, s: System) returns (e: Event, s': System)
    requires Ours(d) && Consistent(s) && s.clock == 0
    requires Looks(s, Heap()[1 := Host1()], Sessions(), map["g" := GameRoom("g", 1, 1, map[1 := 1])], {1, 2, 3})
    ensures StepsTo(d, s, e, s') && s'.clock == 1
    ensures Looks(s', Seated(), Sessions(), BothIn(), {1, 2, 3})
  {
    e := Enter(2, "g", "", 1);
    TwoEnters(s.srv);
    TwoMayEnter(d, s);
    s' := Joined(Selected(s, 2, "g"), 2, "g", "", 1);
  }

  // ----- A stale selection -----

  lemma UserThreeSelects(s: System) returns (e: Event, s': System)
    requires Consistent(s)
    requires Looks(s, Seated(), Sessions(), BothIn(), {1, 2, 3})
    ensures StepsTo(LAN3, s, e, s')
    ensures Looks(s', Seated(), Sessions(), BothIn(), {1, 2, 3})
    ensures 3 in s'.clients && s'.clients[3].host == Some(1)
    ensures s'.clients[3].lan.Some? && s'.clients[3].lan.value.id == "g"
  {
    e := Select(3, "g");
    assert s.srv.heap[1] == Host1() && s.srv.heap[3] == New(3) && Roomless(s.srv, 3);
    s' := Selected(s, 3, "g");
  }

  lemma OneLeaves(s: Server)
    requires WellFormed(s) && s.heap == Heap()[1 := Host1()][2 := Guest2()]
    requires s.sessions == Sessions() && s.rooms == map["g" := GameRoom("g", 1, 1, map[1 := 1][2 := 2])]
    ensures MayElect(s, 1, 2)
    ensures var s' := ControlPlane.Disconnect(s, 1, 2);
      && s'.heap == s.heap && s'.sessions == Sessions() - {1}
      && s'.rooms == map["g" := GameRoom("g", 2, 1, map[2 := 2])]
  {
    assert Remaining(s, 1) == map[2 := 2];
  }

  lemma TwoEnters(s: Server)
    requires WellFormed(s) && s.heap == Heap()[1 := Host1()]
    requires s.sessions == Sessions() && s.rooms == map["g" := GameRoom("g", 1, 1, map[1 := 1])]
    ensures var s' := JoinGame(s, "g", 2, "", 1);
      && s'.heap == s.heap[2 := Guest2()] && s'.sessions == s.sessions
      && s'.rooms == map["g" := GameRoom("g", 1, 1, map[1 := 1][2 := 2])]
  {
  }

  lemma UserOneLeaves(s: System) returns (e: Event, s': System)
    requires Consistent(s)
    requires Looks(s, Seated(), Sessions(), BothIn(), {1, 2, 3})
    ensures StepsTo(LAN3, s, e, s')
    ensures Looks(s', Seated(), Sessions() - {1}, GuestIn(), {2, 3})
    ensures s'.clients == s.clients
  {
    e := Disconnect(1, 2);
    OneLeaves(s.srv);
    assert s.srv.heap[1] == Host1();
    assert {1, 2, 3} - {1} == {2, 3};
    s' := Disconnected(s, 1, 2);
    assert s'.srv == ControlPlane.Disconnect(s.srv, 1, 2);
  }

  /** Client r is a member of room g, whose host is `host`, and will go on naming
      `noted`. */
  ghost predicate Misled(s: System, r: Ref, g: RoomId, noted: UserId, host: UserId)
    requires Consistent(s)
  {
    Member(s.srv, r, g) && HostOf(s.srv, g) == host && View(s, r).host == Some(noted)
  }

  lemma ThreeMayJoin(s: System)
    requires Consistent(s) && 3 in s.live && Registered(s.srv, 3) && s.clients[3].userID == 3
    requires s.srv.rooms == map["g" := GameRoom("g", 2, 1, map[2 := 2])]
    requires s.clients[3].lan.Some? && s.clients[3].lan.value.id == "g"
    ensures Roomless(s.srv, 3)
    ensures Enabled(s, Join(3, "g", "", 2)) && Allows(LAN3, s, Join(3, "g", "", 2))
  {
  }

  lemma UserThreeJoins(s: System) returns (e: Event, s': System)
    requires Consistent(s) && Quiet.AllQuiet(s)
    requires Looks(s, Seated(), Sessions() - {1}, GuestIn(), {2, 3})
    requires 3 in s.clients && s.clients[3].host == Some(1)
    requires s.clients[3].lan.Some? && s.clients[3].lan.value.id == "g"
    ensures StepsTo(LAN3, s, e, s') && Misled(s', 3, "g", 1, 2)
  {
    e := Join(3, "g", "", 2);
    assert s.srv.heap[3] == New(3) && s.srv.sessions[3] == 3;
    ThreeMayJoin(s);
    ThreeJoins(s);
    s' := Joined(s, 3, "g", "", 2);
  }

  lemma ThreeJoins(s: System)
    requires Consistent(s) && Quiet.AllQuiet(s) && 3 in s.live && s.clients[3].host == Some(1)
    requires Registered(s.srv, 3) && s.clients[3].userID == 3 && Roomless(s.srv, 3)
    requires "g" in s.srv.rooms && HostOf(s.srv, "g") == 2 && 3 !in s.srv.rooms["g"].players
    ensures Misled(Joined(s, 3, "g", "", 2), 3, "g", 1, 2)
  {
    var s' := Joined(s, 3, "g", "", 2);
    assert Member(s'.srv, 3, "g");
    News.JoinedMember(s.srv, "g", 3, "", 2, 3, "g");
    JoinView(s.srv, "g", 3, "", 2, s'.clients[3], 3);
    Quiet.LobbyOnlyFold(s'.clients[3], s.srv.net[3]);
  }

  lemma UpToSelection() returns (es: seq<Event>, s: System)
    ensures Reached(LAN3, es, s) && |es| == 6
    ensures Looks(s, Seated(), Sessions(), BothIn(), {1, 2, 3})
    ensures 3 in s.clients && s.clients[3].host == Some(1) && s.clients[3].lan.Some? && s.clients[3].lan.value.id == "g"
  {
    var e, s';
    es, s := ThreeConnect(LAN3);
    e, s' := UserOneCreates(LAN3, s);
    Extend(LAN3, es, s, e, s');
    es, s := es + [e], s';
    e, s' := UserTwoEnters(LAN3, s);
    Extend(LAN3, es, s, e, s');
    es, s := es + [e], s';
    e, s' := UserThreeSelects(s);
    Extend(LAN3, es, s, e, s');
    es, s := es + [e], s';
  }

  lemma UpToMigration() returns (es: seq<Event>, s: System)
    ensures Reached(LAN3, es, s) && |es| == 7
    ensures Looks(s, Seated(), Sessions() - {1}, GuestIn(), {2, 3})
    ensures 3 in s.clients && s.clients[3].host == Some(1) && s.clients[3].lan.Some? && s.clients[3].lan.value.id == "g"
  {
    var e, s';
    es, s := UpToSelection();
    e, s' := UserOneLeaves(s);
    Extend(LAN3, es, s, e, s');
    es, s := es + [e], s';
  }

  /** User 3 notes user 1 as the host of a room, the hosting passes to user 2, and
      user 3 joins: in eight steps it is a member that will go on naming user 1. */
  lemma StaleSelection() returns (es: seq<Event>)
    ensures |es| == 8 && Run(LAN3, INITIAL, es) && Misled(After(LAN3, INITIAL, es), 3, "g", 1, 2)
  {
    var s, e, s';
    es, s := UpToMigration();
    ReachedQuiet(LAN3, es, s);
    e, s' := UserThreeJoins(s);
    Extend(LAN3, es, s, e, s');
    es := es + [e];
    ReachedByRun(LAN3, es, s');
  }

  lemma ReachedQuiet(d: Discipline, es: seq<Event>, s: System)
    requires Reached(d, es, s)
    ensures Quiet.AllQuiet(s)
  {
    ReachedByRun(d, es, s);
    Quiet.RunQuiet(d, INITIAL, es);
  }

  // ----- A re-stamped host -----

  /** Users 1 and 2 are host and guest of room "g". */
  predicate HostAndGuest(s: Server) {
    && s.sessions == Sessions()
    && 1 in s.heap && s.heap[1] == Host1() && 2 in s.heap && s.heap[2] == Guest2()
    && "g" in s.rooms && s.rooms["g"] == GameRoom("g", 1, 1, map[1 := 1][2 := 2])
  }

  lemma ThreeCreates(s: Server)
    requires WellFormed(s) && HostAndGuest(s) && 3 in s.heap && s.heap[3].userID == 3 && "h" !in s.rooms
    ensures var s' := Create(s, 3, "h", "").0;
      HostAndGuest(s') && "h" in s'.rooms && s'.rooms["h"].players == map[3 := 3]
  {
  }

  lemma UserThreeCreates(s: System) returns (e: Event, s': System)
    requires Consistent(s) && s.clock == 1 && {1, 3} <= s.live
    requires HostAndGuest(s.srv) && s.srv.heap[3].userID == 3 && "h" !in s.srv.rooms
    ensures StepsTo(Clocked, s, e, s') && s'.clock == 1 && 1 in s'.live
    ensures HostAndGuest(s'.srv) && "h" in s'.srv.rooms && s'.srv.rooms["h"].players == map[3 := 3]
  {
    e := CreateGame(3, "h", V4(""));
    ThreeCreates(s.srv);
    s' := Created(s, 3, "h", V4(""));
  }

  /** The host of a room joins a second one, by a clock that does not run backwards,
      and is then junior to a guest of its own room. */
  lemma HostRestamped() returns (es: seq<Event>, e: Event)
    ensures Run(Clocked, INITIAL, es)
    ensures var s := After(Clocked, INITIAL, es);
      && Enabled(s, e) && e.Join? && s.clock <= e.now
      && "g" in Step(s, e).srv.rooms && !Seniority.HostIsSenior(Step(s, e).srv, "g")
  {
    var s, s';
    es, s := ThreeConnect(Clocked);
    e, s' := UserOneCreates(Clocked, s);
    Extend(Clocked, es, s, e, s');
    es, s := es + [e], s';
    e, s' := UserTwoEnters(Clocked, s);
    Extend(Clocked, es, s, e, s');
    es, s := es + [e], s';
    e, s' := UserThreeCreates(s);
    Extend(Clocked, es, s, e, s');
    es, s := es + [e], s';
    e := Join(1, "h", "", 2);
    ReachedByRun(Clocked, es, s);
    OneJoins(s);
  }

  lemma OneJoins(s: System)
    requires Consistent(s) && 1 in s.live && HostAndGuest(s.srv)
    requires "h" in s.srv.rooms && s.srv.rooms["h"].players == map[3 := 3]
    ensures var s' := Joined(s, 1, "h", "", 2); "g" in s'.srv.rooms && !Seniority.HostIsSenior(s'.srv, "g")
  {
    var s' := Joined(s, 1, "h", "", 2);
    assert s'.srv.rooms["g"] == s.srv.rooms["g"];
    assert s'.srv.heap[1].joinedAt == 2 && s'.srv.heap[2].joinedAt == 1;
    assert 2 in s'.srv.rooms["g"].players && s'.srv.rooms["g"].players[2] == 2;
  }
}
