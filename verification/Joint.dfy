/** The console and the relay server together: whom the relay keeps in its rooms. Its
    handshake asks the console for the user's session, and the console tells it of
    departures, naming the room that the session names. */
module Joint {
  import opened Wire
  import opened Addresses
  import opened ControlPlane
  import P = Protocol
  import R = RelayRooms

  // ----- Peer ids as numbers -----

  predicate IsDigit(c: char) {
    '0' <= c <= '9'
  }

  predicate AllDigits(s: string) {
    forall i | 0 <= i < |s| :: IsDigit(s[i])
  }

  function Value(s: string): nat
    requires AllDigits(s)
  {
    if s == [] then 0 else 10 * Value(s[..|s| - 1]) + (s[|s| - 1] as int - '0' as int)
  }

  const MAX := 0x7fff_ffff_ffff_ffff

  /** The number in range nearest to n. */
  function InRange(n: int): int {
    if n < -MAX - 1 then -MAX - 1 else if n > MAX then MAX else n
  }

  /** The user a peer id speaks for, as strconv.ParseInt reads it with its error ignored:
      0 if it is no number, and the nearest number in range if it is out of range. */
  function SpeaksFor(p: string): UserId {
    var signed := p != "" && (p[0] == '+' || p[0] == '-');
    var digits := if signed then p[1..] else p;
    if digits == "" || !AllDigits(digits) then 0
    else InRange(if signed && p[0] == '-' then 0 - Value(digits) else Value(digits))
  }

  lemma UnsignedSpeaks(digits: string)
    requires digits != "" && AllDigits(digits)
    ensures SpeaksFor(digits) == InRange(Value(digits))
  {
    assert IsDigit(digits[0]);
  }

  lemma NegativeSpeaks(digits: string)
    requires digits != "" && AllDigits(digits)
    ensures SpeaksFor("-" + digits) == InRange(0 - Value(digits))
  {
    assert ("-" + digits)[1..] == digits;
  }

  lemma {:induction false} DecimalValue(n: nat)
    ensures Decimal(n) != "" && AllDigits(Decimal(n)) && Value(Decimal(n)) == n
  {
    DigitValue(n % 10);
    if n < 10 {
      assert Decimal(n)[..0] == [];
    } else {
      DecimalValue(n / 10);
      var s := Decimal(n);
      assert s[..|s| - 1] == Decimal(n / 10) && s[|s| - 1] == Digit(n % 10);
    }
  }

  lemma DigitValue(n: nat)
    requires n < 10
    ensures IsDigit(Digit(n)) && Digit(n) as int - '0' as int == n
  {
  }

  lemma NameReads(n: nat)
    ensures SpeaksFor(Decimal(n)) == InRange(n) && SpeaksFor("-" + Decimal(n)) == InRange(0 - n)
  {
    DecimalValue(n);
    UnsignedSpeaks(Decimal(n));
    NegativeSpeaks(Decimal(n));
  }

  /** A user's own peer id speaks for that user. */
  lemma NameSpeaks(u: UserId)
    requires -MAX - 1 <= u <= MAX
    ensures SpeaksFor(PeerName(u)) == u
  {
    NameReads(if u < 0 then 0 - u else u);
  }

  /** Ids that are no number speak for user 0, and numbers out of range for the nearest
      user in range. */
  lemma OtherIdsSpeak(digits: string)
    requires digits != "" && AllDigits(digits) && Value(digits) > MAX
    ensures SpeaksFor(digits) == SpeaksFor("+" + digits) == 0x7fff_ffff_ffff_ffff
    ensures SpeaksFor("-" + digits) == -0x8000_0000_0000_0000
    ensures SpeaksFor("") == SpeaksFor("-") == SpeaksFor("7a") == SpeaksFor(digits + " ") == 0
  {
    UnsignedSpeaks(digits);
    NegativeSpeaks(digits);
    assert ("+" + digits)[1..] == digits;
    assert !IsDigit("7a"[1]) && !IsDigit((digits + " ")[|digits|]);
  }

  // ----- The joint machine -----

  datatype Joint = Joint(system: P.System, relay: R.Relay)

  const START := Joint(P.INITIAL, R.EMPTY)

  datatype Event =
    /** A step of the console and its clients; a departure tells the relay too. */
    | OnConsole(e: P.Event)
    /** A step of the relay server. */
    | OnRelay(r: R.Event)

  predicate Enabled(j: Joint, e: Event)
    requires P.Consistent(j.system)
  {
    match e
    case OnConsole(e) => P.Enabled(j.system, e)
    case OnRelay(r) =>
      && R.Enabled(j.relay, r)
      && (r.JoinEvent? ==> SpeaksFor(r.peerID) in j.system.srv.sessions)
  }

  function Step(j: Joint, e: Event): (j': Joint)
    requires P.Consistent(j.system) && Enabled(j, e)
    ensures P.Consistent(j'.system)
  {
    match e
    case OnConsole(e) =>
      if e.Disconnect? then
        var us := j.system.srv.heap[e.r];
        Joint(P.Step(j.system, e), R.Leave(j.relay, PeerName(us.userID), us.gameID))
      else j.(system := P.Step(j.system, e))
    case OnRelay(r) => j.(relay := R.Step(j.relay, r))
  }

  /** Every peer in a relay room speaks for a registered user. */
  ghost predicate OnlyRegistered(j: Joint) {
    forall p, t | p in R.PeersOf(j.relay, t) :: SpeaksFor(p) in j.system.srv.sessions
  }

  /** A user's peers in relay rooms are just the one of the user's own name, in the room
      that the user's session names, and indexed. */
  ghost predicate RelayRoomIsGame(j: Joint, x: Ref)
    requires x in j.system.srv.heap
  {
    var us := j.system.srv.heap[x];
    forall p, t | p in R.PeersOf(j.relay, t) && SpeaksFor(p) == us.userID ::
      p == PeerName(us.userID) && t == us.gameID && p in j.relay.peerToRoomIDs
  }

  ghost predicate Allows(j: Joint, e: Event)
    requires P.Consistent(j.system) && Enabled(j, e)
  {
    e.OnConsole? && e.e.Disconnect? ==> RelayRoomIsGame(j, e.e.r)
  }

  ghost predicate Run(j: Joint, es: seq<Event>)
    requires P.Consistent(j.system)
    decreases |es|
  {
    es == [] || (Enabled(j, es[0]) && Allows(j, es[0]) && Run(Step(j, es[0]), es[1..]))
  }

  ghost function After(j: Joint, es: seq<Event>): (j': Joint)
    requires P.Consistent(j.system) && Run(j, es)
    ensures P.Consistent(j'.system)
    decreases |es|
  {
    if es == [] then j else After(Step(j, es[0]), es[1..])
  }

  // ----- Each step -----

  lemma CreateSessions(s: Server, u: UserId, g: RoomId, ip: string)
    requires WellFormed(s)
    ensures Create(s, u, g, ip).0.sessions == s.sessions
  {
  }

  lemma JoinSessions(s: Server, g: RoomId, u: UserId, ip: string, now: Time)
    requires WellFormed(s)
    ensures JoinGame(s, g, u, ip, now).sessions == s.sessions
  {
  }

  /** Nobody but a departed user loses a registration. */
  lemma SessionsStay(s: P.System, e: P.Event, u: UserId)
    requires P.Consistent(s) && P.Enabled(s, e) && u in s.srv.sessions
    requires e.Disconnect? ==> s.srv.heap[e.r].userID != u
    ensures u in P.Step(s, e).srv.sessions
  {
    match e
    case Connect(r, us, order) =>
    case Disconnect(x, next) => LeaveTables(s.srv, x, next);
    case CreateGame(c, g, addr) => CreateSessions(s.srv, s.clients[c].userID, g, addr.text);
    case Select(c, g) =>
    case Join(c, g, ip, now) => JoinSessions(s.srv, g, s.clients[c].userID, ip, now);
    case Enter(c, g, ip, now) => JoinSessions(s.srv, g, s.clients[c].userID, ip, now);
    case Reselect(c, characterID, classType) =>
    case Deliver(c) =>
  }

  /** What a departure leaves in the tables. */
  lemma DepartureLeaves(j: Joint, e: P.Event, p: R.PeerId, t: RoomId)
    requires P.Consistent(j.system) && P.Enabled(j.system, e) && e.Disconnect?
    ensures var j', us := Step(j, OnConsole(e)), j.system.srv.heap[e.r];
            && j'.system.srv.sessions == j.system.srv.sessions - {us.userID}
            && (p in R.PeersOf(j'.relay, t) <==> (
                  && p in R.PeersOf(j.relay, t)
                  && !(p in j.relay.peerToRoomIDs && p == PeerName(us.userID) && t == us.gameID)))
  {
    var us := j.system.srv.heap[e.r];
    LeaveTables(j.system.srv, e.r, e.next);
    R.LeavePeers(j.relay, PeerName(us.userID), us.gameID, p, t);
  }

  /** A departure is exact: it leaves only registered users in relay rooms if and only if
      the departed user had no peer there but its own, in the room its session names. */
  lemma DepartureExactly(j: Joint, e: P.Event)
    requires P.Consistent(j.system) && P.Enabled(j.system, e) && e.Disconnect? && OnlyRegistered(j)
    ensures OnlyRegistered(Step(j, OnConsole(e))) <==> RelayRoomIsGame(j, e.r)
  {
    var j', us := Step(j, OnConsole(e)), j.system.srv.heap[e.r];
    if RelayRoomIsGame(j, e.r) {
      forall p, t | p in R.PeersOf(j'.relay, t) ensures SpeaksFor(p) in j'.system.srv.sessions {
        DepartureLeaves(j, e, p, t);
      }
    }
    if OnlyRegistered(j') {
      forall p, t | p in R.PeersOf(j.relay, t) && SpeaksFor(p) == us.userID
        ensures p == PeerName(us.userID) && t == us.gameID && p in j.relay.peerToRoomIDs
      {
        DepartureLeaves(j, e, p, t);
      }
    }
  }

  lemma StepOnlyRegistered(j: Joint, e: Event)
    requires P.Consistent(j.system) && Enabled(j, e) && OnlyRegistered(j) && Allows(j, e)
    ensures OnlyRegistered(Step(j, e))
  {
    var j' := Step(j, e);
    match e
    case OnConsole(c) =>
      if c.Disconnect? {
        DepartureExactly(j, c);
      } else {
        forall p, t | p in R.PeersOf(j'.relay, t) ensures SpeaksFor(p) in j'.system.srv.sessions {
          SessionsStay(j.system, c, SpeaksFor(p));
        }
      }
    case OnRelay(r) =>
      forall p, t | p in R.PeersOf(j'.relay, t) ensures SpeaksFor(p) in j'.system.srv.sessions {
        R.StepPeers(j.relay, r, p, t);
      }
  }

  lemma {:induction false} RunOnlyRegistered(j: Joint, es: seq<Event>)
    requires P.Consistent(j.system) && OnlyRegistered(j) && Run(j, es)
    ensures OnlyRegistered(After(j, es))
    decreases |es|
  {
    if es != [] {
      StepOnlyRegistered(j, es[0]);
      RunOnlyRegistered(Step(j, es[0]), es[1..]);
    }
  }

  /** Main result: in every run of console and relay in which users depart with their
      relay room the one their session names, every peer in a relay room speaks for a
      registered user. */
  lemma RelayHoldsOnlyRegistered(es: seq<Event>)
    requires Run(START, es)
    ensures OnlyRegistered(After(START, es))
  {
    RunOnlyRegistered(START, es);
  }

  // ----- An id that is not a user's name -----

  const SEVEN := UserSession(7, 7, "", 0, "", Profile("", 0, 0))
  const HELLO := OnConsole(P.Connect(1, SEVEN, []))
  const ODD_JOIN := OnRelay(R.JoinEvent("g", "007", 0, []))
  const BYE := OnConsole(P.Disconnect(1, 0))

  lemma OddNameSpeaks()
    ensures SpeaksFor("007") == 7 && PeerName(7) == "7"
  {
    assert "007"[..2] == "00" && "00"[..1] == "0" && "0"[..0] == "";
    assert Value("0") == 0 && Value("00") == 0 && Value("007") == 7;
  }

  lemma AfterHello()
    ensures Enabled(START, HELLO)
    ensures Step(START, HELLO).relay == R.EMPTY
    ensures Step(START, HELLO).system.srv.sessions == map[7 := 1]
    ensures Step(START, HELLO).system.srv.heap == map[1 := SEVEN]
    ensures Step(START, HELLO).system.srv.rooms == map[] && Step(START, HELLO).system.live == {1}
  {
  }

  lemma AfterOddJoin(j: Joint)
    requires P.Consistent(j.system) && j.relay == R.EMPTY && 7 in j.system.srv.sessions
    ensures Enabled(j, ODD_JOIN) && Step(j, ODD_JOIN).system == j.system
    ensures forall t, p :: p in R.PeersOf(Step(j, ODD_JOIN).relay, t) <==> t == "g" && p == "007"
  {
    OddNameSpeaks();
  }

  lemma OneMore(j: Joint, e: Event, rest: seq<Event>)
    requires P.Consistent(j.system) && Enabled(j, e) && Allows(j, e) && Run(Step(j, e), rest)
    ensures Run(j, [e] + rest) && After(j, [e] + rest) == After(Step(j, e), rest)
  {
    assert ([e] + rest)[1..] == rest;
  }

  lemma TwoSteps(j: Joint, a: Event, b: Event)
    requires P.Consistent(j.system) && Enabled(j, a) && Allows(j, a)
    requires Enabled(Step(j, a), b) && Allows(Step(j, a), b)
    ensures Run(j, [a, b]) && After(j, [a, b]) == Step(Step(j, a), b)
  {
    OneMore(Step(j, a), b, []);
    OneMore(j, a, [b] + []);
    assert [a] + ([b] + []) == [a, b];
  }

  lemma AfterBye(j: Joint)
    requires P.Consistent(j.system) && Enabled(j, BYE)
    requires j.system.srv.heap[1].userID == 7 && "007" in R.PeersOf(j.relay, "g")
    ensures "007" in R.PeersOf(Step(j, BYE).relay, "g") && 7 !in Step(j, BYE).system.srv.sessions
  {
    OddNameSpeaks();
    R.LeavePeers(j.relay, PeerName(7), j.system.srv.heap[1].gameID, "007", "g");
    LeaveTables(j.system.srv, 1, 0);
  }

  /** The departure's condition is needed: user 7 connects, a peer called 007 joins a
      relay room, and after user 7 has departed 007 is still there, speaking for nobody
      registered. */
  lemma OddNameStays()
    ensures Run(START, [HELLO, ODD_JOIN])
    ensures var j := After(START, [HELLO, ODD_JOIN]);
            && Enabled(j, BYE) && SpeaksFor("007") == 7
            && "007" in R.PeersOf(Step(j, BYE).relay, "g")
            && 7 !in Step(j, BYE).system.srv.sessions
  {
    AfterHello();
    AfterOddJoin(Step(START, HELLO));
    TwoSteps(START, HELLO, ODD_JOIN);
    OddNameSpeaks();
    AfterBye(After(START, [HELLO, ODD_JOIN]));
  }
}
