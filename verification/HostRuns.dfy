/** The manager over whole runs, hand-overs included. Its address tables stay inverse
    and its allocator is first-fit over exactly 253 addresses whatever happens; all
    four maps stay in agreement exactly as long as no host starts away from its
    peer's assigned address. */
module HostRuns {
  import opened Wire
  import opened Addresses
  import opened HostTables
  import opened Migration

  datatype Event =
    | Assign(p: PeerId)
    | StartHost(p: PeerId, ip: string, kind: HostType, opens: bool)
    /** A peer arrives in mid-game: assign, start a guest, record it (dynamicJoin). */
    | DynamicJoin(p: PeerId, opens: bool)
    /** Stop some host, perhaps one long replaced, in the name of an address. */
    | StopHost(h: FakeHost, ip: string)
    | RemovePeer(p: PeerId)
    /** A deleting walk over the hosts that match: by address prefix, or inactive. */
    | RemoveMatching(ips: seq<string>)
    | StopEverything(order: seq<string>)
    /** This client becomes the host: stop every peer's host, dial the peers in
        `again`, which is all of them unless a dial fails. */
    | HandOver(order: seq<PeerId>, again: seq<PeerId>)
    /** Another peer becomes the host. */
    | OtherHost(newHost: PeerId, opens: bool)

  function Joined(t: Tables, x: Octet, p: PeerId, opens: bool): Tables {
    match AssignIP(t, x, p)
    case (t1, None) => t1
    case (t1, Some(ip)) =>
      match Start(t1, p, ip, Dial, opens)
      case (t2, None) => t2
      case (t2, Some(h)) => SetHost(t2, ip, p, h)
  }

  predicate Enabled(t: Tables, e: Event) {
    e.HandOver? ==> Walks(e.order, t.peerHosts.Keys) && WalksSome(e.again, StopPeers(t, e.order).1.Keys)
  }

  function Step(x: Octet, t: Tables, e: Event): Tables
    requires Enabled(t, e)
  {
    match e
    case Assign(p) => AssignIP(t, x, p).0
    case StartHost(p, ip, kind, opens) => Start(t, p, ip, kind, opens).0
    case DynamicJoin(p, opens) => Joined(t, x, p, opens)
    case StopHost(h, ip) => Stop(t, h, ip)
    case RemovePeer(p) => RemoveByRemoteID(t, p)
    case RemoveMatching(ips) => StopEach(t, ips)
    case StopEverything(order) => StopAll(t, order)
    case HandOver(order, again) => Rebound(t, order, again)
    case OtherHost(h, opens) => Relistened(t, h, opens)
  }

  /** Peer ids are not empty. */
  predicate Named(e: Event) {
    match e
    case Assign(p) => p != ""
    case DynamicJoin(p, opens) => p != ""
    case _ => true
  }

  predicate Run(x: Octet, t: Tables, es: seq<Event>)
    decreases |es|
  {
    es == [] || (Enabled(t, es[0]) && Named(es[0]) && Run(x, Step(x, t, es[0]), es[1..]))
  }

  function After(x: Octet, t: Tables, es: seq<Event>): Tables
    requires Run(x, t, es)
    decreases |es|
  {
    if es == [] then t else After(x, Step(x, t, es[0]), es[1..])
  }

  // ----- The address tables, in any run -----

  /** An assignment holds both ways, and within the pool. */
  predicate Sound(x: Octet, t: Tables) {
    Inverses(t) && t.ipToPeerID.Keys <= Pool(x)
  }

  lemma AssignSound(x: Octet, t: Tables, p: PeerId)
    requires Sound(x, t) && p != ""
    ensures Sound(x, AssignIP(t, x, p).0)
  {
    AssignInverses(t, x, p);
    LowestFreeSpec(x, t.ipToPeerID.Keys, FIRST);
  }

  lemma StopSound(x: Octet, t: Tables, h: FakeHost, ip: string)
    requires Sound(x, t)
    ensures Sound(x, Stop(t, h, ip))
  {
    StopInverses(t, h, ip);
  }

  lemma {:induction false} StopEachSound(x: Octet, t: Tables, ips: seq<string>)
    requires Sound(x, t)
    ensures Sound(x, StopEach(t, ips))
    decreases |ips|
  {
    if ips != [] {
      var rest, ip := StopEach(t, ips[..|ips| - 1]), ips[|ips| - 1];
      StopEachSound(x, t, ips[..|ips| - 1]);
      if ip in rest.hosts { StopSound(x, rest, rest.hosts[ip], ip); }
    }
  }

  lemma {:induction false} StopPeersSound(x: Octet, t: Tables, order: seq<PeerId>)
    requires Sound(x, t)
    ensures Sound(x, StopPeers(t, order).0)
    decreases |order|
  {
    if order != [] {
      var rest, p := StopPeers(t, order[..|order| - 1]).0, order[|order| - 1];
      StopPeersSound(x, t, order[..|order| - 1]);
      if p in rest.peerHosts { StopSound(x, rest, rest.peerHosts[p], rest.peerHosts[p].ip); }
    }
  }

  /** Starting hosts, wherever, leaves the address tables alone. */
  lemma {:induction false} StartEachAssigns(t: Tables, order: seq<PeerId>, ipOf: map<PeerId, string>, kind: HostType)
    requires forall i | 0 <= i < |order| :: order[i] in ipOf
    ensures var t' := StartEach(t, order, ipOf, kind); t'.peerIPs == t.peerIPs && t'.ipToPeerID == t.ipToPeerID
    decreases |order|
  {
    if order != [] { StartEachAssigns(t, order[..|order| - 1], ipOf, kind); }
  }

  /** What an arrival in mid-game does to the address tables. */
  lemma JoinAssigns(t: Tables, x: Octet, p: PeerId, opens: bool)
    requires Inverses(t) && p != ""
    ensures var t', t1 := Joined(t, x, p, opens), AssignIP(t, x, p).0;
            t'.peerIPs == t1.peerIPs && t'.ipToPeerID == t1.ipToPeerID
  {
    AssignInverses(t, x, p);
  }

  lemma StepSound(x: Octet, t: Tables, e: Event)
    requires Sound(x, t) && Enabled(t, e) && Named(e)
    ensures Sound(x, Step(x, t, e))
  {
    match e
    case Assign(p) => AssignSound(x, t, p);
    case StartHost(p, ip, kind, opens) =>
    case DynamicJoin(p, opens) =>
      AssignSound(x, t, p);
      JoinAssigns(t, x, p, opens);
    case StopHost(h, ip) => StopSound(x, t, h, ip);
    case RemovePeer(p) =>
      if p in t.peerIPs && t.peerIPs[p] in t.hosts { StopSound(x, t, t.hosts[t.peerIPs[p]], t.peerIPs[p]); }
    case RemoveMatching(ips) => StopEachSound(x, t, ips);
    case StopEverything(order) =>
    case HandOver(order, again) =>
      StopPeersSound(x, t, order);
      StartEachAssigns(StopPeers(t, order).0, again, StopPeers(t, order).1, Dial);
    case OtherHost(h, opens) =>
      if h in t.peerIPs && t.peerIPs[h] in t.hosts { StopSound(x, t, t.hosts[t.peerIPs[h]], t.peerIPs[h]); }
  }

  lemma {:induction false} RunSound(x: Octet, t: Tables, es: seq<Event>)
    requires Sound(x, t) && Run(x, t, es)
    ensures Sound(x, After(x, t, es))
    decreases |es|
  {
    if es != [] {
      StepSound(x, t, es[0]);
      RunSound(x, Step(x, t, es[0]), es[1..]);
    }
  }

  lemma FreeCount(x: Octet, used: set<string>)
    requires used <= Pool(x)
    ensures LowestFree(x, used, FIRST).Some? <==> |used| < 253
    ensures match LowestFree(x, used, FIRST)
            case None => true
            case Some(i) => Address(x, i) in Pool(x) && |used + {Address(x, i)}| == |used| + 1
  {
    PoolExhausted(x, used);
    LowestFreeSpec(x, used, FIRST);
    match LowestFree(x, used, FIRST)
    case None => assert Pool(x) <= used;
    case Some(i) => assert Address(x, i) in Pool(x) && Address(x, i) !in used;
  }

  /** A new peer's request, in tables within the pool. */
  lemma AssignsLowest(x: Octet, t: Tables, p: PeerId)
    requires Sound(x, t) && p !in t.peerIPs
    ensures match AssignIP(t, x, p).1
            case None => |t.ipToPeerID.Keys| == 253
            case Some(ip) =>
              && |t.ipToPeerID.Keys| < 253
              && exists i :: 2 <= i <= 254 && ip == Address(x, i) && ip !in t.ipToPeerID
                             && forall j | 2 <= j < i :: Address(x, j) in t.ipToPeerID
  {
    var used := t.ipToPeerID.Keys;
    FreeCount(x, used);
    LowestFreeSpec(x, used, FIRST);
    PoolExhausted(x, used);
    match LowestFree(x, used, FIRST)
    case None =>
    case Some(i) => assert forall j | 2 <= j < i :: Address(x, j) in t.ipToPeerID;
  }

  /** Main result, after any run whatever, hand-overs and hosts started at any address
      included: asking again for a peer's address gives the same one; a new peer gets
      the lowest 127.0.x.i, 2 <= i <= 254, that nobody holds; and the request fails
      exactly when the peer holds none and all 253 are held. */
  lemma AllocatorIsFirstFit(x: Octet, es: seq<Event>, p: PeerId)
    requires Run(x, FRESH, es) && p != ""
    ensures var t := After(x, FRESH, es);
            var (t', ip) := AssignIP(t, x, p);
            && (ip.None? <==> p !in t.peerIPs && |t.ipToPeerID.Keys| == 253)
            && (p in t.peerIPs ==> t' == t && ip == Some(t.peerIPs[p]))
            && (p !in t.peerIPs && ip.Some? ==>
                  exists i :: 2 <= i <= 254 && ip.value == Address(x, i) && ip.value !in t.ipToPeerID
                              && forall j | 2 <= j < i :: Address(x, j) in t.ipToPeerID)
            && (p !in t.peerIPs && ip.Some? ==>
                  t' == t.(peerIPs := t.peerIPs[p := ip.value], ipToPeerID := t.ipToPeerID[ip.value := p]))
            && (ip.None? ==> t' == t)
            && (ip.Some? ==> AssignIP(t', x, p) == (t', ip))
  {
    var t := After(x, FRESH, es);
    RunSound(x, FRESH, es);
    AssignInverses(t, x, p);
    if p !in t.peerIPs { AssignsLowest(x, t, p); }
  }

  /** After a disciplined run, a departure takes away exactly the departed peer: its host
      is stopped and its address free again. */
  lemma DepartedPeersAreGone(x: Octet, es: seq<Event>, p: PeerId)
    requires Run(x, FRESH, es) && Disciplined(x, FRESH, es)
    ensures PeerGone(After(x, FRESH, es), Step(x, After(x, FRESH, es), RemovePeer(p)), p)
  {
    TablesAgree(x, es);
    RemovalExactly(After(x, FRESH, es), p);
  }

  /** Main result: after any run whatever, distinct peers hold distinct addresses. */
  lemma AddressesAreDistinct(x: Octet, es: seq<Event>, p: PeerId, q: PeerId)
    requires Run(x, FRESH, es)
    requires var t := After(x, FRESH, es); p in t.peerIPs && q in t.peerIPs && p != q
    ensures After(x, FRESH, es).peerIPs[p] != After(x, FRESH, es).peerIPs[q]
  {
    RunSound(x, FRESH, es);
  }

  // ----- All four maps -----

  /** The event starts no host away from its peer's assigned address. */
  predicate Allows(t: Tables, e: Event) {
    match e
    case StartHost(p, ip, kind, opens) => ip in t.hosts || !opens || (p in t.peerIPs && t.peerIPs[p] == ip)
    case HandOver(order, again) => again == []
    case OtherHost(h, opens) => h !in t.peerHosts || !opens
    case _ => true
  }

  predicate Disciplined(x: Octet, t: Tables, es: seq<Event>)
    requires Run(x, t, es)
    decreases |es|
  {
    es == [] || (Allows(t, es[0]) && Disciplined(x, Step(x, t, es[0]), es[1..]))
  }

  /** Once a host is started on its peer's assigned address, recording it changes
      nothing. */
  lemma RecordingIsIdle(t: Tables, p: PeerId, ip: string, kind: HostType)
    requires ip !in t.hosts && p in t.peerIPs && t.peerIPs[p] == ip && ip in t.ipToPeerID && t.ipToPeerID[ip] == p
    ensures var (t', h) := Start(t, p, ip, kind, true);
            h.Some? && SetHost(t', ip, p, h.value) == t'
  {
  }

  /** What an arrival in mid-game amounts to. */
  lemma JoinIsAssignAndStart(t: Tables, x: Octet, p: PeerId, opens: bool)
    requires Inverses(t) && p != ""
    ensures var (t', ip) := AssignIP(t, x, p);
            Joined(t, x, p, opens) == if ip.Some? then Start(t', p, ip.value, Dial, opens).0 else t'
  {
    AssignInverses(t, x, p);
    var (t', ip) := AssignIP(t, x, p);
    if ip.Some? && ip.value !in t'.hosts { RecordingIsIdle(t', p, ip.value, Dial); }
  }

  lemma JoinAgreed(t: Tables, x: Octet, p: PeerId, opens: bool)
    requires Agreed(t) && p != ""
    ensures Agreed(Joined(t, x, p, opens))
  {
    AssignAgreed(t, x, p);
    AssignInverses(t, x, p);
    JoinIsAssignAndStart(t, x, p, opens);
    var (t1, ip) := AssignIP(t, x, p);
    if ip.Some? { StartAgreed(t1, p, ip.value, Dial, opens); }
  }

  /** The discipline is exact, event by event: from agreement, a step keeps the four
      maps in agreement if and only if it starts no host away from its peer's assigned
      address. */
  lemma StepAgreesExactly(x: Octet, t: Tables, e: Event)
    requires Agreed(t) && Enabled(t, e) && Named(e)
    ensures Agreed(Step(x, t, e)) <==> Allows(t, e)
  {
    match e
    case Assign(p) => AssignAgreed(t, x, p);
    case StartHost(p, ip, kind, opens) => if ip !in t.hosts && opens { StartAgreedExactly(t, p, ip, kind); }
    case DynamicJoin(p, opens) => JoinAgreed(t, x, p, opens);
    case StopHost(h, ip) => StopAgreed(t, h, ip);
    case RemovePeer(p) =>
      if p in t.peerIPs && t.peerIPs[p] in t.hosts { StopAgreed(t, t.hosts[t.peerIPs[p]], t.peerIPs[p]); }
    case RemoveMatching(ips) => StopEachAgreed(t, ips);
    case StopEverything(order) =>
    case HandOver(order, again) =>
      AllStopped(t, order);
      ReboundAgreesExactly(t, order, again);
    case OtherHost(h, opens) => RelistenedAgreesExactly(t, h, opens);
  }

  lemma {:induction false} RunAgreed(x: Octet, t: Tables, es: seq<Event>)
    requires Agreed(t) && Run(x, t, es) && Disciplined(x, t, es)
    ensures Agreed(After(x, t, es))
    decreases |es|
  {
    if es != [] {
      StepAgreesExactly(x, t, es[0]);
      RunAgreed(x, Step(x, t, es[0]), es[1..]);
    }
  }

  /** Main result: in every run that starts no host away from its peer's assigned
      address, whatever it stops and in whatever name, PeerIPs and IPToPeerID are
      inverse and Hosts and PeerHosts hold the same hosts through them. */
  lemma TablesAgree(x: Octet, es: seq<Event>)
    requires Run(x, FRESH, es) && Disciplined(x, FRESH, es)
    ensures Agreed(After(x, FRESH, es))
  {
    RunAgreed(x, FRESH, es);
  }
}
