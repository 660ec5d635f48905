/** The fake-host manager's four maps (internal/backend/redirect/host_manager.go)
    and what each operation does to them. */
module HostTables {
  import opened Wire
  import opened Addresses

  type PeerId = string

  /** DIAL hosts stand for guests of a game hosted here, LISTEN hosts for players
      of a game we joined. */
  datatype HostType = Dial | Listen

  /** A running proxy; `serial` tells apart hosts started at different times. */
  datatype FakeHost = FakeHost(serial: nat, kind: HostType, ip: string)

  datatype Tables = Tables(
    hosts: map<string, FakeHost>,
    peerHosts: map<PeerId, FakeHost>,
    peerIPs: map<PeerId, string>,
    ipToPeerID: map<string, PeerId>,
    /** The next serial. */
    started: nat,
    /** Every host stopped so far, in order. */
    stopped: seq<FakeHost>)

  const FRESH := Tables(map[], map[], map[], map[], 0, [])

  // ----- Operations -----

  /** The lowest last octet from i on whose address is free. */
  function LowestFree(x: Octet, used: set<string>, i: nat): Option<nat>
    decreases LIMIT - i
  {
    if i >= LIMIT then None
    else if Address(x, i) !in used then Some(i)
    else LowestFree(x, used, i + 1)
  }

  function AssignIP(t: Tables, x: Octet, p: PeerId): (Tables, Option<string>) {
    if p in t.peerIPs then (t, Some(t.peerIPs[p]))
    else match LowestFree(x, t.ipToPeerID.Keys, FIRST)
      case None => (t, None)
      case Some(i) =>
        var ip := Address(x, i);
        (t.(peerIPs := t.peerIPs[p := ip], ipToPeerID := t.ipToPeerID[ip := p]), Some(ip))
  }

  /** StartGuest and StartHost: `opens` says that the address parses and that the
      sockets open. */
  function Start(t: Tables, p: PeerId, ip: string, kind: HostType, opens: bool): (Tables, Option<FakeHost>) {
    if ip in t.hosts || !opens then (t, None)
    else
      var h := FakeHost(t.started, kind, ip);
      (t.(hosts := t.hosts[ip := h], peerHosts := t.peerHosts[p := h], started := t.started + 1), Some(h))
  }

  function SetHost(t: Tables, ip: string, p: PeerId, h: FakeHost): Tables {
    t.(peerIPs := t.peerIPs[p := ip], ipToPeerID := t.ipToPeerID[ip := p],
       hosts := t.hosts[ip := h], peerHosts := t.peerHosts[p := h])
  }

  /** The peer an address is assigned to; the empty id if to none. */
  function PeerAt(t: Tables, ip: string): PeerId {
    if ip in t.ipToPeerID then t.ipToPeerID[ip] else ""
  }

  /** Stop a host, not necessarily the one running at the address. */
  function Stop(t: Tables, h: FakeHost, ip: string): Tables {
    var p := PeerAt(t, ip);
    t.(hosts := t.hosts - {ip}, ipToPeerID := t.ipToPeerID - {ip},
       peerIPs := t.peerIPs - {p}, peerHosts := t.peerHosts - {p}, stopped := t.stopped + [h])
  }

  /** Stop the hosts running at the addresses, in the order given. */
  function StopEach(t: Tables, ips: seq<string>): Tables
    decreases |ips|
  {
    if ips == [] then t
    else
      var rest := StopEach(t, ips[..|ips| - 1]);
      var ip := ips[|ips| - 1];
      if ip in rest.hosts then Stop(rest, rest.hosts[ip], ip) else rest
  }

  function RemoveByRemoteID(t: Tables, p: PeerId): Tables {
    if p !in t.peerIPs || t.peerIPs[p] !in t.hosts then t
    else Stop(t, t.hosts[t.peerIPs[p]], t.peerIPs[p])
  }

  function StopAll(t: Tables, order: seq<string>): Tables {
    Tables(map[], map[], map[], map[], t.started, StopEach(t, order).stopped)
  }

  // ----- Agreement -----

  predicate Inverses(t: Tables) {
    && (forall p | p in t.peerIPs :: t.peerIPs[p] in t.ipToPeerID && t.ipToPeerID[t.peerIPs[p]] == p)
    && (forall ip | ip in t.ipToPeerID :: t.ipToPeerID[ip] in t.peerIPs && t.peerIPs[t.ipToPeerID[ip]] == ip)
    && "" !in t.peerIPs
  }

  predicate SameHosts(t: Tables) {
    && (forall ip | ip in t.hosts ::
          && ip in t.ipToPeerID
          && t.ipToPeerID[ip] in t.peerHosts
          && t.peerHosts[t.ipToPeerID[ip]] == t.hosts[ip]
          && t.hosts[ip].ip == ip)
    && (forall p | p in t.peerHosts ::
          && p in t.peerIPs
          && t.peerIPs[p] in t.hosts
          && t.hosts[t.peerIPs[p]] == t.peerHosts[p])
  }

  /** PeerIPs and IPToPeerID are inverse, and Hosts and PeerHosts hold the same
      hosts through them. */
  predicate Agreed(t: Tables) {
    Inverses(t) && SameHosts(t)
  }

  lemma {:induction false} LowestFreeSpec(x: Octet, used: set<string>, i: nat)
    ensures LowestFree(x, used, i).Some? ==>
              && i <= LowestFree(x, used, i).value < LIMIT
              && Address(x, LowestFree(x, used, i).value) !in used
              && forall j | i <= j < LowestFree(x, used, i).value :: Address(x, j) in used
    ensures LowestFree(x, used, i).None? ==> forall j | i <= j < LIMIT :: Address(x, j) in used
    decreases LIMIT - i
  {
    if i < LIMIT && Address(x, i) in used { LowestFreeSpec(x, used, i + 1); }
  }

  lemma AssignInverses(t: Tables, x: Octet, p: PeerId)
    requires Inverses(t) && p != ""
    ensures var (t', ip) := AssignIP(t, x, p);
            && Inverses(t')
            && (ip.Some? ==> p in t'.peerIPs && t'.peerIPs[p] == ip.value
                             && ip.value in t'.ipToPeerID && t'.ipToPeerID[ip.value] == p)
  {
    LowestFreeSpec(x, t.ipToPeerID.Keys, FIRST);
  }

  /** Stopping keeps the address tables inverse whatever else holds. */
  lemma StopInverses(t: Tables, h: FakeHost, ip: string)
    requires Inverses(t)
    ensures Inverses(Stop(t, h, ip))
  {
  }

  lemma {:induction false} StopEachInverses(t: Tables, ips: seq<string>)
    requires Inverses(t)
    ensures Inverses(StopEach(t, ips))
    decreases |ips|
  {
    if ips != [] {
      var rest := StopEach(t, ips[..|ips| - 1]);
      StopEachInverses(t, ips[..|ips| - 1]);
      var ip := ips[|ips| - 1];
      if ip in rest.hosts { StopInverses(rest, rest.hosts[ip], ip); }
    }
  }

  lemma AssignAgreed(t: Tables, x: Octet, p: PeerId)
    requires Agreed(t) && p != ""
    ensures Agreed(AssignIP(t, x, p).0)
  {
    LowestFreeSpec(x, t.ipToPeerID.Keys, FIRST);
  }

  /** The discipline on starting hosts is exact: a host that starts keeps the maps
      in agreement if and only if it starts on its peer's assigned address. */
  lemma StartAgreedExactly(t: Tables, p: PeerId, ip: string, kind: HostType)
    requires Agreed(t) && ip !in t.hosts
    ensures Agreed(Start(t, p, ip, kind, true).0) <==> p in t.peerIPs && t.peerIPs[p] == ip
  {
    var t' := Start(t, p, ip, kind, true).0;
    if p in t.peerIPs && t.peerIPs[p] == ip {
      assert p !in t.peerHosts;
    } else {
      assert ip in t'.hosts && p in t'.peerHosts;
    }
  }

  lemma StartAgreed(t: Tables, p: PeerId, ip: string, kind: HostType, opens: bool)
    requires Agreed(t) && p in t.peerIPs && t.peerIPs[p] == ip
    ensures Agreed(Start(t, p, ip, kind, opens).0)
  {
    if ip !in t.hosts && opens { StartAgreedExactly(t, p, ip, kind); }
  }

  /** Stopping keeps the maps in agreement whatever host it is given. */
  lemma StopAgreed(t: Tables, h: FakeHost, ip: string)
    requires Agreed(t)
    ensures Agreed(Stop(t, h, ip))
  {
  }

  /** t' is t without peer p: its host is stopped, once, and its entries are gone from
      the four maps, nobody else's. A peer without a host leaves everything as it is. */
  predicate PeerGone(t: Tables, t': Tables, p: PeerId) {
    if p !in t.peerHosts then t' == t
    else
      var h := t.peerHosts[p];
      t' == Tables(t.hosts - {h.ip}, t.peerHosts - {p}, t.peerIPs - {p}, t.ipToPeerID - {h.ip},
                   t.started, t.stopped + [h])
  }

  /** From agreement, a departure takes away exactly the departed peer. */
  lemma RemovalExactly(t: Tables, p: PeerId)
    requires Agreed(t)
    ensures PeerGone(t, RemoveByRemoteID(t, p), p)
  {
    if p in t.peerIPs && t.peerIPs[p] in t.hosts { assert t.ipToPeerID[t.peerIPs[p]] == p; }
  }

  lemma {:induction false} StopEachAgreed(t: Tables, ips: seq<string>)
    requires Agreed(t)
    ensures Agreed(StopEach(t, ips))
    decreases |ips|
  {
    if ips != [] {
      var rest := StopEach(t, ips[..|ips| - 1]);
      StopEachAgreed(t, ips[..|ips| - 1]);
      var ip := ips[|ips| - 1];
      if ip in rest.hosts { StopAgreed(rest, rest.hosts[ip], ip); }
    }
  }

  // ----- What stopping a batch of hosts leaves -----

  function PeersAt(t: Tables, ips: seq<string>): set<PeerId> {
    set ip | ip in ips :: PeerAt(t, ip)
  }

  predicate DistinctHosts(t: Tables, ips: seq<string>) {
    && (forall i | 0 <= i < |ips| :: ips[i] in t.hosts)
    && (forall i, j | 0 <= i < j < |ips| :: ips[i] != ips[j])
  }

  function HostsAt(t: Tables, ips: seq<string>): seq<FakeHost>
    requires DistinctHosts(t, ips)
  {
    seq(|ips|, i requires 0 <= i < |ips| && ips[i] in t.hosts => t.hosts[ips[i]])
  }

  function Without(t: Tables, ips: seq<string>): Tables
    requires DistinctHosts(t, ips)
  {
    var gone := set ip | ip in ips;
    t.(hosts := t.hosts - gone, ipToPeerID := t.ipToPeerID - gone,
       peerIPs := t.peerIPs - PeersAt(t, ips), peerHosts := t.peerHosts - PeersAt(t, ips),
       stopped := t.stopped + HostsAt(t, ips))
  }

  /** Stopping running hosts one after another removes them and their assignments,
      nothing else, and stops each of them once. */
  lemma {:induction false} StopEachExactly(t: Tables, ips: seq<string>)
    requires Agreed(t) && DistinctHosts(t, ips)
    ensures StopEach(t, ips) == Without(t, ips)
    decreases |ips|
  {
    if ips == [] {
      assert t.stopped + HostsAt(t, []) == t.stopped;
    } else {
      var init, ip := ips[..|ips| - 1], ips[|ips| - 1];
      StopEachExactly(t, init);
      assert ips == init + [ip];
      WithoutOneMore(t, init, ip);
    }
  }

  lemma WithoutOneMore(t: Tables, init: seq<string>, ip: string)
    requires Agreed(t) && DistinctHosts(t, init + [ip]) && DistinctHosts(t, init)
    ensures ip in Without(t, init).hosts
    ensures Stop(Without(t, init), Without(t, init).hosts[ip], ip) == Without(t, init + [ip])
  {
    var ips := init + [ip];
    var rest := Without(t, init);
    assert ips[|init|] == ip;
    forall i | 0 <= i < |init| ensures init[i] != ip { assert ips[i] == init[i]; }
    assert (set a | a in ips) == (set a | a in init) + {ip};
    assert PeersAt(t, ips) == PeersAt(t, init) + {PeerAt(t, ip)};
    assert PeerAt(rest, ip) == PeerAt(t, ip);
    assert HostsAt(t, ips) == HostsAt(t, init) + [t.hosts[ip]];
  }

  /** t' is t once the hosts at these addresses have been stopped, as far as Hosts shows. */
  ghost predicate HostsStopped(t: Tables, t': Tables, ips: seq<string>)
    requires DistinctHosts(t, ips)
  {
    && (forall ip :: ip in t'.hosts <==> ip in t.hosts && ip !in ips)
    && (forall ip | ip in t'.hosts :: t'.hosts[ip] == t.hosts[ip])
    && t'.stopped == t.stopped + HostsAt(t, ips) && t'.started == t.started
  }

  lemma StoppedOneMore(t: Tables, rest: Tables, init: seq<string>, ip: string)
    requires DistinctHosts(t, init) && DistinctHosts(t, init + [ip]) && HostsStopped(t, rest, init)
    ensures ip in rest.hosts && HostsStopped(t, Stop(rest, rest.hosts[ip], ip), init + [ip])
  {
    var ips := init + [ip];
    assert ips[|init|] == ip;
    forall i | 0 <= i < |init| ensures init[i] != ip { assert ips[i] == init[i]; }
    assert HostsAt(t, ips) == HostsAt(t, init) + [t.hosts[ip]];
  }

  /** Whatever the maps hold, stopping running hosts one after another takes exactly
      those from Hosts, and stops each of them once. */
  lemma {:induction false} StopEachHosts(t: Tables, ips: seq<string>)
    requires DistinctHosts(t, ips)
    ensures HostsStopped(t, StopEach(t, ips), ips)
    decreases |ips|
  {
    if ips == [] {
      assert t.stopped + HostsAt(t, []) == t.stopped;
    } else {
      var init, ip := ips[..|ips| - 1], ips[|ips| - 1];
      StopEachHosts(t, init);
      assert ips == init + [ip];
      StoppedOneMore(t, StopEach(t, init), init, ip);
    }
  }

  /** Every host of t has been stopped, once, in the order given, and nothing else is
      left of t. */
  ghost predicate Emptied(t: Tables, t': Tables, ips: seq<string>) {
    && DistinctHosts(t, ips) && (forall ip :: ip in ips <==> ip in t.hosts)
    && t' == Tables(map[], map[], map[], map[], t.started, t.stopped + HostsAt(t, ips))
  }

  lemma StopAllEmpties(t: Tables, ips: seq<string>)
    requires DistinctHosts(t, ips) && forall ip :: ip in ips <==> ip in t.hosts
    ensures Emptied(t, StopAll(t, ips), ips)
  {
    StopEachHosts(t, ips);
  }
}
