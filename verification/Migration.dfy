/** What happens to the fake hosts when the room's host changes
    (internal/backend/proxy/relay/packet_router.go): a batch of hosts is stopped, a
    batch is started. */
module Migration {
  import opened Wire
  import opened Addresses
  import opened HostTables

  /** order is one way of walking the keys. */
  predicate Walks(order: seq<PeerId>, keys: set<PeerId>) {
    && (forall i | 0 <= i < |order| :: order[i] in keys)
    && (forall i, j | 0 <= i < j < |order| :: order[i] != order[j])
    && (forall p | p in keys :: p in order)
  }

  /** order is one way of walking some of the keys. */
  predicate WalksSome(order: seq<PeerId>, keys: set<PeerId>) {
    && (forall i | 0 <= i < |order| :: order[i] in keys)
    && (forall i, j | 0 <= i < j < |order| :: order[i] != order[j])
  }

  /** A walk over the keys under way: done so far, and still to do. */
  predicate Walking(done: seq<PeerId>, todo: set<PeerId>, keys: set<PeerId>) {
    && WalksSome(done, keys)
    && todo <= keys
    && forall p | p in keys :: p in todo <==> p !in done
  }

  lemma WalkOn(done: seq<PeerId>, todo: set<PeerId>, keys: set<PeerId>, p: PeerId)
    requires Walking(done, todo, keys) && p in todo
    ensures p in keys && p !in done && Walking(done + [p], todo - {p}, keys)
  {
  }

  lemma WalkOver(done: seq<PeerId>, keys: set<PeerId>)
    requires Walking(done, {}, keys)
    ensures Walks(done, keys)
  {
  }

  /** Start a host for each peer in turn, on the address the peer is given. */
  function StartEach(t: Tables, order: seq<PeerId>, ipOf: map<PeerId, string>, kind: HostType): Tables
    requires forall i | 0 <= i < |order| :: order[i] in ipOf
    decreases |order|
  {
    if order == [] then t
    else
      var p := order[|order| - 1];
      Start(StartEach(t, order[..|order| - 1], ipOf, kind), p, ipOf[p], kind, true).0
  }

  lemma StartEachMore(t: Tables, done: seq<PeerId>, p: PeerId, ipOf: map<PeerId, string>, kind: HostType)
    requires (forall i | 0 <= i < |done| :: done[i] in ipOf) && p in ipOf
    ensures forall i | 0 <= i < |done + [p]| :: (done + [p])[i] in ipOf
    ensures StartEach(t, done + [p], ipOf, kind) == Start(StartEach(t, done, ipOf, kind), p, ipOf[p], kind, true).0
  {
    assert (done + [p])[..|done|] == done;
  }

  /** The peers are different, and so are their addresses, all of them free. */
  predicate MayStartEach(t: Tables, order: seq<PeerId>, ipOf: map<PeerId, string>) {
    && (forall i | 0 <= i < |order| :: order[i] in ipOf && ipOf[order[i]] !in t.hosts)
    && (forall i, j | 0 <= i < j < |order| :: order[i] != order[j] && ipOf[order[i]] != ipOf[order[j]])
  }

  function NthStarted(t: Tables, order: seq<PeerId>, ipOf: map<PeerId, string>, kind: HostType, i: nat): FakeHost
    requires i < |order| && order[i] in ipOf
  {
    FakeHost(t.started + i, kind, ipOf[order[i]])
  }

  /** Each peer has its new host under its id; other entries are as before. */
  ghost predicate PeersStarted(t: Tables, peerHosts: map<PeerId, FakeHost>, order: seq<PeerId>,
                               ipOf: map<PeerId, string>, kind: HostType)
    requires forall i | 0 <= i < |order| :: order[i] in ipOf
  {
    && peerHosts.Keys == t.peerHosts.Keys + (set p | p in order)
    && (forall p | p in t.peerHosts && p !in order :: peerHosts[p] == t.peerHosts[p])
    && (forall i | 0 <= i < |order| :: peerHosts[order[i]] == NthStarted(t, order, ipOf, kind, i))
  }

  /** Each peer has its new host under its address; other entries are as before. */
  ghost predicate AddressesStarted(t: Tables, hosts: map<string, FakeHost>, order: seq<PeerId>,
                                   ipOf: map<PeerId, string>, kind: HostType)
    requires forall i | 0 <= i < |order| :: order[i] in ipOf
  {
    && hosts.Keys == t.hosts.Keys + (set p | p in order :: ipOf[p])
    && (forall ip | ip in t.hosts :: hosts[ip] == t.hosts[ip])
    && (forall i | 0 <= i < |order| :: hosts[ipOf[order[i]]] == NthStarted(t, order, ipOf, kind, i))
  }

  /** t' is t with a new host for each peer, and the assignments untouched. */
  ghost predicate HasStarted(t: Tables, t': Tables, order: seq<PeerId>, ipOf: map<PeerId, string>, kind: HostType)
    requires forall i | 0 <= i < |order| :: order[i] in ipOf
  {
    && t'.peerIPs == t.peerIPs && t'.ipToPeerID == t.ipToPeerID && t'.stopped == t.stopped
    && t'.started == t.started + |order|
    && PeersStarted(t, t'.peerHosts, order, ipOf, kind)
    && AddressesStarted(t, t'.hosts, order, ipOf, kind)
  }

  lemma PeersOneMore(t: Tables, peerHosts: map<PeerId, FakeHost>, init: seq<PeerId>, p: PeerId,
                     ipOf: map<PeerId, string>, kind: HostType)
    requires MayStartEach(t, init + [p], ipOf) && p in ipOf && forall i | 0 <= i < |init| :: init[i] in ipOf
    requires PeersStarted(t, peerHosts, init, ipOf, kind)
    ensures PeersStarted(t, peerHosts[p := FakeHost(t.started + |init|, kind, ipOf[p])], init + [p], ipOf, kind)
  {
    var order := init + [p];
    assert order[|init|] == p;
    forall i | 0 <= i < |init| ensures init[i] == order[i] && init[i] != p {}
    assert (set q | q in order) == (set q | q in init) + {p};
  }

  lemma AddressesOneMore(t: Tables, hosts: map<string, FakeHost>, init: seq<PeerId>, p: PeerId,
                         ipOf: map<PeerId, string>, kind: HostType)
    requires MayStartEach(t, init + [p], ipOf) && p in ipOf && forall i | 0 <= i < |init| :: init[i] in ipOf
    requires AddressesStarted(t, hosts, init, ipOf, kind)
    ensures ipOf[p] !in hosts
    ensures AddressesStarted(t, hosts[ipOf[p] := FakeHost(t.started + |init|, kind, ipOf[p])], init + [p], ipOf, kind)
  {
    var order := init + [p];
    assert order[|init|] == p;
    forall i | 0 <= i < |init| ensures init[i] == order[i] && ipOf[init[i]] != ipOf[p] {}
    assert (set q | q in order :: ipOf[q]) == (set q | q in init :: ipOf[q]) + {ipOf[p]};
  }

  lemma StartedOneMore(t: Tables, mid: Tables, init: seq<PeerId>, p: PeerId, ipOf: map<PeerId, string>, kind: HostType)
    requires MayStartEach(t, init + [p], ipOf) && p in ipOf && forall i | 0 <= i < |init| :: init[i] in ipOf
    requires HasStarted(t, mid, init, ipOf, kind)
    ensures forall i | 0 <= i < |init + [p]| :: (init + [p])[i] in ipOf
    ensures HasStarted(t, Start(mid, p, ipOf[p], kind, true).0, init + [p], ipOf, kind)
  {
    var order, ip := init + [p], ipOf[p];
    assert forall i | 0 <= i < |order| :: order[i] in ipOf;
    PeersOneMore(t, mid.peerHosts, init, p, ipOf, kind);
    AddressesOneMore(t, mid.hosts, init, p, ipOf, kind);
    var h := FakeHost(t.started + |init|, kind, ip);
    assert Start(mid, p, ip, kind, true).0 ==
           mid.(hosts := mid.hosts[ip := h], peerHosts := mid.peerHosts[p := h], started := mid.started + 1);
    assert |order| == |init| + 1;
  }

  lemma {:induction false} StartEachExactly(t: Tables, order: seq<PeerId>, ipOf: map<PeerId, string>, kind: HostType)
    requires MayStartEach(t, order, ipOf)
    ensures HasStarted(t, StartEach(t, order, ipOf, kind), order, ipOf, kind)
    decreases |order|
  {
    if order != [] {
      var init, p := order[..|order| - 1], order[|order| - 1];
      assert order == init + [p];
      StartEachExactly(t, init, ipOf, kind);
      StartedOneMore(t, StartEach(t, init, ipOf, kind), init, p, ipOf, kind);
    }
  }

  /** Peer p has its new host, under its id and under its address. */
  predicate HasNew(t: Tables, t': Tables, p: PeerId, ip: string, kind: HostType) {
    && p in t'.peerHosts && t'.peerHosts[p].kind == kind
    && t.started <= t'.peerHosts[p].serial < t'.started
    && t'.peerHosts[p].ip == ip && ip in t'.hosts && t'.hosts[ip] == t'.peerHosts[p]
  }

  lemma StartedOne(t: Tables, t': Tables, order: seq<PeerId>, ipOf: map<PeerId, string>, kind: HostType, i: nat)
    requires i < |order| && forall j | 0 <= j < |order| :: order[j] in ipOf
    requires HasStarted(t, t', order, ipOf, kind)
    ensures HasNew(t, t', order[i], ipOf[order[i]], kind) && t'.peerHosts[order[i]].serial == t.started + i
  {
    assert ipOf[order[i]] in t'.hosts.Keys && order[i] in t'.peerHosts.Keys;
  }

  /** A host was started for each peer of the map: each has its new host, no two the
      same, and no other peer has one. */
  ghost predicate AllNew(t: Tables, t': Tables, ipOf: map<PeerId, string>, kind: HostType) {
    && t'.peerHosts.Keys == ipOf.Keys
    && (forall p | p in ipOf :: HasNew(t, t', p, ipOf[p], kind))
    && (forall p, q | p in ipOf && q in ipOf && p != q :: t'.peerHosts[p].serial != t'.peerHosts[q].serial)
  }

  predicate NewAt(t: Tables, t': Tables, order: seq<PeerId>, ipOf: map<PeerId, string>, kind: HostType, i: nat) {
    && i < |order| && order[i] in ipOf
    && HasNew(t, t', order[i], ipOf[order[i]], kind) && t'.peerHosts[order[i]].serial == t.started + i
  }

  lemma NewInTurn(t: Tables, t': Tables, order: seq<PeerId>, ipOf: map<PeerId, string>, kind: HostType)
    requires Walks(order, ipOf.Keys) && t'.peerHosts.Keys == ipOf.Keys
    requires forall i | 0 <= i < |order| :: NewAt(t, t', order, ipOf, kind, i)
    ensures AllNew(t, t', ipOf, kind)
  {
    forall p | p in ipOf ensures HasNew(t, t', p, ipOf[p], kind) {
      var i :| 0 <= i < |order| && order[i] == p;
      assert NewAt(t, t', order, ipOf, kind, i);
    }
    forall p, q | p in ipOf && q in ipOf && p != q ensures t'.peerHosts[p].serial != t'.peerHosts[q].serial {
      var i :| 0 <= i < |order| && order[i] == p;
      var j :| 0 <= j < |order| && order[j] == q;
      assert NewAt(t, t', order, ipOf, kind, i) && NewAt(t, t', order, ipOf, kind, j);
    }
  }

  lemma StartedAll(t: Tables, t': Tables, order: seq<PeerId>, ipOf: map<PeerId, string>, kind: HostType)
    requires Walks(order, ipOf.Keys) && t.peerHosts.Keys <= ipOf.Keys && HasStarted(t, t', order, ipOf, kind)
    ensures AllNew(t, t', ipOf, kind)
  {
    StartedKeys(t, t', order, ipOf, kind);
    forall i | 0 <= i < |order| ensures NewAt(t, t', order, ipOf, kind, i) { StartedOne(t, t', order, ipOf, kind, i); }
    NewInTurn(t, t', order, ipOf, kind);
  }

  lemma StartedKeys(t: Tables, t': Tables, order: seq<PeerId>, ipOf: map<PeerId, string>, kind: HostType)
    requires Walks(order, ipOf.Keys) && t.peerHosts.Keys <= ipOf.Keys && HasStarted(t, t', order, ipOf, kind)
    ensures t'.peerHosts.Keys == ipOf.Keys
  {
    WalkedAll(order, ipOf.Keys);
  }

  lemma WalkedAll(order: seq<PeerId>, keys: set<PeerId>)
    requires Walks(order, keys)
    ensures (set p | p in order) == keys
  {
  }

  // ----- Becoming the host -----

  /** The stop loop of handleHostMigration: every peer's host is stopped, in the
      order walked, and its address kept for the rebind. A peer that is gone by the
      time the walk reaches it is passed over. */
  function StopPeers(t: Tables, order: seq<PeerId>): (Tables, map<PeerId, string>)
    decreases |order|
  {
    if order == [] then (t, map[])
    else
      var (rest, rebind) := StopPeers(t, order[..|order| - 1]);
      var p := order[|order| - 1];
      if p !in rest.peerHosts then (rest, rebind)
      else (Stop(rest, rest.peerHosts[p], rest.peerHosts[p].ip), rebind[p := rest.peerHosts[p].ip])
  }

  lemma StopPeersMore(t: Tables, order: seq<PeerId>, p: PeerId)
    ensures var (rest, rebind) := StopPeers(t, order);
            StopPeers(t, order + [p]) ==
            if p !in rest.peerHosts then (rest, rebind)
            else (Stop(rest, rest.peerHosts[p], rest.peerHosts[p].ip), rebind[p := rest.peerHosts[p].ip])
  {
    assert (order + [p])[..|order|] == order;
  }

  /** The addresses of the peers' hosts. */
  function AddressesOf(t: Tables, order: seq<PeerId>): seq<string>
    requires forall i | 0 <= i < |order| :: order[i] in t.peerHosts
  {
    seq(|order|, i requires 0 <= i < |order| && order[i] in t.peerHosts => t.peerHosts[order[i]].ip)
  }

  /** Which address each peer's host runs at. */
  function AddressMap(t: Tables): map<PeerId, string> {
    map p | p in t.peerHosts :: t.peerHosts[p].ip
  }

  lemma AddressesOfPeers(t: Tables, order: seq<PeerId>)
    requires Agreed(t) && (forall i | 0 <= i < |order| :: order[i] in t.peerHosts)
    requires forall i, j | 0 <= i < j < |order| :: order[i] != order[j]
    ensures DistinctHosts(t, AddressesOf(t, order))
    ensures PeersAt(t, AddressesOf(t, order)) == set p | p in order
  {
    var ips := AddressesOf(t, order);
    forall i | 0 <= i < |order| ensures ips[i] in t.hosts && PeerAt(t, ips[i]) == order[i] {
      assert t.peerIPs[order[i]] == ips[i];
    }
    forall p | p in order ensures p in PeersAt(t, ips) {
      var i :| 0 <= i < |order| && order[i] == p;
      assert ips[i] in ips;
    }
  }

  /** The addresses the stop loop has noted once it has walked these peers. */
  function AddressesKept(t: Tables, order: seq<PeerId>): map<PeerId, string> {
    map p | p in t.peerHosts && p in order :: t.peerHosts[p].ip
  }

  lemma WithoutNone(t: Tables)
    ensures Without(t, []) == t
  {
    assert t.stopped + HostsAt(t, []) == t.stopped;
  }

  lemma {:induction false} StopPeersExactly(t: Tables, order: seq<PeerId>)
    requires Agreed(t) && (forall i | 0 <= i < |order| :: order[i] in t.peerHosts)
    requires forall i, j | 0 <= i < j < |order| :: order[i] != order[j]
    ensures DistinctHosts(t, AddressesOf(t, order))
    ensures StopPeers(t, order) ==
            (Without(t, AddressesOf(t, order)), AddressesKept(t, order))
    decreases |order|
  {
    AddressesOfPeers(t, order);
    if order == [] {
      assert AddressesOf(t, order) == [];
      WithoutNone(t);
    } else {
      var init, p := order[..|order| - 1], order[|order| - 1];
      assert order == init + [p];
      StopPeersExactly(t, init);
      assert p !in init;
      StopOneMorePeer(t, init, p);
      KeptOneMore(t, init, p);
    }
  }

  lemma KeptOneMore(t: Tables, init: seq<PeerId>, p: PeerId)
    requires p in t.peerHosts
    ensures AddressesKept(t, init + [p]) == AddressesKept(t, init)[p := t.peerHosts[p].ip]
  {
    var one, more := AddressesKept(t, init + [p]), AddressesKept(t, init)[p := t.peerHosts[p].ip];
    assert one.Keys == more.Keys;
    assert forall q | q in one :: one[q] == more[q];
  }

  lemma StopOneMorePeer(t: Tables, init: seq<PeerId>, p: PeerId)
    requires Agreed(t) && (forall i | 0 <= i < |init| :: init[i] in t.peerHosts) && p in t.peerHosts && p !in init
    requires forall i, j | 0 <= i < j < |init| :: init[i] != init[j]
    ensures DistinctHosts(t, AddressesOf(t, init)) && DistinctHosts(t, AddressesOf(t, init + [p]))
    ensures var rest := Without(t, AddressesOf(t, init));
            && p in rest.peerHosts && rest.peerHosts[p] == t.peerHosts[p]
            && Stop(rest, t.peerHosts[p], t.peerHosts[p].ip) == Without(t, AddressesOf(t, init + [p]))
  {
    var ip := t.peerHosts[p].ip;
    AddressesOfPeers(t, init);
    AddressesOfPeers(t, init + [p]);
    assert AddressesOf(t, init + [p]) == AddressesOf(t, init) + [ip];
    WithoutOneMore(t, AddressesOf(t, init), ip);
    assert t.peerIPs[p] == ip && t.hosts[ip] == t.peerHosts[p];
  }

  /** The whole hand-over to this client: stop every host, then dial every peer
      again on the address it had. */
  function Rebound(t: Tables, order: seq<PeerId>, again: seq<PeerId>): Tables
    requires forall i | 0 <= i < |again| :: again[i] in StopPeers(t, order).1
  {
    var (stopped, rebind) := StopPeers(t, order);
    StartEach(stopped, again, rebind, Dial)
  }

  /** The peers' hosts. */
  function HostsOf(t: Tables, order: seq<PeerId>): seq<FakeHost>
    requires forall i | 0 <= i < |order| :: order[i] in t.peerHosts
  {
    seq(|order|, i requires 0 <= i < |order| && order[i] in t.peerHosts => t.peerHosts[order[i]])
  }

  lemma AddressesReachAll(t: Tables, order: seq<PeerId>)
    requires Agreed(t) && Walks(order, t.peerHosts.Keys)
    ensures (set ip | ip in AddressesOf(t, order)) == t.hosts.Keys
  {
    var ips := AddressesOf(t, order);
    forall ip | ip in t.hosts ensures ip in ips {
      var i :| 0 <= i < |order| && order[i] == t.ipToPeerID[ip];
      assert ips[i] == ip;
    }
    forall i | 0 <= i < |order| ensures ips[i] in t.hosts {
      assert t.peerIPs[order[i]] == ips[i];
    }
  }

  lemma AddressesOfAll(t: Tables, order: seq<PeerId>)
    requires Agreed(t) && Walks(order, t.peerHosts.Keys)
    ensures var ips := AddressesOf(t, order);
            && DistinctHosts(t, ips)
            && (set ip | ip in ips) == t.hosts.Keys
            && PeersAt(t, ips) == t.peerHosts.Keys
            && HostsAt(t, ips) == HostsOf(t, order)
  {
    var ips := AddressesOf(t, order);
    AddressesOfPeers(t, order);
    assert (set p | p in order) == t.peerHosts.Keys;
    AddressesReachAll(t, order);
    forall i | 0 <= i < |order| ensures t.hosts[ips[i]] == t.peerHosts[order[i]] {
      assert t.peerIPs[order[i]] == ips[i];
    }
  }

  lemma WithoutAll(t: Tables, ips: seq<string>)
    requires DistinctHosts(t, ips) && (set ip | ip in ips) == t.hosts.Keys && PeersAt(t, ips) == t.peerHosts.Keys
    ensures var mid := Without(t, ips);
            && mid.hosts == map[] && mid.peerHosts == map[]
            && mid.peerIPs == t.peerIPs - t.peerHosts.Keys && mid.ipToPeerID == t.ipToPeerID - t.hosts.Keys
            && mid.started == t.started && mid.stopped == t.stopped + HostsAt(t, ips)
  {
  }

  lemma KeptAll(t: Tables, order: seq<PeerId>)
    requires Walks(order, t.peerHosts.Keys)
    ensures AddressesKept(t, order) == AddressMap(t)
  {
  }

  /** After the stop loop nothing runs, and the rebind map is the old map from peers
      to addresses. */
  lemma AllStopped(t: Tables, order: seq<PeerId>)
    requires Agreed(t) && Walks(order, t.peerHosts.Keys)
    ensures var (mid, rebind) := StopPeers(t, order);
            && rebind == AddressMap(t)
            && mid.hosts == map[] && mid.peerHosts == map[]
            && mid.peerIPs == t.peerIPs - t.peerHosts.Keys
            && mid.ipToPeerID == t.ipToPeerID - t.hosts.Keys
            && mid.started == t.started
  {
    StopPeersExactly(t, order);
    AddressesOfAll(t, order);
    WithoutAll(t, AddressesOf(t, order));
    KeptAll(t, order);
  }

  /** The stop loop stops each old host once, in the order walked. */
  lemma EachStoppedOnce(t: Tables, order: seq<PeerId>)
    requires Agreed(t) && Walks(order, t.peerHosts.Keys)
    ensures StopPeers(t, order).0.stopped == t.stopped + HostsOf(t, order)
  {
    StopPeersExactly(t, order);
    AddressesOfAll(t, order);
    WithoutAll(t, AddressesOf(t, order));
  }

  lemma RebindMayStart(t: Tables, mid: Tables, again: seq<PeerId>)
    requires Agreed(t) && mid.hosts == map[] && WalksSome(again, t.peerHosts.Keys)
    ensures MayStartEach(mid, again, AddressMap(t))
  {
    forall i, j | 0 <= i < j < |again| ensures t.peerHosts[again[i]].ip != t.peerHosts[again[j]].ip {
      assert t.peerIPs[again[i]] == t.peerHosts[again[i]].ip && t.peerIPs[again[j]] == t.peerHosts[again[j]].ip;
    }
  }

  /** The second loop starts a new dialler for each peer it reaches, on the peer's old
      address. */
  lemma ReboundStarts(t: Tables, order: seq<PeerId>, again: seq<PeerId>)
    requires Agreed(t) && Walks(order, t.peerHosts.Keys) && WalksSome(again, t.peerHosts.Keys)
    ensures StopPeers(t, order).1 == AddressMap(t)
    ensures HasStarted(StopPeers(t, order).0, Rebound(t, order, again), again, AddressMap(t), Dial)
  {
    AllStopped(t, order);
    var (mid, rebind) := StopPeers(t, order);
    RebindMayStart(t, mid, again);
    StartEachExactly(mid, again, rebind, Dial);
  }

  /** The rebind brings back the peers it reaches, but not their assignments. */
  lemma ReboundAssignments(t: Tables, order: seq<PeerId>, again: seq<PeerId>)
    requires Agreed(t) && Walks(order, t.peerHosts.Keys) && WalksSome(again, t.peerHosts.Keys)
    ensures StopPeers(t, order).1 == AddressMap(t)
    ensures var t' := Rebound(t, order, again);
            && t'.peerHosts.Keys == (set p | p in again)
            && t'.peerIPs == t.peerIPs - t.peerHosts.Keys
            && t'.ipToPeerID == t.ipToPeerID - t.hosts.Keys
  {
    AllStopped(t, order);
    ReboundStarts(t, order, again);
  }

  /** t' has the peers that had hosts in t at the same addresses, all on new diallers,
      Hosts holding exactly those; and its address tables keep only the peers who had
      no host. */
  ghost predicate HandedOver(t: Tables, t': Tables) {
    && AllNew(t, t', AddressMap(t), Dial)
    && t'.hosts.Keys == t.hosts.Keys
    && t'.peerIPs == t.peerIPs - t.peerHosts.Keys
    && t'.ipToPeerID == t.ipToPeerID - t.hosts.Keys
  }

  /** Main result: from agreement, if every dial succeeds, the two loops stop each
      old host exactly once and end with the same peers at the same addresses, all
      on new diallers, Hosts holding exactly those; and the address tables keep only
      the peers who had no host. */
  lemma BecomingHost(t: Tables, order: seq<PeerId>, again: seq<PeerId>)
    requires Agreed(t) && Walks(order, t.peerHosts.Keys) && Walks(again, t.peerHosts.Keys)
    ensures StopPeers(t, order).1 == AddressMap(t)
    ensures HandedOver(t, Rebound(t, order, again))
    ensures Rebound(t, order, again).stopped == t.stopped + HostsOf(t, order)
  {
    AllStopped(t, order);
    EachStoppedOnce(t, order);
    ReboundStarts(t, order, again);
    var mid, t' := StopPeers(t, order).0, Rebound(t, order, again);
    StartedAll(mid, t', again, AddressMap(t), Dial);
    SameNew(mid, t, t', AddressMap(t), Dial);
    ReboundKeys(t, mid, t', again);
  }

  /** Hosts new since one state are new since another with as many started. */
  lemma SameNew(mid: Tables, t: Tables, t': Tables, ipOf: map<PeerId, string>, kind: HostType)
    requires mid.started == t.started && AllNew(mid, t', ipOf, kind)
    ensures AllNew(t, t', ipOf, kind)
  {
    forall p | p in ipOf ensures HasNew(t, t', p, ipOf[p], kind) { assert HasNew(mid, t', p, ipOf[p], kind); }
  }

  lemma ReboundKeys(t: Tables, mid: Tables, t': Tables, again: seq<PeerId>)
    requires Agreed(t) && mid.hosts == map[] && Walks(again, t.peerHosts.Keys)
    requires AddressesStarted(mid, t'.hosts, again, AddressMap(t), Dial)
    ensures t'.hosts.Keys == t.hosts.Keys
  {
    AddressesCover(t, again);
  }

  lemma AddressesCover(t: Tables, again: seq<PeerId>)
    requires Agreed(t) && Walks(again, t.peerHosts.Keys)
    ensures (set p | p in again :: AddressMap(t)[p]) == t.hosts.Keys
  {
    var ips := set p | p in again :: AddressMap(t)[p];
    forall ip | ip in t.hosts ensures ip in ips {
      assert t.ipToPeerID[ip] in again && AddressMap(t)[t.ipToPeerID[ip]] == ip;
    }
    forall p | p in again ensures AddressMap(t)[p] in t.hosts {
      assert t.peerIPs[p] in t.hosts;
    }
  }

  /** A peer with a host but no assigned address: the maps disagree, and its
      departure stops nothing. */
  lemma Unassigned(t: Tables, p: PeerId)
    requires p in t.peerHosts && p !in t.peerIPs
    ensures !Agreed(t) && RemoveByRemoteID(t, p) == t
  {
  }

  lemma {:induction false} StopPeersAgreed(t: Tables, order: seq<PeerId>)
    requires Agreed(t)
    ensures Agreed(StopPeers(t, order).0)
    decreases |order|
  {
    if order != [] {
      StopPeersAgreed(t, order[..|order| - 1]);
      var rest, p := StopPeers(t, order[..|order| - 1]).0, order[|order| - 1];
      if p in rest.peerHosts { StopAgreed(rest, rest.peerHosts[p], rest.peerHosts[p].ip); }
    }
  }

  /** The rebind loses the assignments: unless it dials nobody, the maps no longer
      agree. */
  lemma ReboundAgreesExactly(t: Tables, order: seq<PeerId>, again: seq<PeerId>)
    requires Agreed(t) && Walks(order, t.peerHosts.Keys) && WalksSome(again, t.peerHosts.Keys)
    ensures StopPeers(t, order).1 == AddressMap(t)
    ensures Agreed(Rebound(t, order, again)) <==> again == []
  {
    ReboundAssignments(t, order, again);
    if again == [] {
      StopPeersAgreed(t, order);
    } else {
      assert again[0] in again;
      Unassigned(Rebound(t, order, again), again[0]);
    }
  }

  /** So a rebound peer that departs later is not cleaned up: its proxy stays. */
  lemma ReboundPeersStay(t: Tables, order: seq<PeerId>, again: seq<PeerId>, p: PeerId)
    requires Agreed(t) && Walks(order, t.peerHosts.Keys) && WalksSome(again, t.peerHosts.Keys) && p in again
    ensures StopPeers(t, order).1 == AddressMap(t)
    ensures var t' := Rebound(t, order, again); p in t'.peerHosts && RemoveByRemoteID(t', p) == t'
  {
    ReboundAssignments(t, order, again);
    Unassigned(Rebound(t, order, again), p);
  }

  // ----- Someone else becoming the host -----

  /** The other branch of handleHostMigration: the new host's proxy is replaced by a
      listener on the same address, if it has one. */
  function Relistened(t: Tables, h: PeerId, opens: bool): Tables {
    if h !in t.peerIPs || t.peerIPs[h] !in t.hosts then t
    else
      var ip := t.peerIPs[h];
      Start(Stop(t, t.hosts[ip], ip), h, ip, Listen, opens).0
  }

  /** From agreement: one host is stopped, one listener takes its place under the
      same peer and address, no other host is touched, and the new host's address
      is no longer assigned to it. */
  lemma OtherBecomesHost(t: Tables, h: PeerId)
    requires Agreed(t) && h in t.peerHosts
    ensures var t' := Relistened(t, h, true);
            var ip := t.peerHosts[h].ip;
            var listener := FakeHost(t.started, Listen, ip);
            && t'.peerHosts == t.peerHosts[h := listener]
            && t'.hosts == t.hosts[ip := listener]
            && t'.stopped == t.stopped + [t.peerHosts[h]]
            && t'.peerIPs == t.peerIPs - {h} && t'.ipToPeerID == t.ipToPeerID - {ip}
            && !Agreed(t')
  {
    var ip := t.peerIPs[h];
    assert t.hosts[ip] == t.peerHosts[h] && ip == t.peerHosts[h].ip && PeerAt(t, ip) == h;
    var t' := Relistened(t, h, true);
    assert h in t'.peerHosts && h !in t'.peerIPs;
  }

  /** With no host to replace, nothing happens; and if the listener does not open, the
      new host's proxy is gone. */
  lemma NoListenerTakesOver(t: Tables, h: PeerId, opens: bool)
    requires Agreed(t) && (h !in t.peerHosts || !opens)
    ensures PeerGone(t, Relistened(t, h, opens), h)
  {
    RemovalExactly(t, h);
    if h in t.peerIPs && t.peerIPs[h] in t.hosts { assert t.ipToPeerID[t.peerIPs[h]] == h; }
  }

  /** The maps agree after this branch too only if no listener takes over. */
  lemma RelistenedAgreesExactly(t: Tables, h: PeerId, opens: bool)
    requires Agreed(t)
    ensures Agreed(Relistened(t, h, opens)) <==> h !in t.peerHosts || !opens
  {
    if h in t.peerHosts {
      var ip := t.peerIPs[h];
      if opens { OtherBecomesHost(t, h); } else { StopAgreed(t, t.hosts[ip], ip); }
    }
  }
}
