/** What a client's tables are worth after it has become the host: the running hosts
    are no longer assigned, so departures stop nothing, newcomers are given addresses
    in use, and the next hand-over dials the departed again. */
module HandOvers {
  import opened Wire
  import opened Addresses
  import opened HostTables
  import opened HostRuns
  import opened Migration

  // Below, t1 is what a complete hand-over makes of tables t in agreement.

  /** A peer without a host holds an address at which nothing runs. */
  lemma HostlessAddress(t: Tables, p: PeerId)
    requires Agreed(t) && p in t.peerIPs && p !in t.peerHosts
    ensures t.peerIPs[p] !in t.hosts
  {
  }

  /** A departure after a hand-over stops nothing, whoever departs. */
  lemma DepartureStopsNothing(t: Tables, t1: Tables, p: PeerId)
    requires Agreed(t) && HandedOver(t, t1)
    ensures RemoveByRemoteID(t1, p) == t1
  {
    if p in t1.peerIPs { HostlessAddress(t, p); }
  }

  // ----- Newcomers -----

  /** The lowest address unassigned after the hand-over. */
  function NextAddress(t: Tables, x: Octet): Option<nat> {
    LowestFree(x, t.ipToPeerID.Keys - t.hosts.Keys, FIRST)
  }

  lemma JoinedDialsExactly(t: Tables, x: Octet, p: PeerId, opens: bool)
    requires p !in t.peerIPs && p !in t.peerHosts
    ensures p in Joined(t, x, p, opens).peerHosts <==>
            opens && AssignIP(t, x, p).1.Some? && AssignIP(t, x, p).1.value !in t.hosts
  {
  }

  /** A newcomer after a hand-over is dialled exactly if the lowest unassigned address
      is not one of those the rebound hosts run at. */
  lemma NewcomerDialledExactly(t: Tables, t1: Tables, x: Octet, p: PeerId, opens: bool)
    requires Agreed(t) && HandedOver(t, t1) && p !in t.peerIPs
    ensures AssignIP(t1, x, p).1 == match NextAddress(t, x) case None => None case Some(i) => Some(Address(x, i))
    ensures p in Joined(t1, x, p, opens).peerHosts <==>
              opens && NextAddress(t, x).Some? && Address(x, NextAddress(t, x).value) !in t.hosts
  {
    assert t1.ipToPeerID.Keys == t.ipToPeerID.Keys - t.hosts.Keys;
    JoinedDialsExactly(t1, x, p, opens);
  }

  /** In particular, when every assigned peer ran and 127.0.x.2 was in use, the first
      newcomer is given 127.0.x.2 once more, and is not dialled. */
  lemma FirstAddressGivenTwice(t: Tables, t1: Tables, x: Octet, p: PeerId, opens: bool)
    requires Agreed(t) && HandedOver(t, t1) && p !in t.peerIPs
    requires t.peerIPs.Keys == t.peerHosts.Keys && Address(x, FIRST) in t.hosts
    ensures AssignIP(t1, x, p).1 == Some(Address(x, FIRST))
    ensures p !in Joined(t1, x, p, opens).peerHosts
  {
    NewcomerDialledExactly(t, t1, x, p, opens);
    forall ip | ip in t.ipToPeerID ensures ip in t.hosts {
      assert t.ipToPeerID[ip] in t.peerHosts;
    }
    assert NextAddress(t, x) == Some(FIRST);
  }

  // ----- The next hand-over -----

  /** Stopping a peer's host takes the peer out of PeerHosts exactly if the host's
      address is assigned to it. */
  lemma StoppedPeerStaysExactly(t: Tables, p: PeerId)
    requires p in t.peerHosts
    ensures var host := t.peerHosts[p];
            p in Stop(t, host, host.ip).peerHosts <==> PeerAt(t, host.ip) != p
  {
  }

  /** Different peers' hosts run at different addresses, none of them assigned to another
      peer that has a host. */
  predicate Uncrossed(t: Tables) {
    && (forall p, q | p in t.peerHosts && q in t.peerHosts && p != q :: t.peerHosts[p].ip != t.peerHosts[q].ip)
    && (forall p | p in t.peerHosts ::
          PeerAt(t, t.peerHosts[p].ip) == p || PeerAt(t, t.peerHosts[p].ip) !in t.peerHosts)
  }

  /** What the stop loop has done once it has walked some of the peers. */
  predicate Walked(t: Tables, rest: Tables, order: seq<PeerId>) {
    && (forall p | p in t.peerHosts :: p in rest.peerHosts <==> p !in order || PeerAt(t, t.peerHosts[p].ip) != p)
    && (forall p | p in rest.peerHosts :: p in t.peerHosts && rest.peerHosts[p] == t.peerHosts[p])
    && (forall p | p in t.peerHosts && p !in order :: PeerAt(rest, t.peerHosts[p].ip) == PeerAt(t, t.peerHosts[p].ip))
  }

  lemma WalkedMore(t: Tables, rest: Tables, init: seq<PeerId>, p: PeerId)
    requires Uncrossed(t) && Walked(t, rest, init) && p in t.peerHosts && p !in init
    ensures p in rest.peerHosts && Walked(t, Stop(rest, rest.peerHosts[p], rest.peerHosts[p].ip), init + [p])
  {
    var ip := rest.peerHosts[p].ip;
    var next := Stop(rest, rest.peerHosts[p], ip);
    StoppedPeerStaysExactly(rest, p);
    forall q | q in t.peerHosts
      ensures q in next.peerHosts <==> q !in init + [p] || PeerAt(t, t.peerHosts[q].ip) != q
      ensures q !in init + [p] ==> PeerAt(next, t.peerHosts[q].ip) == PeerAt(t, t.peerHosts[q].ip)
    {
      assert q in init + [p] <==> q in init || q == p;
      if q != p { assert q != PeerAt(rest, ip) && t.peerHosts[q].ip != ip; }
    }
  }

  /** The stop loop takes out of PeerHosts exactly the peers it walks whose hosts run at
      their own assigned addresses: after a hand-over, none of those rebound. */
  lemma {:induction false} StopLoopKeepsExactly(t: Tables, order: seq<PeerId>)
    requires Uncrossed(t) && WalksSome(order, t.peerHosts.Keys)
    ensures Walked(t, StopPeers(t, order).0, order)
    decreases |order|
  {
    if order != [] {
      var init, p := order[..|order| - 1], order[|order| - 1];
      assert order == init + [p];
      StopLoopKeepsExactly(t, init);
      WalkedMore(t, StopPeers(t, init).0, init, p);
    }
  }

  /** No host runs at an assigned address. */
  predicate Adrift(t: Tables) {
    && (forall p | p in t.peerHosts :: t.peerHosts[p].ip !in t.ipToPeerID)
    && "" !in t.peerHosts && "" !in t.peerIPs
  }

  /** Different peers' hosts run at different addresses, and no other host runs. */
  predicate HostsByPeer(t: Tables) {
    && (forall p, q | p in t.peerHosts && q in t.peerHosts && p != q :: t.peerHosts[p].ip != t.peerHosts[q].ip)
    && (forall ip | ip in t.hosts :: exists p :: p in t.peerHosts && t.peerHosts[p].ip == ip)
  }

  /** Peers that have new hosts at their old addresses are at the same addresses. */
  lemma NewAtSame(t: Tables, t1: Tables)
    requires AllNew(t, t1, AddressMap(t), Dial)
    ensures t1.peerHosts.Keys == t.peerHosts.Keys
    ensures forall p | p in t.peerHosts :: t1.peerHosts[p].ip == t.peerHosts[p].ip
  {
    forall p | p in t.peerHosts ensures t1.peerHosts[p].ip == t.peerHosts[p].ip {
      assert HasNew(t, t1, p, AddressMap(t)[p], Dial);
    }
  }

  lemma HandOverLeavesAdrift(t: Tables, t1: Tables)
    requires Agreed(t) && HandedOver(t, t1)
    ensures Adrift(t1) && HostsByPeer(t1)
  {
    NewAtSame(t, t1);
    forall p | p in t1.peerHosts ensures t1.peerHosts[p].ip == t.peerIPs[p] && t1.peerHosts[p].ip !in t1.ipToPeerID {
      assert t.peerHosts[p].ip in t.hosts;
    }
    forall ip | ip in t1.hosts ensures exists p :: p in t1.peerHosts && t1.peerHosts[p].ip == ip {
      assert ip in t.hosts;
      assert t1.peerHosts[t.ipToPeerID[ip]].ip == ip;
    }
  }

  lemma StopAdrift(t: Tables, h: FakeHost)
    requires h.ip !in t.ipToPeerID && "" !in t.peerHosts && "" !in t.peerIPs
    ensures Stop(t, h, h.ip) == t.(hosts := t.hosts - {h.ip}, stopped := t.stopped + [h])
  {
    assert t.ipToPeerID - {h.ip} == t.ipToPeerID;
    assert t.peerIPs - {""} == t.peerIPs;
    assert t.peerHosts - {""} == t.peerHosts;
  }

  function AddressesAt(t: Tables, order: seq<PeerId>): set<string>
    requires forall i | 0 <= i < |order| :: order[i] in t.peerHosts
  {
    set i | 0 <= i < |order| :: t.peerHosts[order[i]].ip
  }

  lemma AddressesAtOneMore(t: Tables, init: seq<PeerId>, p: PeerId)
    requires (forall i | 0 <= i < |init| :: init[i] in t.peerHosts) && p in t.peerHosts
    ensures forall i | 0 <= i < |init + [p]| :: (init + [p])[i] in t.peerHosts
    ensures AddressesAt(t, init + [p]) == AddressesAt(t, init) + {t.peerHosts[p].ip}
  {
    var order, ip := init + [p], t.peerHosts[p].ip;
    assert forall i | 0 <= i < |init| :: order[i] == init[i];
    assert order[|init|] == p;
    forall a | a in AddressesAt(t, order) ensures a in AddressesAt(t, init) + {ip} {
      var i :| 0 <= i < |order| && a == t.peerHosts[order[i]].ip;
    }
  }

  /** The stop loop over hosts adrift stops each of them, and keeps every peer. */
  lemma {:induction false} StopPeersAdrift(t: Tables, order: seq<PeerId>)
    requires Adrift(t) && WalksSome(order, t.peerHosts.Keys)
    ensures StopPeers(t, order) ==
            (t.(hosts := t.hosts - AddressesAt(t, order), stopped := t.stopped + HostsOf(t, order)),
             AddressesKept(t, order))
    decreases |order|
  {
    if order == [] {
      assert t.hosts - AddressesAt(t, order) == t.hosts && t.stopped + HostsOf(t, order) == t.stopped;
    } else {
      var init, p := order[..|order| - 1], order[|order| - 1];
      assert order == init + [p];
      StopPeersAdrift(t, init);
      StopAdrift(StopPeers(t, init).0, t.peerHosts[p]);
      KeptOneMore(t, init, p);
      assert HostsOf(t, order) == HostsOf(t, init) + [t.peerHosts[p]];
      assert t.stopped + HostsOf(t, init) + [t.peerHosts[p]] == t.stopped + HostsOf(t, order);
      AddressesAtOneMore(t, init, p);
      assert t.hosts - AddressesAt(t, init) - {t.peerHosts[p].ip} == t.hosts - AddressesAt(t, order);
    }
  }

  lemma StopPeersEmpties(t: Tables, order: seq<PeerId>)
    requires HostsByPeer(t) && Walks(order, t.peerHosts.Keys)
    ensures t.hosts - AddressesAt(t, order) == map[]
  {
    forall ip | ip in t.hosts ensures ip in AddressesAt(t, order) {
      var p :| p in t.peerHosts && t.peerHosts[p].ip == ip;
      var i :| 0 <= i < |order| && order[i] == p;
    }
  }

  lemma AdriftMayStart(t: Tables, mid: Tables, again: seq<PeerId>)
    requires HostsByPeer(t) && mid.hosts == map[] && Walks(again, t.peerHosts.Keys)
    ensures MayStartEach(mid, again, AddressMap(t))
  {
    forall i, j | 0 <= i < j < |again| ensures AddressMap(t)[again[i]] != AddressMap(t)[again[j]] {
      assert again[i] in t.peerHosts && again[j] in t.peerHosts && again[i] != again[j];
    }
  }

  /** A hand-over of hosts adrift dials every one of their peers again. */
  lemma AdriftDialledAgain(t: Tables, order: seq<PeerId>, again: seq<PeerId>)
    requires Adrift(t) && HostsByPeer(t) && Walks(order, t.peerHosts.Keys) && Walks(again, t.peerHosts.Keys)
    ensures StopPeers(t, order).1 == AddressMap(t)
    ensures AllNew(t, Rebound(t, order, again), AddressMap(t), Dial)
  {
    StopPeersAdrift(t, order);
    StopPeersEmpties(t, order);
    KeptAll(t, order);
    var mid := StopPeers(t, order).0;
    AdriftMayStart(t, mid, again);
    StartEachExactly(mid, again, AddressMap(t), Dial);
    StartedAll(mid, Rebound(t, order, again), again, AddressMap(t), Dial);
    SameNew(mid, t, Rebound(t, order, again), AddressMap(t), Dial);
  }

  /** Main result: a hand-over, a departure, another hand-over. Whoever departs, the
      second dials exactly the peers that had hosts before the first, each at its old
      address: the departed among them, and nobody else. */
  lemma DepartedAreDialledAgain(t: Tables, t1: Tables, gone: PeerId, order: seq<PeerId>, again: seq<PeerId>)
    requires Agreed(t) && HandedOver(t, t1)
    requires Walks(order, t.peerHosts.Keys) && Walks(again, t.peerHosts.Keys)
    ensures RemoveByRemoteID(t1, gone) == t1
    ensures StopPeers(t1, order).1 == AddressMap(t)
    ensures AllNew(t1, Rebound(t1, order, again), AddressMap(t), Dial)
  {
    DepartureStopsNothing(t, t1, gone);
    SameAddresses(t, t1);
    HandOverLeavesAdrift(t, t1);
    AdriftDialledAgain(t1, order, again);
  }

  lemma SameAddresses(t: Tables, t1: Tables)
    requires HandedOver(t, t1)
    ensures t1.peerHosts.Keys == t.peerHosts.Keys && AddressMap(t1) == AddressMap(t)
  {
    NewAtSame(t, t1);
  }
}
