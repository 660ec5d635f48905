/** Selecting and joining a game (internal/backend/proxy/relay/relay.go): who is given
    which address, and the listeners started at them. */
module Selections {
  import opened Wire
  import opened Addresses
  import opened HostTables
  import opened Migration

  /** SelectGame: an address for each of the other players, until one fails. */
  function AssignEach(t: Tables, x: Octet, players: seq<PeerId>): (Tables, bool)
    decreases |players|
  {
    if players == [] then (t, true)
    else
      var (rest, ok) := AssignEach(t, x, players[..|players| - 1]);
      if !ok then (rest, false)
      else
        var (t', ip) := AssignIP(rest, x, players[|players| - 1]);
        (t', ip.Some?)
  }

  lemma AssignEachMore(t: Tables, x: Octet, players: seq<PeerId>, p: PeerId)
    requires AssignEach(t, x, players).1
    ensures AssignEach(t, x, players + [p]) ==
            (AssignIP(AssignEach(t, x, players).0, x, p).0, AssignIP(AssignEach(t, x, players).0, x, p).1.Some?)
  {
    assert (players + [p])[..|players|] == players;
  }

  /** The players other than oneself, in order. */
  function Others(players: seq<PeerId>, self: PeerId): seq<PeerId> {
    if players == [] then []
    else
      var last := players[|players| - 1];
      Others(players[..|players| - 1], self) + if last == self then [] else [last]
  }

  function OthersOf(players: seq<PeerId>, self: PeerId): set<PeerId> {
    set q | q in players && q != self
  }

  lemma {:induction false} OthersRest(players: seq<PeerId>, k: nat, self: PeerId)
    requires k <= |players|
    ensures Others(players, self) == Others(players[..k], self) + Others(players[k..], self)
    decreases |players|
  {
    if k == |players| {
      assert players[..k] == players;
    } else {
      var init := players[..|players| - 1];
      OthersRest(init, k, self);
      assert init[..k] == players[..k];
      assert players[k..][..|players[k..]| - 1] == init[k..];
    }
  }

  lemma {:induction false} OthersNamed(players: seq<PeerId>, self: PeerId)
    requires "" !in players
    ensures "" !in Others(players, self)
  {
    if players != [] { OthersNamed(players[..|players| - 1], self); }
  }

  lemma {:induction false} AssignEachOnlyAssigns(t: Tables, x: Octet, players: seq<PeerId>)
    ensures var t' := AssignEach(t, x, players).0; t' == t.(peerIPs := t'.peerIPs, ipToPeerID := t'.ipToPeerID)
    decreases |players|
  {
    if players != [] { AssignEachOnlyAssigns(t, x, players[..|players| - 1]); }
  }

  lemma {:induction false} SelectionAgrees(t: Tables, x: Octet, players: seq<PeerId>)
    requires Agreed(t) && "" !in players
    ensures var t' := AssignEach(t, x, players).0;
            && Agreed(t') && t'.hosts == t.hosts && t'.peerHosts == t.peerHosts
            && t'.started == t.started && t'.stopped == t.stopped
    decreases |players|
  {
    if players != [] {
      SelectionAgrees(t, x, players[..|players| - 1]);
      AssignAgreed(AssignEach(t, x, players[..|players| - 1]).0, x, players[|players| - 1]);
    }
  }

  /** Once assigning fails, nothing after that changes anything. */
  lemma {:induction false} AssignEachFailed(t: Tables, x: Octet, some: seq<PeerId>, more: seq<PeerId>)
    requires !AssignEach(t, x, some).1
    ensures AssignEach(t, x, some + more) == AssignEach(t, x, some)
    decreases |more|
  {
    if more == [] {
      assert some + more == some;
    } else {
      AssignEachFailed(t, x, some, more[..|more| - 1]);
      assert (some + more)[..|some + more| - 1] == some + more[..|more| - 1];
    }
  }

  /** If the i-th listed is somebody else, listed for the first time: it holds the address
      that many others before it leave for it. */
  predicate InTurn(t: Tables, x: Octet, players: seq<PeerId>, self: PeerId, i: nat)
    requires i < |players|
  {
    var p, before := players[i], players[..i];
    p != self && p !in before ==> p in t.peerIPs && t.peerIPs[p] == Address(x, 2 + |OthersOf(before, self)|)
  }

  /** The different players other than oneself hold the addresses from 127.0.x.2 on, in
      the order in which they are first listed, and nobody else holds any. */
  predicate GivenInTurn(t: Tables, x: Octet, players: seq<PeerId>, self: PeerId) {
    && |OthersOf(players, self)| <= 253
    && t.peerIPs.Keys == OthersOf(players, self)
    && t.ipToPeerID.Keys == PoolBelow(x, 2 + |OthersOf(players, self)|)
    && forall i | 0 <= i < |players| :: InTurn(t, x, players, self, i)
  }

  lemma LowestIs(x: Octet, used: set<string>, n: nat)
    requires FIRST <= n && (forall i | FIRST <= i < n :: Address(x, i) in used) && Address(x, n) !in used
    ensures LowestFree(x, used, FIRST) == if n < LIMIT then Some(n) else None
  {
    LowestFreeSpec(x, used, FIRST);
  }

  lemma NextInTurn(x: Octet, n: nat)
    requires FIRST <= n
    ensures LowestFree(x, PoolBelow(x, n), FIRST) == if n < LIMIT then Some(n) else None
  {
    PoolOneMore(x, n);
    LowestIs(x, PoolBelow(x, n), n);
  }

  /** The turn of oneself, or of somebody listed before. */
  lemma GivenSame(t: Tables, x: Octet, players: seq<PeerId>, self: PeerId, p: PeerId)
    requires GivenInTurn(t, x, players, self) && (p == self || p in players)
    ensures GivenInTurn(t, x, players + [p], self)
  {
    var all := players + [p];
    assert OthersOf(all, self) == OthersOf(players, self);
    forall i | 0 <= i < |all| ensures InTurn(t, x, all, self, i) {
      if i < |players| { TurnStays(t, t, x, players, self, p, i); } else { assert all[..i] == players; }
    }
  }

  lemma OthersNew(players: seq<PeerId>, self: PeerId, p: PeerId)
    requires p != self && p !in players
    ensures OthersOf(players + [p], self) == OthersOf(players, self) + {p}
    ensures |OthersOf(players + [p], self)| == |OthersOf(players, self)| + 1
  {
    assert OthersOf(players + [p], self) == OthersOf(players, self) + {p};
  }

  lemma TurnStays(t: Tables, t': Tables, x: Octet, players: seq<PeerId>, self: PeerId, p: PeerId, i: nat)
    requires i < |players| && InTurn(t, x, players, self, i)
    requires players[i] in t.peerIPs ==> players[i] in t'.peerIPs && t'.peerIPs[players[i]] == t.peerIPs[players[i]]
    ensures InTurn(t', x, players + [p], self, i)
  {
    assert (players + [p])[..i] == players[..i];
  }

  /** The turn of somebody new. */
  lemma GivenNew(t: Tables, t': Tables, x: Octet, players: seq<PeerId>, self: PeerId, p: PeerId)
    requires GivenInTurn(t, x, players, self) && p != self && p !in players && |OthersOf(players, self)| < 253
    requires var ip := Address(x, 2 + |OthersOf(players, self)|);
             t'.peerIPs == t.peerIPs[p := ip] && t'.ipToPeerID == t.ipToPeerID[ip := p]
    ensures GivenInTurn(t', x, players + [p], self)
  {
    OthersNew(players, self, p);
    PoolOneMore(x, 2 + |OthersOf(players, self)|);
    forall i | 0 <= i < |players + [p]| ensures InTurn(t', x, players + [p], self, i) {
      if i < |players| {
        assert players[i] != p && InTurn(t, x, players, self, i);
        TurnStays(t, t', x, players, self, p, i);
      } else {
        assert (players + [p])[..i] == players;
      }
    }
  }

  /** Another player's turn. */
  lemma GivenOneMore(t: Tables, x: Octet, players: seq<PeerId>, self: PeerId, p: PeerId)
    requires GivenInTurn(t, x, players, self) && p != self
    ensures AssignIP(t, x, p).1.Some? ==>
              GivenInTurn(AssignIP(t, x, p).0, x, players + [p], self)
    ensures AssignIP(t, x, p).1.None? ==>
              |OthersOf(players, self)| == 253 && |OthersOf(players + [p], self)| == 254 && AssignIP(t, x, p).0 == t
  {
    var n := |OthersOf(players, self)|;
    if p in players {
      GivenSame(t, x, players, self, p);
    } else {
      NextInTurn(x, 2 + n);
      if n < 253 {
        GivenNew(t, AssignIP(t, x, p).0, x, players, self, p);
      } else {
        OthersNew(players, self, p);
      }
    }
  }

  /** The first 253 different players hold an address, and somebody after them none. */
  predicate GivenToFirst(t: Tables, x: Octet, players: seq<PeerId>, self: PeerId) {
    exists n ::
      && 0 <= n < |players| && |OthersOf(players[..n], self)| == 253
      && GivenInTurn(t, x, players[..n], self)
  }

  lemma GivenToFirstStill(t: Tables, x: Octet, players: seq<PeerId>, self: PeerId, p: PeerId)
    requires GivenToFirst(t, x, players, self)
    ensures GivenToFirst(t, x, players + [p], self)
  {
    var n :|
      && 0 <= n < |players| && |OthersOf(players[..n], self)| == 253
      && GivenInTurn(t, x, players[..n], self);
    assert (players + [p])[..n] == players[..n];
  }

  lemma OthersMore(players: seq<PeerId>, self: PeerId, p: PeerId)
    ensures Others(players + [p], self) == if p == self then Others(players, self) else Others(players, self) + [p]
    ensures |OthersOf(players, self)| <= |OthersOf(players + [p], self)|
  {
    assert (players + [p])[..|players|] == players;
    assert Others(players, self) + [] == Others(players, self);
    SubsetSize(OthersOf(players, self), OthersOf(players + [p], self));
  }

  /** Main result: a selection from empty tables, whomever the room lists, gives each
      different player but oneself an address of its own, in turn from 127.0.x.2 on, and
      fails exactly when there are more than 253 of them; then the first 253 hold one. */
  lemma {:induction false} SelectionInTurn(t: Tables, x: Octet, players: seq<PeerId>, self: PeerId)
    requires t.peerIPs == map[] && t.ipToPeerID == map[]
    ensures var (t', ok) := AssignEach(t, x, Others(players, self));
            && (ok <==> |OthersOf(players, self)| <= 253)
            && (ok ==> GivenInTurn(t', x, players, self))
            && (!ok ==> GivenToFirst(t', x, players, self))
    decreases |players|
  {
    if players == [] {
      PoolEmpty(x);
      assert OthersOf(players, self) == {};
    } else {
      var init, p := players[..|players| - 1], players[|players| - 1];
      assert players == init + [p];
      OthersMore(init, self, p);
      SelectionInTurn(t, x, init, self);
      SelectOneMore(t, x, init, self, p);
    }
  }

  lemma SelectOneMore(t: Tables, x: Octet, init: seq<PeerId>, self: PeerId, p: PeerId)
    requires var (rest, ok) := AssignEach(t, x, Others(init, self));
             && (ok <==> |OthersOf(init, self)| <= 253)
             && (ok ==> GivenInTurn(rest, x, init, self))
             && (!ok ==> GivenToFirst(rest, x, init, self))
    ensures var (t', ok) := AssignEach(t, x, Others(init + [p], self));
            && (ok <==> |OthersOf(init + [p], self)| <= 253)
            && (ok ==> GivenInTurn(t', x, init + [p], self))
            && (!ok ==> GivenToFirst(t', x, init + [p], self))
  {
    var (rest, ok) := AssignEach(t, x, Others(init, self));
    OthersMore(init, self, p);
    if !ok {
      GivenToFirstStill(rest, x, init, self, p);
      if p != self { AssignEachFailed(t, x, Others(init, self), [p]); }
    } else if p == self {
      GivenSame(rest, x, init, self, p);
    } else {
      GivenOneMore(rest, x, init, self, p);
      AssignEachMore(t, x, Others(init, self), p);
      assert (init + [p])[..|init|] == init;
    }
  }

  /** Main result: after a selection, joining with every listener opening gives each
      selected player one listener at its own address, and the maps agree. */
  lemma JoiningListensForAll(t: Tables, order: seq<PeerId>)
    requires Agreed(t) && t.hosts == map[] && t.peerHosts == map[] && Walks(order, t.peerIPs.Keys)
    ensures var t' := StartEach(t, order, t.peerIPs, Listen);
            Agreed(t') && AllNew(t, t', t.peerIPs, Listen) && t'.peerIPs == t.peerIPs
  {
    forall i, j | 0 <= i < j < |order| ensures t.peerIPs[order[i]] != t.peerIPs[order[j]] {}
    StartEachExactly(t, order, t.peerIPs, Listen);
    var t' := StartEach(t, order, t.peerIPs, Listen);
    StartedAll(t, t', order, t.peerIPs, Listen);
    ListenersByAddress(t, t', order);
    ListenersAgree(t, t');
  }

  lemma ListenersAgree(t: Tables, t': Tables)
    requires Inverses(t) && t'.peerIPs == t.peerIPs && t'.ipToPeerID == t.ipToPeerID
    requires t'.peerHosts.Keys == t.peerIPs.Keys
    requires forall p | p in t.peerIPs :: HasNew(t, t', p, t.peerIPs[p], Listen)
    requires forall ip | ip in t'.hosts :: ip in t.ipToPeerID
    ensures Agreed(t')
  {
    forall ip | ip in t'.hosts
      ensures t'.ipToPeerID[ip] in t'.peerHosts && t'.peerHosts[t'.ipToPeerID[ip]] == t'.hosts[ip]
      ensures t'.hosts[ip].ip == ip
    {
      assert HasNew(t, t', t.ipToPeerID[ip], t.peerIPs[t.ipToPeerID[ip]], Listen);
    }
  }

  lemma ListenersByAddress(t: Tables, t': Tables, order: seq<PeerId>)
    requires Inverses(t) && t.hosts == map[] && Walks(order, t.peerIPs.Keys)
    requires AddressesStarted(t, t'.hosts, order, t.peerIPs, Listen)
    ensures forall ip | ip in t'.hosts :: ip in t.ipToPeerID
  {
    forall ip | ip in t'.hosts ensures ip in t.ipToPeerID {
      var p :| p in order && t.peerIPs[p] == ip;
    }
  }
}
