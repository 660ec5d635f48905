/** The relay client (internal/backend/proxy/relay): its idea of the host, and the
    loops by which it drives the fake-host manager. */
module PacketRouterClass {
  import opened Wire
  import opened Addresses
  import opened HostTables
  import opened HostRuns
  import opened Migration
  import opened Selections
  import opened HostManagerClass

  class PacketRouter {
    const manager: HostManager
    var selfID: PeerId
    var roomID: RoomId
    /** Empty when no host is known. */
    var currentHostID: PeerId

    constructor (m: HostManager, self: PeerId)
      ensures manager == m && selfID == self && roomID == "" && currentHostID == ""
    {
      manager, selfID, roomID, currentHostID := m, self, "", "";
    }

    method Reset() returns (ghost ips: seq<string>)
      modifies this, manager
      ensures selfID == old(selfID) && roomID == "" && currentHostID == ""
      ensures Emptied(old(manager.State()), manager.State(), ips)
    {
      ips := manager.StopAll();
      roomID, currentHostID := "", "";
    }

    method HandleLeaveRoom(p: PeerId)
      modifies manager
      ensures manager.State() == if p == selfID then old(manager.State()) else RemoveByRemoteID(old(manager.State()), p)
      ensures p != selfID && Agreed(old(manager.State())) ==> PeerGone(old(manager.State()), manager.State(), p)
    {
      if selfID == p { return; }
      manager.RemoveByRemoteID(p);
    }

    /** A peer arrives in mid-game. */
    method DynamicJoin(p: PeerId, opens: bool)
      modifies manager
      ensures manager.State() == Joined(old(manager.State()), manager.ipPrefix, p, opens)
    {
      var ip := manager.AssignIP(p);
      if ip.None? { return; }
      var host := manager.StartGuest(p, ip.value, opens);
      if host.None? { return; }
      manager.SetHost(ip.value, p, host.value);
    }

    /** Stop every peer's host, noting its address: the first loop of a hand-over to
        this client. */
    method StopForRebind() returns (rebind: map<PeerId, string>, ghost order: seq<PeerId>)
      modifies manager
      ensures Migration.Walks(order, old(manager.peerHosts).Keys)
      ensures (manager.State(), rebind) == StopPeers(old(manager.State()), order)
    {
      rebind, order := map[], [];
      ghost var was, all := manager.State(), manager.peerHosts.Keys;
      var todo := manager.peerHosts.Keys;
      while todo != {}
        invariant Walking(order, todo, all)
        invariant (manager.State(), rebind) == StopPeers(was, order)
        decreases |todo|
      {
        ghost var some := Inhabited(todo);
        var p :| p in todo;
        WalkOn(order, todo, all, p);
        StopPeersMore(was, order, p);
        todo, order := todo - {p}, order + [p];
        if p in manager.peerHosts {
          var host := manager.peerHosts[p];
          rebind := rebind[p := host.ip];
          manager.StopHost(host, host.ip);
        }
      }
      WalkOver(order, all);
    }

    /** Dial the peers again on their old addresses, until a dial fails: the second
        loop. */
    method DialAgain(rebind: map<PeerId, string>, opens: PeerId -> bool) returns (ok: bool, ghost done: seq<PeerId>)
      modifies manager
      ensures WalksSome(done, rebind.Keys)
      ensures manager.State() == StartEach(old(manager.State()), done, rebind, Dial)
      ensures ok ==> Migration.Walks(done, rebind.Keys)
      ensures !ok ==> exists p :: p in rebind && p !in done && (rebind[p] in manager.hosts || !opens(p))
    {
      done := [];
      ghost var was := manager.State();
      var todo := rebind.Keys;
      while todo != {}
        invariant Walking(done, todo, rebind.Keys)
        invariant manager.State() == StartEach(was, done, rebind, Dial)
        decreases |todo|
      {
        ghost var some := Inhabited(todo);
        var p :| p in todo;
        WalkOn(done, todo, rebind.Keys, p);
        StartEachMore(was, done, p, rebind, Dial);
        var host := manager.StartGuest(p, rebind[p], opens(p));
        if host.None? {
          ok := false;
          return;
        }
        todo, done := todo - {p}, done + [p];
      }
      WalkOver(done, rebind.Keys);
      ok := true;
    }

    /** `sent` says whether the game took the host-switch packet, `opens` which
        sockets open. */
    method HandleHostMigration(newHostID: PeerId, sent: bool, opens: PeerId -> bool)
      returns (ghost order: seq<PeerId>, ghost again: seq<PeerId>, ghost complete: bool)
      modifies this, manager
      ensures currentHostID == newHostID && selfID == old(selfID) && roomID == old(roomID)
      ensures newHostID == selfID && sent ==>
                && Migration.Walks(order, old(manager.peerHosts).Keys)
                && WalksSome(again, StopPeers(old(manager.State()), order).1.Keys)
                && manager.State() == Rebound(old(manager.State()), order, again)
                && (complete ==> Migration.Walks(again, StopPeers(old(manager.State()), order).1.Keys))
                && (!complete ==> exists p :: p in StopPeers(old(manager.State()), order).1 && p !in again
                                    && (StopPeers(old(manager.State()), order).1[p] in manager.hosts || !opens(p)))
      ensures newHostID == selfID && !sent ==> manager.State() == old(manager.State())
      ensures newHostID != selfID ==> manager.State() == Relistened(old(manager.State()), newHostID, opens(newHostID))
    {
      order, again, complete := [], [], false;
      currentHostID := newHostID;
      if newHostID == selfID {
        if !sent { return; }
        var rebind;
        rebind, order := StopForRebind();
        complete, again := DialAgain(rebind, opens);
        return;
      }
      if newHostID !in manager.peerIPs { return; }
      var ip := manager.peerIPs[newHostID];
      if ip !in manager.hosts { return; }
      manager.StopHost(manager.hosts[ip], ip);
      var host := manager.StartHost(newHostID, ip, opens(newHostID));
    }

    /** CreateRoom: stop everything, and become the host of a room of one's own. */
    method CreateRoom(self: PeerId, room: RoomId) returns (ghost ips: seq<string>)
      modifies this, manager
      ensures selfID == currentHostID == self && roomID == room
      ensures Emptied(old(manager.State()), manager.State(), ips)
    {
      ips := Reset();
      selfID := self;
      currentHostID := self;
      roomID := room;
    }

    /** SelectGame: stop everything, and assign an address to every player but oneself.
        `players` lists the room, the host among them. */
    method SelectGame(self: PeerId, room: RoomId, host: PeerId, players: seq<PeerId>)
      returns (ok: bool, ghost ips: seq<string>, ghost emptied: Tables)
      modifies this, manager
      ensures selfID == self && roomID == room && currentHostID == if host in players then host else ""
      ensures Emptied(old(manager.State()), emptied, ips)
      ensures ok <==> host in players && |OthersOf(players, self)| <= 253
      ensures ok ==> GivenInTurn(manager.State(), manager.ipPrefix, players, self)
      ensures !ok ==> if host in players then GivenToFirst(manager.State(), manager.ipPrefix, players, self)
                      else manager.State() == emptied
      ensures manager.State() == emptied.(peerIPs := manager.peerIPs, ipToPeerID := manager.ipToPeerID)
      ensures "" !in players ==> Agreed(manager.State())
    {
      ips := Reset();
      emptied := manager.State();
      selfID, roomID, ok := self, room, false;
      if host !in players { return; }
      currentHostID := host;
      ok := AssignOthers(self, players);
      SelectionInTurn(emptied, manager.ipPrefix, players, self);
      AssignEachOnlyAssigns(emptied, manager.ipPrefix, Others(players, self));
      if "" !in players {
        OthersNamed(players, self);
        SelectionAgrees(emptied, manager.ipPrefix, Others(players, self));
      }
    }

    /** An address for each player but oneself, in turn, until there is none left. */
    method AssignOthers(self: PeerId, players: seq<PeerId>) returns (ok: bool)
      modifies manager
      ensures (manager.State(), ok) == AssignEach(old(manager.State()), manager.ipPrefix, Others(players, self))
    {
      ghost var was, x := manager.State(), manager.ipPrefix;
      for i := 0 to |players|
        invariant (manager.State(), true) == AssignEach(was, x, Others(players[..i], self))
      {
        OthersMore(players[..i], self, players[i]);
        assert players[..i + 1] == players[..i] + [players[i]];
        if players[i] == self { continue; }
        AssignEachMore(was, x, Others(players[..i], self), players[i]);
        var ip := manager.AssignIP(players[i]);
        if ip.None? {
          OthersRest(players, i + 1, self);
          AssignEachFailed(was, x, Others(players[..i + 1], self), Others(players[i + 1..], self));
          return false;
        }
      }
      assert players[..|players|] == players;
      ok := true;
    }

    /** Join: a listener for every peer that has an address, until one fails to start
        or the host's does not answer once it has. */
    method Join(hostID: PeerId, opens: PeerId -> bool, answers: bool) returns (ok: bool, ghost done: seq<PeerId>)
      modifies manager
      ensures WalksSome(done, old(manager.peerIPs).Keys)
      ensures manager.State() == StartEach(old(manager.State()), done, old(manager.peerIPs), Listen)
      ensures ok ==> Migration.Walks(done, old(manager.peerIPs).Keys) && (hostID in done ==> answers)
      ensures !ok ==>
                || (exists p ::
                  && p in old(manager.peerIPs) && p !in done
                  && (old(manager.peerIPs)[p] in manager.hosts || !opens(p)))
                || (done != [] && done[|done| - 1] == hostID && !answers)
    {
      done := [];
      ghost var was := manager.State();
      var peers := manager.peerIPs;
      var todo := peers.Keys;
      while todo != {}
        invariant Walking(done, todo, peers.Keys)
        invariant hostID in done ==> answers
        invariant manager.State() == StartEach(was, done, peers, Listen)
        decreases |todo|
      {
        ghost var some := Inhabited(todo);
        var p :| p in todo;
        WalkOn(done, todo, peers.Keys, p);
        StartEachMore(was, done, p, peers, Listen);
        var host := manager.StartHost(p, peers[p], opens(p));
        if host.None? {
          ok := false;
          return;
        }
        todo, done := todo - {p}, done + [p];
        if p == hostID && !answers {
          ok := false;
          return;
        }
      }
      WalkOver(done, peers.Keys);
      ok := true;
    }

    /** The address the game is given for a player. */
    method GetPlayerAddr(p: PeerId) returns (ip: Option<string>)
      ensures ip == if p == selfID then Some("127.0.0.1")
                    else if p in manager.peerIPs then Some(manager.peerIPs[p]) else None
    {
      if p == selfID { return Some("127.0.0.1"); }
      if p !in manager.peerIPs { return None; }
      return Some(manager.peerIPs[p]);
    }
  }
}
