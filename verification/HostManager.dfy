/** The fake-host manager's methods, updating its four maps in place, proved to have
    the effects HostTables gives them. */
module HostManagerClass {
  import opened Wire
  import opened Addresses
  import opened HostTables
  import opened Migration

  class HostManager {
    /** Third octet of the addresses handed out. */
    const ipPrefix: Octet
    var hosts: map<string, FakeHost>
    var peerHosts: map<PeerId, FakeHost>
    var peerIPs: map<PeerId, string>
    var ipToPeerID: map<string, PeerId>
    /** How many hosts have been started, and which have been stopped. */
    var started: nat
    var stopped: seq<FakeHost>

    ghost function State(): Tables
      reads this
    {
      Tables(hosts, peerHosts, peerIPs, ipToPeerID, started, stopped)
    }

    constructor (x: Octet)
      ensures ipPrefix == x && State() == FRESH
    {
      ipPrefix := x;
      hosts, peerHosts, peerIPs, ipToPeerID, started, stopped := map[], map[], map[], map[], 0, [];
    }

    method AssignIP(p: PeerId) returns (ip: Option<string>)
      modifies this`peerIPs, this`ipToPeerID
      ensures (State(), ip) == HostTables.AssignIP(old(State()), ipPrefix, p)
    {
      if p in peerIPs { return Some(peerIPs[p]); }
      for i := FIRST to LIMIT
        invariant LowestFree(ipPrefix, ipToPeerID.Keys, FIRST) == LowestFree(ipPrefix, ipToPeerID.Keys, i)
        invariant State() == old(State())
      {
        var ipAddr := Address(ipPrefix, i);
        if ipAddr !in ipToPeerID {
          peerIPs := peerIPs[p := ipAddr];
          ipToPeerID := ipToPeerID[ipAddr := p];
          return Some(ipAddr);
        }
      }
      return None;
    }

    /** Dial the local game on behalf of a peer. */
    method StartGuest(p: PeerId, ip: string, opens: bool) returns (h: Option<FakeHost>)
      modifies this`hosts, this`peerHosts, this`started
      ensures (State(), h) == Start(old(State()), p, ip, Dial, opens)
      ensures h.None? <==> ip in old(hosts) || !opens
      ensures h.None? ==> State() == old(State())
      ensures h.Some? ==>
                && h.value == FakeHost(old(started), Dial, ip) && started == old(started) + 1
                && hosts == old(hosts)[ip := h.value] && peerHosts == old(peerHosts)[p := h.value]
    {
      if ip in hosts { return None; }
      if !opens { return None; }
      var host := FakeHost(started, Dial, ip);
      started := started + 1;
      hosts := hosts[ip := host];
      peerHosts := peerHosts[p := host];
      return Some(host);
    }

    /** Listen on a peer's behalf. */
    method StartHost(p: PeerId, ip: string, opens: bool) returns (h: Option<FakeHost>)
      modifies this`hosts, this`peerHosts, this`started
      ensures (State(), h) == Start(old(State()), p, ip, Listen, opens)
      ensures h.None? <==> ip in old(hosts) || !opens
      ensures h.None? ==> State() == old(State())
      ensures h.Some? ==>
                && h.value == FakeHost(old(started), Listen, ip) && started == old(started) + 1
                && hosts == old(hosts)[ip := h.value] && peerHosts == old(peerHosts)[p := h.value]
    {
      if ip in hosts { return None; }
      if !opens { return None; }
      var host := FakeHost(started, Listen, ip);
      started := started + 1;
      hosts := hosts[ip := host];
      peerHosts := peerHosts[p := host];
      return Some(host);
    }

    method SetHost(ip: string, p: PeerId, h: FakeHost)
      modifies this`hosts, this`peerHosts, this`peerIPs, this`ipToPeerID
      ensures State() == HostTables.SetHost(old(State()), ip, p, h)
      ensures peerIPs == old(peerIPs)[p := ip] && ipToPeerID == old(ipToPeerID)[ip := p]
      ensures hosts == old(hosts)[ip := h] && peerHosts == old(peerHosts)[p := h]
    {
      peerIPs := peerIPs[p := ip];
      ipToPeerID := ipToPeerID[ip := p];
      hosts := hosts[ip := h];
      peerHosts := peerHosts[p := h];
    }

    method StopHost(h: FakeHost, ip: string)
      modifies this
      ensures State() == Stop(old(State()), h, ip)
      ensures hosts == old(hosts) - {ip} && ipToPeerID == old(ipToPeerID) - {ip} && stopped == old(stopped) + [h]
      ensures ip in old(ipToPeerID) ==>
                peerIPs == old(peerIPs) - {old(ipToPeerID)[ip]} && peerHosts == old(peerHosts) - {old(ipToPeerID)[ip]}
    {
      stopped := stopped + [h];
      var p := if ip in ipToPeerID then ipToPeerID[ip] else "";
      hosts := hosts - {ip};
      ipToPeerID := ipToPeerID - {ip};
      peerIPs := peerIPs - {p};
      peerHosts := peerHosts - {p};
    }

    method RemoveByRemoteID(p: PeerId)
      modifies this
      ensures State() == HostTables.RemoveByRemoteID(old(State()), p)
      ensures Agreed(old(State())) ==> PeerGone(old(State()), State(), p)
    {
      if Agreed(State()) { RemovalExactly(State(), p); }
      if p !in peerIPs { return; }
      var ip := peerIPs[p];
      if ip !in hosts { return; }
      StopHost(hosts[ip], ip);
    }

    /** Walk the hosts in any order, stopping those at matching addresses while the
        walk goes on: each of them is stopped once, and no other. */
    method StopMatching(matches: string -> bool) returns (ghost ips: seq<string>)
      modifies this
      ensures DistinctHosts(old(State()), ips)
      ensures forall ip :: ip in ips <==> ip in old(hosts) && matches(ip)
      ensures State() == StopEach(old(State()), ips)
    {
      ips := [];
      ghost var all := hosts;
      var todo := hosts.Keys;
      while todo != {}
        invariant todo <= all.Keys && DistinctHosts(old(State()), ips)
        invariant forall ip :: ip in ips <==> ip in all && ip !in todo && matches(ip)
        invariant forall ip | ip in todo :: ip in hosts
        invariant State() == StopEach(old(State()), ips)
        decreases |todo|
      {
        ghost var some := Inhabited(todo);
        var ip :| ip in todo;
        todo := todo - {ip};
        if matches(ip) {
          StopHost(hosts[ip], ip);
          assert (ips + [ip])[..|ips|] == ips;
          ips := ips + [ip];
        }
      }
    }

    method RemoveByIP(ipAddrOrPrefix: string) returns (ghost ips: seq<string>)
      modifies this
      ensures DistinctHosts(old(State()), ips)
      ensures forall ip :: ip in ips <==> ip in old(hosts) && ipAddrOrPrefix <= ip
      ensures State() == StopEach(old(State()), ips)
    {
      ips := StopMatching(ip => ipAddrOrPrefix <= ip);
    }

    /** Stop the hosts last seen more than `timeout` from now, as the source reckons it. */
    method CleanupInactive(lastSeen: FakeHost -> Time, now: Time, timeout: int) returns (ghost ips: seq<string>)
      modifies this
      ensures DistinctHosts(old(State()), ips)
      ensures forall ip :: ip in ips <==> ip in old(hosts) && lastSeen(old(hosts)[ip]) > now + timeout
      ensures State() == StopEach(old(State()), ips)
    {
      var all := hosts;
      ips := StopMatching(ip => ip in all && lastSeen(all[ip]) > now + timeout);
    }

    method StopAll() returns (ghost ips: seq<string>)
      modifies this
      ensures Emptied(old(State()), State(), ips)
      ensures State() == HostTables.StopAll(old(State()), ips)
    {
      ips := StopMatching(ip => true);
      StopAllEmpties(old(State()), ips);
      StopEachHosts(old(State()), ips);
      hosts, peerHosts, peerIPs, ipToPeerID := map[], map[], map[], map[];
    }
  }
}
