/** The LAN proxy (internal/backend/proxy/direct): its copy of the room it is in,
    proved to follow Replicas, and the snapshot it starts from. */
module LanClient {
  import opened Wire
  import opened ControlPlane
  import opened Replicas
  import opened Protocol

  class GameRoom {
    const id: RoomId
    var host: Player
    var players: map<UserId, Player>

    constructor (name: RoomId, h: Player)
      ensures State() == NewLanRoom(name, h)
    {
      id, host, players := name, h, map[h.userID := h];
    }

    ghost function State(): LanRoom
      reads this
    {
      LanRoom(id, host, players)
    }

    method SetHost(p: Player)
      modifies this`host
      ensures host == p
    {
      host := p;
    }

    method GetPlayer(u: UserId) returns (p: Option<Player>)
      ensures p == if u in players then Some(players[u]) else None
    {
      if u !in players { return None; }
      return Some(players[u]);
    }

    method SetPlayer(p: Player)
      modifies this`players
      ensures players == old(players)[p.userID := p]
    {
      players := players[p.userID := p];
    }

    method DeletePlayer(u: UserId)
      modifies this`players
      ensures players == old(players) - {u}
    {
      players := players - {u};
    }
  }

  /** The first player of the list with the given id. */
  function FirstOf(list: seq<Player>, u: UserId): (p: Option<Player>)
    ensures p.None? <==> forall q | q in list :: q.userID != u
    ensures p.Some? ==> p.value in list && p.value.userID == u
  {
    if list == [] then None
    else if list[0].userID == u then Some(list[0])
    else FirstOf(list[1..], u)
  }

  /** Entering the listed players one after another. */
  function Entered(list: seq<Player>, players: map<UserId, Player>): map<UserId, Player> {
    if list == [] then players
    else
      var p := list[|list| - 1];
      Entered(list[..|list| - 1], players)[p.userID := p]
  }

  /** The entries of m that have been copied. */
  function Copied(m: map<UserId, Player>, seen: set<UserId>): map<UserId, Player> {
    map u | u in m && u in seen :: m[u]
  }

  lemma CopyOneMore(m: map<UserId, Player>, seen: set<UserId>, p: Player)
    requires p.userID in m && m[p.userID] == p
    ensures Copied(m, seen)[p.userID := p] == Copied(m, seen + {p.userID})
  {
  }

  lemma CopiedAll(m: map<UserId, Player>, seen: set<UserId>)
    requires forall u | u in m :: u in seen
    ensures Copied(m, seen) == m
  {
    if m.Keys - seen != {} {
      var u := Inhabited(m.Keys - seen);
      assert false;
    }
    assert m.Keys == (m.Keys - seen) + (m.Keys * seen);
    assert Copied(m, seen) == Copied(m, m.Keys * seen);
  }

  /** If every listed record is the one m has, entering them copies those of m. */
  lemma {:induction false} EnteredFrom(list: seq<Player>, m: map<UserId, Player>, seen: set<UserId>)
    requires forall p | p in list :: p.userID in m && m[p.userID] == p
    ensures Entered(list, Copied(m, seen)) == Copied(m, seen + set p | p in list :: p.userID)
  {
    if list == [] {
      assert seen + (set p | p in list :: p.userID) == seen;
    } else {
      var init, p := list[..|list| - 1], list[|list| - 1];
      assert list == init + [p];
      EnteredFrom(init, m, seen);
      CopyOneMore(m, seen + (set q | q in init :: q.userID), p);
      assert (set q | q in list :: q.userID) == (set q | q in init :: q.userID) + {p.userID};
      assert seen + (set q | q in list :: q.userID) == seen + (set q | q in init :: q.userID) + {p.userID};
    }
  }

  /** What selecting a room makes of the server's answer. */
  function Selection(g: RoomId, hostID: UserId, list: seq<Player>): Option<LanRoom> {
    match FirstOf(list, hostID)
    case None => None
    case Some(host) => Some(LanRoom(g, host, Entered(list, map[host.userID := host])))
  }

  /** From the server's answer about a room, in whatever order it lists the players,
      selecting the room makes a copy of it, host and records included. */
  lemma SelectionCopiesRoom(s: Server, g: RoomId, list: seq<Player>)
    requires WellFormed(s) && g in s.rooms && Answers(s, g, list)
    ensures Selection(g, HostOf(s, g), list) == Some(Snapshot(s, g))
  {
    var all := Snapshot(s, g).players;
    assert HostOf(s, g) in all;
    var host := FirstOf(list, HostOf(s, g)).value;
    assert map[host.userID := host] == Copied(all, {host.userID});
    EnteredFrom(list, all, {host.userID});
    CopiedAll(all, {host.userID} + set p | p in list :: p.userID);
  }

  class LAN {
    const userID: UserId
    const profile: Profile
    var gameRoom: GameRoom?

    constructor (u: UserId, p: Profile)
      ensures userID == u && profile == p && gameRoom == null
    {
      userID, profile, gameRoom := u, p, null;
    }

    ghost function View(): Option<LanRoom>
      reads this, gameRoom
    {
      if gameRoom == null then None else Some(gameRoom.State())
    }

    /** `own` is what the client's configured address parses to. The copy has it as To4
        renders it; the caller sends the server what String gives. */
    method CreateRoom(g: RoomId, own: Option<IP>) returns (ip: Option<IP>)
      modifies this
      ensures ip == own
      ensures View() == match own
        case None => old(View())
        case Some(a) => Some(NewLanRoom(g, Player(userID, profile, a.Text4())))
    {
      if own.None? { return None; }
      gameRoom := new GameRoom(g, Player(userID, profile, own.value.Text4()));
      return own;
    }

    method FindHostUser(hostID: UserId, list: seq<Player>) returns (host: Option<Player>)
      ensures host == FirstOf(list, hostID)
    {
      for i := 0 to |list|
        invariant FirstOf(list, hostID) == FirstOf(list[i..], hostID)
      {
        if list[i].userID == hostID { return Some(list[i]); }
        assert list[i..][1..] == list[i + 1..];
      }
      return None;
    }

    /** Without its host among the players the room is not selected. */
    method SelectGame(g: RoomId, hostID: UserId, list: seq<Player>) returns (ok: bool)
      modifies this
      ensures ok == Selection(g, hostID, list).Some?
      ensures View() == if ok then Selection(g, hostID, list) else old(View())
    {
      var host := FindHostUser(hostID, list);
      if host.None? { return false; }
      var room := new GameRoom(g, host.value);
      for i := 0 to |list|
        invariant fresh(room) && room.id == g && room.host == host.value
        invariant gameRoom == old(gameRoom) && (gameRoom != null ==> gameRoom.State() == old(gameRoom.State()))
        invariant room.players == Entered(list[..i], map[host.value.userID := host.value])
      {
        assert list[..i + 1][..i] == list[..i];
        room.SetPlayer(list[i]);
      }
      assert list[..|list|] == list;
      gameRoom := room;
      return true;
    }

    /** Joining enters oneself in the copy; it fails if no room was selected. Copy and
        request have the address as To4 renders it. */
    method Join(own: Option<IP>) returns (ip: Option<IP>)
      modifies gameRoom
      ensures ip == if old(View()).Some? then own else None
      ensures View() == match (old(View()), ip)
        case (Some(room), Some(a)) =>
          Some(room.(players := room.players[userID := Player(userID, profile, a.Text4())]))
        case _ => old(View())
    {
      if own.None? { return None; }
      if gameRoom == null { return None; }
      gameRoom.SetPlayer(Player(userID, profile, own.value.Text4()));
      return own;
    }

    method Handle(m: Message)
      modifies gameRoom
      ensures View() == ApplyLan(old(View()), m)
      ensures old(View()).Some? ==>
                View().Some? && View().value.id == old(View()).value.id && View().value.host == old(View()).value.host
    {
      if gameRoom == null { return; }
      match m
      case JoinRoom(player) => gameRoom.SetPlayer(player);
      case LeaveRoom(player) => gameRoom.DeletePlayer(player.userID);
      case LeaveLobby(player) => gameRoom.DeletePlayer(player.userID);
      case _ =>
    }
  }
}
