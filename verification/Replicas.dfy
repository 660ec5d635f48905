/** The receiving half of the protocol: what a client keeps about the lobby, the
    LAN room and the relay host, and what each message does to it. */
module Replicas {
  import opened Wire

  /** The LAN proxy's copy of a room (internal/backend/proxy/direct/game_room.go). */
  datatype LanRoom = LanRoom(id: RoomId, host: Player, players: map<UserId, Player>)

  /** One connected client. Each session runs one proxy; the model keeps the LAN
      room and the relay host side by side, since neither reads the other. */
  datatype Client = Client(
    userID: UserId,
    profile: Profile,
    lobby: seq<Player>,
    lan: Option<LanRoom>,
    host: Option<UserId>)

  function NewLanRoom(id: RoomId, host: Player): LanRoom {
    LanRoom(id, host, map[host.userID := host])
  }

  /** The list without the entries of user u, order kept. */
  function Without(list: seq<Player>, u: UserId): seq<Player> {
    if list == [] then []
    else
      var rest := Without(list[..|list| - 1], u);
      if list[|list| - 1].userID == u then rest else rest + [list[|list| - 1]]
  }

  /** An entry is kept where it stands between what is kept before it and after it, unless
      it is the user's. */
  lemma {:induction false} WithoutInPlace(list: seq<Player>, u: UserId, i: nat)
    requires i < |list|
    ensures Without(list, u) ==
            Without(list[..i], u) + (if list[i].userID == u then [] else [list[i]]) + Without(list[i + 1..], u)
  {
    if i + 1 == |list| {
      var kept := Without(list[..i], u);
      assert list[i + 1..] == [] && kept + [] == kept;
    } else {
      var init, last := list[..|list| - 1], list[|list| - 1];
      WithoutInPlace(init, u, i);
      assert init[..i] == list[..i];
      assert list[i + 1..][..|list[i + 1..]| - 1] == init[i + 1..];
    }
  }

  function ApplyLobby(self: UserId, list: seq<Player>, m: Message): seq<Player> {
    match m
    case LobbyUsers(players) => players
    case JoinLobby(p) => if p.userID == self then list else list + [p]
    case LeaveLobby(p) => Without(list, p.userID)
    case _ => list
  }

  function ApplyLan(lan: Option<LanRoom>, m: Message): Option<LanRoom> {
    if lan.None? then lan
    else match m
      case JoinRoom(p) => Some(lan.value.(players := lan.value.players[p.userID := p]))
      case LeaveRoom(p) => Some(lan.value.(players := lan.value.players - {p.userID}))
      case LeaveLobby(p) => Some(lan.value.(players := lan.value.players - {p.userID}))
      case _ => lan
  }

  function ApplyHost(host: Option<UserId>, m: Message): Option<UserId> {
    if m.HostMigration? then Some(m.player.userID) else host
  }

  /** One message through the lobby handler and then the proxy. */
  function Apply(c: Client, m: Message): Client {
    c.(lobby := ApplyLobby(c.userID, c.lobby, m), lan := ApplyLan(c.lan, m), host := ApplyHost(c.host, m))
  }

  /** The client after it has handled a whole queue. */
  function Fold(c: Client, q: seq<Message>): (c': Client)
    ensures c'.userID == c.userID && c'.profile == c.profile
  {
    if q == [] then c else Apply(Fold(c, q[..|q| - 1]), q[|q| - 1])
  }

  lemma FoldAppend(c: Client, q: seq<Message>, m: Message)
    ensures Fold(c, q + [m]) == Apply(Fold(c, q), m)
  {
    assert (q + [m])[..|q|] == q;
  }

  lemma FoldOne(c: Client, m: Message)
    ensures Fold(c, [m]) == Apply(c, m)
  {
    FoldAppend(c, [], m);
    assert [] + [m] == [m];
  }

  lemma FoldAppendTwo(c: Client, q: seq<Message>, m: Message, n: Message)
    ensures Fold(c, q + [m, n]) == Apply(Apply(Fold(c, q), m), n)
  {
    assert q + [m, n] == (q + [m]) + [n];
    FoldAppend(c, q + [m], n);
    FoldAppend(c, q, m);
  }

  /** Handling the head of the queue does not change where the queue leads. */
  lemma {:induction false} FoldHead(c: Client, q: seq<Message>)
    requires q != []
    ensures Fold(Apply(c, q[0]), q[1..]) == Fold(c, q)
  {
    if |q| > 1 {
      FoldHead(c, q[..|q| - 1]);
      assert q[..|q| - 1][1..] == q[1..][..|q| - 2];
    } else {
      assert q[..0] == [] && q[1..] == [];
    }
  }

  /** The three replicas do not influence one another. */
  lemma {:induction false} FoldIndependent(c: Client, d: Client, q: seq<Message>)
    requires c.userID == d.userID
    ensures c.lobby == d.lobby ==> Fold(c, q).lobby == Fold(d, q).lobby
    ensures c.lan == d.lan ==> Fold(c, q).lan == Fold(d, q).lan
    ensures c.host == d.host ==> Fold(c, q).host == Fold(d, q).host
  {
    if q != [] { FoldIndependent(c, d, q[..|q| - 1]); }
  }
}
