/** Values shared by the console server and its clients: identifiers, the
    player record and the presence messages (internal/wire). */
module Wire {

  type UserId = int
  type RoomId = string

  /** A pointer to a session object on the server; one per connection. */
  type Ref = nat

  /** A clock reading. Go's zero time, which precedes every reading, is 0. */
  type Time = nat

  datatype Option<+T> = None | Some(value: T)

  datatype Result<+T, +E> = Ok(value: T) | Err(error: E)

  /** A walk that has something left to visit can go on. */
  lemma Inhabited<T>(s: set<T>) returns (x: T)
    requires s != {}
    ensures x in s
  {
    x :| x in s;
  }

  /** Maps with the same entries are the same. */
  lemma SameMap<K, V>(m: map<K, V>, n: map<K, V>)
    requires forall k :: k in m <==> k in n
    requires forall k | k in m :: m[k] == n[k]
    ensures m == n
  {
  }

  /** An IP address, in the text that String gives it. */
  datatype IP = V4(text: string) | V6(text: string) {
    /** The text of To4, which only an IPv4 address has; of none, String gives this. */
    function Text4(): string { if V4? then text else "<nil>" }

    /** Both renderings are the same. */
    predicate Plain() { Text4() == text }
  }

  /** What the handshake tells the server about a user and their character. */
  datatype Profile = Profile(username: string, characterID: int, classType: int)

  datatype Player = Player(userID: UserId, profile: Profile, ipAddress: string)

  /** The events of the presence and room protocol that change a replica. */
  datatype Message =
    | LobbyUsers(players: seq<Player>)
    | JoinLobby(player: Player)
    | LeaveLobby(player: Player)
    | JoinRoom(player: Player)
    | LeaveRoom(player: Player)
    | HostMigration(player: Player)
}
