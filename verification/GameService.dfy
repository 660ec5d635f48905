/** The game service's calls (internal/console/game.go): looking at a room, and
    joining one and telling its players. */
module GameService {
  import opened Wire
  import opened ControlPlane
  import opened Protocol
  import opened MultiplayerServer

  class GameServiceServer {
    const multiplayer: Multiplayer

    constructor (mp: Multiplayer)
      ensures multiplayer == mp
    {
      multiplayer := mp;
    }

    /** The records of a room's players, in the order of the walk. */
    method ListPlayers(room: GameRoom) returns (list: seq<Player>)
      requires WellFormed(multiplayer.State())
      requires room.id in multiplayer.rooms && multiplayer.rooms[room.id] == room
      ensures Answers(multiplayer.State(), room.id, list)
    {
      list := [];
      ghost var snap := Snapshot(multiplayer.State(), room.id).players;
      var todo := room.players.Keys;
      while todo != {}
        invariant todo <= room.players.Keys && |list| + |todo| == |room.players|
        invariant forall p | p in list :: p.userID in snap && snap[p.userID] == p
        invariant forall u | u in snap && u !in todo :: exists i :: 0 <= i < |list| && list[i].userID == u
        decreases |todo|
      {
        ghost var some := Inhabited(todo);
        var u :| u in todo;
        ghost var before := list;
        list := list + [multiplayer.heap[room.players[u]].RoomPlayer()];
        assert list[|before|].userID == u;
        forall v | v in snap && v !in todo - {u} ensures exists i :: 0 <= i < |list| && list[i].userID == v {
          if v != u {
            var i :| 0 <= i < |before| && before[i].userID == v;
            assert list[i] == before[i];
          }
        }
        todo := todo - {u};
      }
    }

    /** The room's host and players, as the client's SelectGame takes them. */
    method GetGame(g: RoomId) returns (res: Option<(UserId, seq<Player>)>)
      requires WellFormed(multiplayer.State())
      ensures res.None? <==> g !in multiplayer.rooms
      ensures res.Some? ==>
                res.value.0 == HostOf(multiplayer.State(), g) && Answers(multiplayer.State(), g, res.value.1)
    {
      if g !in multiplayer.rooms { return None; }
      var room := multiplayer.rooms[g];
      var list := ListPlayers(room);
      return Some((multiplayer.heap[room.host].userID, list));
    }

    method JoinGame(g: RoomId, u: UserId, ip: string, now: Time) returns (res: Result<seq<Player>, Error>)
      requires WellFormed(multiplayer.State())
      modifies multiplayer
      ensures multiplayer.State() == ControlPlane.JoinGame(old(multiplayer.State()), g, u, ip, now)
      ensures res.Ok? ==>
                && WellFormed(multiplayer.State()) && g in multiplayer.rooms
                && Answers(multiplayer.State(), g, res.value)
      ensures res.Err? <==> ControlPlane.Join(old(multiplayer.State()), g, u, ip, now).1.Err?
    {
      var joined := multiplayer.JoinRoom(g, u, ip, now);
      if joined.Err? { return Err(joined.error); }
      multiplayer.AnnounceJoin(joined.value, u);
      var list := ListPlayers(joined.value);
      return Ok(list);
    }
  }
}
