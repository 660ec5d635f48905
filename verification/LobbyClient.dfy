/** The client's lobby list (internal/backend/bsession/session_state.go) and the
    handler that keeps it (lobby_event_handler.go), proved to do to the list what
    Replicas says each message does. */
module LobbyClient {
  import opened Wire
  import opened Replicas

  class SessionState {
    var lobbyUsers: seq<Player>

    constructor ()
      ensures lobbyUsers == []
    {
      lobbyUsers := [];
    }

    method UpdateLobbyUsers(users: seq<Player>)
      modifies this
      ensures lobbyUsers == users
    {
      lobbyUsers := users;
    }

    method GetLobbyUsers() returns (users: seq<Player>)
      ensures users == lobbyUsers
    {
      users := lobbyUsers;
    }

    /** Drop every entry of a user, keeping the order of the others. */
    method DeleteLobbyUser(u: UserId)
      modifies this
      ensures lobbyUsers == Without(old(lobbyUsers), u)
    {
      var kept: seq<Player> := [];
      for i := 0 to |lobbyUsers|
        invariant lobbyUsers == old(lobbyUsers)
        invariant kept == Without(lobbyUsers[..i], u)
      {
        assert lobbyUsers[..i + 1][..i] == lobbyUsers[..i];
        if lobbyUsers[i].userID != u {
          kept := kept + [lobbyUsers[i]];
        }
      }
      assert lobbyUsers[..|lobbyUsers|] == lobbyUsers;
      lobbyUsers := kept;
    }
  }

  class LobbyEventHandler {
    const userID: UserId
    const state: SessionState

    constructor (u: UserId, s: SessionState)
      ensures userID == u && state == s
    {
      userID, state := u, s;
    }

    method Handle(m: Message)
      modifies state
      ensures state.lobbyUsers == ApplyLobby(userID, old(state.lobbyUsers), m)
      ensures m.LobbyUsers? ==> state.lobbyUsers == m.players
      ensures m.JoinLobby? && m.player.userID != userID ==> state.lobbyUsers == old(state.lobbyUsers) + [m.player]
      ensures m.JoinLobby? && m.player.userID == userID ==> state.lobbyUsers == old(state.lobbyUsers)
    {
      match m
      case LobbyUsers(players) => state.UpdateLobbyUsers(players);
      case JoinLobby(player) =>
        if player.userID == userID { return; }
        var users := state.GetLobbyUsers();
        state.UpdateLobbyUsers(users + [player]);
      case LeaveLobby(player) => state.DeleteLobbyUser(player.userID);
      case _ =>
    }
  }
}
