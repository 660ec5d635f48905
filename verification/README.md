# Gladiator: a verified model

Gladiator is a lobby and relay server for a peer-hosted game. This project models its
bookkeeping in Dafny and proves what that bookkeeping keeps, over every run.

| part | source | files |
|---|---|---|
| Console control plane: sessions, rooms, host election, presence | `internal/console/multiplayer.go`, `session.go`, `game.go` | `Wire`, `ControlPlane`, `Operations`, `Multiplayer`, `GameService` |
| The clients' copies: lobby list, LAN room, relay host | `internal/backend/lobby_event_handler.go`, `bsession/session_state.go`, `proxy/direct`, `proxy/relay` | `Replicas`, `LobbyClient`, `LanClient`, `PacketRouter` |
| Server, connections and clients as one state machine | all of the above | `Protocol`, `Runs`, `Quiet`, `News`, `Presence`, `HostAgreement`, `LanRoster`, `LanExact`, `Seniority`, `Counterexamples` |
| Relay server rooms | `internal/console/relay_server.go` | `RelayRooms`, `RelayServer`, `RelayLog`, `RelayIndex`, `RelayHistory`, `RelayStreams` |
| Console and relay server together | `internal/console/relay_server.go`, `multiplayer.go` | `Joint` |
| Fake-host manager and host migration | `internal/backend/redirect/host_manager.go`, `proxy/relay` | `Addresses`, `HostTables`, `HostRuns`, `Migration`, `HandOvers`, `Selections`, `HostManager`, `PacketRouter` |
| Packet framing, cursor reader, ranking codec | `internal/backend/packet`, `internal/model/ranking.go`, `command_070_show_ranking.go` | `Bytes`, `Framing`, `Reader`, `Ranking` |

Each object that the source updates in place is a class whose methods have the source's
loops and branches. Each method is proved equal to an effect on a value (`ControlPlane`,
`RelayRooms`, `HostTables`, `Replicas`, `Framing`), and the theorems about runs are about
those effects. What an effect does is also said without it, entry by entry (`Operations`,
`RelayRooms.StepPeers`, `RelayStreams.EventReaches`, `HostTables.RemovalExactly` and others).

## How the model reads the source

- Each public operation is one atomic step. `SetPlayerConnected` holds no lock from listing
  the sessions to the broadcast (`internal/console/multiplayer.go:450-472`), so its atomicity
  is an assumption.
- A session object is a pointer into a table of all objects ever allocated, so that stale and
  duplicate objects are in the model. One connection has one object, and its user id does not
  change. Each connection is a reliable first-in-first-out queue.
- A connection gives a user id twice: as a query parameter (`internal/console/lobby.go:16`), by
  which the session is registered, and in its hello (`internal/console/multiplayer.go:423`),
  which lobby records carry (`internal/console/session.go:74-81`). Nothing compares them, so the
  model keeps both (`userID`, `helloID`), and the theorems that need them equal say so.
- A player may pick another character at any time
  (`internal/backend/command_076_select_character.go:46`); the server is told of the first one
  only (`internal/backend/bsession/session.go:108-121`). This is the event `Reselect`.
- A client's address is an `IP`, which has two renderings. The client's own copy of a room and
  a join request have the text of `To4()` (`internal/backend/bsession/session.go:98-106`,
  `internal/backend/command_034_join_game.go:50`), which is "<nil>" for an IPv6 address; a
  creation request has that of `String()` (`internal/backend/command_028_create_game.go:41`).
- A Go map is walked in any order: the loops choose any remaining key, and the contracts hold
  for whatever order was taken (a ghost result names it).
- Whether an address parses, a socket opens, a packet is sent or a handler fails is a
  parameter. The clock is a parameter of a join.
- Each client carries a lobby list, a LAN room copy and a relay host id side by side. The
  theorems about LAN players and relay players each look at their own part.
- A run's *discipline* (`Runs`) says what its steps may be. `Unrestricted` permits everything;
  the others are named where they are needed. `RelayPlayer(r)` and `LanPlayer(r)` bind one
  client and leave all others free.
- Peer ids are strings in the relay and integers in the console; the model keeps both types.
  `Joint` converts them as the source does: a departing user's id is printed in decimal
  (`internal/console/multiplayer.go:489`), and the relay's handshake reads a peer id as
  `strconv.ParseInt` does, its error ignored (`internal/console/relay_server.go:183`).

## What the proofs found

- **A hand-over loses assignments.** Starting a host writes neither `PeerIPs` nor
  `IPToPeerID`, and stopping one deletes from both. After a hand-over to this client the four
  maps agree only if it dialled nobody (`Migration.ReboundAgreesExactly`), and a rebound peer
  that leaves is never cleaned up (`Migration.ReboundPeersStay`). The other branch, where another
  player becomes host, loses that player's assignment in the same way
  (`Migration.RelistenedAgreesExactly`). Later, a newcomer may be given an address in use and is
  then not dialled (`HandOvers.NewcomerDialledExactly`), and a second hand-over dials peers that
  have left (`HandOvers.DepartedAreDialledAgain`).
- **Lobby lists follow the hello.** A hello that names another user puts that user on every
  list. `Presence.ConnectConvergesExactly` and `DisconnectConvergesExactly` give the exact
  conditions under which the lists stay right.
- **A re-selected character shows in one copy only.** `LanExact.EnterMirrorsExactly` and
  `CreateMirrorsExactly` give the exact conditions under which a member's own copy is the room.
- **An IPv6 creator lists itself without an address.** Its copy of its own room says "<nil>"
  where the server has the address (`LanExact.V6CreatorDiffers`).
- **A stale selection gives the wrong host.** A relay player who joins between a host change
  and its own next selection keeps the host it noted. `HostAgreement.JoinAgreesExactly` gives
  the exact condition; `Counterexamples.StaleSelection` is a run where it fails.
- **A host can re-stamp itself.** A host that joins a second room gets a new `JoinedAt` and may
  then be junior to members of the room it hosts. `Seniority.JoinSeniorExactly` gives the exact
  condition on the join; `Counterexamples.HostRestamped` is a run where it fails.
- **The relay index forgets.** A peer that joins a second relay room is indexed there only,
  though it is in both. `RelayIndex.JoinKeepsIndexExactly` and `LeaveKeepsIndexExactly` give
  the exact conditions; `SecondRoomUnindexed` is a run where it fails.
- **A relay id can outlive its user.** The handshake lets in any id that reads as a registered
  user, and a departure removes one id from one room. `Joint.DepartureExactly` gives the exact
  condition; `Joint.OddNameStays` is a run where it fails.
- **The splitter's bound is too generous after the first frame.** It compares a frame's length
  with `len(buf)+offset`. `Framing.SplitChopsExactly` says exactly when its answer is right,
  and `OverrunPassesBound` is an input on which it slices past the buffer.

## Model

| member | source | states |
|---|---|---|
| Protocol.Step | internal/console/multiplayer.go:206-354 | Every step, with any session objects however stale or duplicated, keeps the tables well-formed: each room is stored under its own id, has members, keys each by its user id, and has as host the very session stored under the host's id among its players |
| Runs.After | internal/console/multiplayer.go:522-536 | So the room and session tables are well-formed after any run of connects, creates, joins, leaves and disconnects |
| Protocol.ConnectView | internal/console/multiplayer.go:450-472 | A connect adds exactly one JoinLobby to the future of every registered session and nothing to anyone else's |
| Protocol.NewcomerView | internal/console/multiplayer.go:407-472 | The newcomer will end with the roster as it was before it, plus itself; if its user was not registered before, it also hears its own JoinLobby, which it ignores unless its hello named somebody else |
| Protocol.DisconnectView | internal/console/multiplayer.go:475-501 | Who hears of a departure: those left in the departed's room of LeaveRoom and, if it hosted, of the new host; and whoever is still registered of LeaveLobby, which names the user of the hello |
| Protocol.JoinView | internal/console/multiplayer.go:356-387 | Only a join that succeeds is announced, to the players already in the room and not to the joiner |
| Presence.PresenceConverges | internal/console/multiplayer.go:450-501 | In every reachable state of every run, double logins included, each registered client's lobby list with its pending messages applied names exactly the registered users, if connects and departures pass the two guards on hellos |
| Presence.PresenceExact | internal/backend/lobby_event_handler.go:38-78 | When hellos name their users and nobody connects as a registered user, unless that user is the only one, that list also has no repeats, and every record in it has the character of that user's registered session and no address |
| Presence.RecordsAreAsOpened | internal/console/session.go:74-81 | In such runs every record on such a list shows, name, character and class each in its place, the character with which that user's registered session was opened by an event of the run, and no address |
| Presence.ConnectConvergesExactly | internal/console/multiplayer.go:450-472 | From lists that are right and registered sessions with true hellos, a connect leaves all lists right if and only if its hello names its user, or its user and the hello's are both registered already |
| Presence.DisconnectConvergesExactly | internal/console/multiplayer.go:475-501 | From right lists, a departure leaves them right if and only if its hello named its user, or nobody else is registered, or neither user is |
| Presence.HonestHellosPass | internal/console/multiplayer.go:407-427 | A run in which every hello names its user passes both guards throughout, whatever else happens |
| Presence.ConnectShowsExactly | internal/backend/lobby_event_handler.go:38-78 | From exact lists, a connect leaves them exact if and only if its hello names its user, who is new or the only one registered |
| Quiet.RunQuiet | internal/console/multiplayer.go:284-337 | In every run a registered session that is in no room has no room message on its way to it |
| News.StepNewsRight | internal/console/multiplayer.go:284-387 | Any step that leaves a session in one room at most keeps its news right: the last migration it has yet to read names its room's host, and whomever its last unread word on that user announces is a player of the room |
| HostAgreement.HostAgreement | internal/backend/proxy/relay/packet_router.go:103-108 | For one relay player among clients of any behaviour: a member is in one room at most, and its pending messages applied to its host id give the room's host on the server, if it is seated only from outside any room with that room's host noted, and while in a room notes another host only with a migration still to read; its own room it may select again and join again at will |
| HostAgreement.StepAgreesExactly | internal/backend/proxy/relay/relay.go:73-214 | That condition is exact for every event, step by step: from agreement, with right news, a step leaves the client in agreement if and only if it meets it |
| HostAgreement.MembersAgreeOnOneMember | internal/console/multiplayer.go:284-337 | If every client meets that condition: once a room's members have drained their inboxes they all name one host, who is a member of the room |
| HostAgreement.JoinAgreesExactly | internal/backend/proxy/relay/relay.go:110-136 | A join that seats a session, whoever sent it, ends in agreement if and only if the session was in no room and the host its client noted is still the host |
| Counterexamples.StaleSelection | internal/backend/proxy/relay/relay.go:110-136 | A run of exactly eight steps, in which a player selects and joins a room as its host changes in between, ends with a member of the room that goes on naming the departed user 1 while user 2 is the host |
| LanRoster.NoGhostPlayers | internal/backend/proxy/direct/proxy_lan.go:73-151 | With any joins and departures between a LAN player's selection and its join, its room copy with its inbox applied lists only players of its room on the server, if it is seated only from outside any room with that room copied, copies no other while in one, and nobody it lists departs under another name from a room it looks at from outside |
| LanRoster.StepNoGhostsExactly | internal/backend/proxy/direct/proxy_lan.go:52-174 | That condition is exact for every event, step by step: from a copy free of ghosts, with right news, a step leaves it free of them if and only if it meets it |
| LanRoster.DisconnectNoGhostsExactly | internal/console/multiplayer.go:475-501 | A departure leaves a copy free of ghosts if and only if it is not one under another name, by somebody the copy lists, from the room that the copy's owner looks at from outside any |
| LanRoster.DisconnectLan | internal/console/multiplayer.go:475-501 | A departure takes the departed off the copy of every player left in the room, and the user its hello named off the copy of every registered client, and touches no other copy |
| LanExact.RosterMirrorsRoom | internal/backend/proxy/direct/proxy_lan.go:73-151 | In orderly runs that copy has exactly the server's players, each with its current record, address included, whatever characters are picked afterwards. Orderly: single logins under true names; rooms created and entered only from outside any room and with the announced character, created with an address that both renderings give alike, entered by selecting and joining in one step with no departure from the room left to read; in a room, only that room is selected again, and the join retried only with the record the server has |
| LanExact.EnterMirrorsExactly | internal/backend/proxy/direct/proxy_lan.go:73-102 | In an orderly state, a player in no room who selects and joins one will hold exactly that room if and only if it plays the character it announced and no pending LeaveLobby names a current player of the room |
| LanExact.CreateMirrorsExactly | internal/backend/bsession/session.go:98-106 | A creator's copy is its room if and only if it plays the character it announced and its address is an IPv4 one, or the text of a missing one |
| LanExact.V6CreatorDiffers | internal/backend/command_028_create_game.go:36-42 | A creator at ::1 has "<nil>" as its own address in its copy and ::1 on the server, so the copy is not the room |
| Seniority.HostsAreSenior | internal/console/multiplayer.go:272-305 | By a clock that does not run backwards, if no join that succeeds re-stamps a host past a member of its room, every host has the earliest stamp in its room in every reachable state, whatever order the election walks |
| Seniority.JoinSeniorExactly | internal/console/multiplayer.go:247-281 | That condition on joins is exact: a successful join keeps hosts senior if and only if it meets it |
| Seniority.NonHostsKeepSeniority | internal/console/multiplayer.go:272-305 | In particular, in every run by such a clock in which no session joins a room while it hosts one |
| Counterexamples.HostRestamped | internal/console/multiplayer.go:272-276 | A run by an honest clock after which one more join, of a second room by a host, leaves the host junior to a guest of its own room |
| MultiplayerServer.Multiplayer.AddUserSession | internal/console/multiplayer.go:522-529 | A user who is registered keeps the session object registered first |
| MultiplayerServer.Multiplayer.DeleteUserSession | internal/console/multiplayer.go:532-536 | The entry goes whichever object it holds |
| MultiplayerServer.Multiplayer.BroadcastMessage | internal/console/multiplayer.go:504-511 | Walking the sessions in any order sends the message once to each registered session and to no other |
| MultiplayerServer.Multiplayer.ListSessions | internal/console/multiplayer.go:550-560 | One record for each registered user in the order walked, with the user its hello named, the character its session came with, and no address; as many as there are registered users |
| MultiplayerServer.Multiplayer.CreateRoom | internal/console/multiplayer.go:206-239 | Fails without a session or if the room exists, changing nothing; otherwise the creator alone is in the new room and keeps its old join stamp |
| MultiplayerServer.Multiplayer.JoinRoom | internal/console/multiplayer.go:247-281 | Its three errors change nothing; otherwise the registered session is re-stamped and entered, and other rooms it was in stay as they are |
| MultiplayerServer.Multiplayer.AnnounceJoin | internal/console/multiplayer.go:356-387 | Everybody in the room but the joiner is told once, whatever the order walked |
| MultiplayerServer.Multiplayer.GetNextHost | internal/console/multiplayer.go:343-354 | The scan gives a player none of the others joined before, and none only if there is no player |
| MultiplayerServer.Multiplayer.LeaveRoom | internal/console/multiplayer.go:284-337 | Equals the abstract leave with an earliest-joined successor: the room is destroyed when empty, and those left hear of the departure and then of the new host if the host left |
| MultiplayerServer.Multiplayer.NotifyLeave | internal/console/multiplayer.go:309-337 | Each player who is left receives the departure before the migration, once |
| MultiplayerServer.Multiplayer.SetPlayerConnected | internal/console/multiplayer.go:450-472 | The newcomer is sent such a record of everyone registered before, and its own; if its user was registered already the older session stays the registered one; and every registered session, no other, is sent the newcomer's record once |
| MultiplayerServer.Multiplayer.SetPlayerDisconnected | internal/console/multiplayer.go:475-501 | Leave the room named by the session's game id, have the relay server drop the user from the room of that id, drop the user's entry, tell the rest |
| Operations.CreateExactly | internal/console/multiplayer.go:206-239 | A room is created exactly for a registered user under an id not in use, each failure told apart; the user's session is its host, creator and only player, keeps its stamp, and no other room, record or inbox changes |
| Operations.JoinFailsExactly | internal/console/multiplayer.go:247-281 | When each of the three errors is given, in the order checked, and that a failed join changes nothing and tells nobody |
| Operations.JoinSeats | internal/console/multiplayer.go:269-281 | A successful join changes of the records only the joiner's room, stamp and address, and of the rooms only the joined one's players, by the joiner |
| Operations.JoinTells | internal/console/multiplayer.go:356-387 | Each player already in the room is sent the joiner's record, character and new address included, once, and nobody else anything |
| Operations.LeaveUnseats | internal/console/multiplayer.go:284-337 | The room that the session names loses the user and goes if it has nobody else; if the user hosted it, the host is from then on a player none of the others joined before, else the same; nothing else changes |
| Operations.LeaveTells | internal/console/multiplayer.go:309-337 | Each player left in the room is sent the leaver's record and then, if the leaver hosted it, the new host's, each once, and nobody else anything |
| Operations.ConnectExactly | internal/console/multiplayer.go:450-472 | What a connect adds to each inbox, records written out, and to the registrations |
| Operations.DisconnectExactly | internal/console/multiplayer.go:475-501 | After the leave the registration goes, and everybody still registered, nobody else, is sent the departed's record once, under the hello's user and without an address |
| GameService.GameServiceServer.GetGame | internal/console/game.go:41-70 | Not found exactly if there is no such room; otherwise the host and exactly one current record per player, in any order |
| GameService.GameServiceServer.JoinGame | internal/console/game.go:103-129 | Join and announce in one step, answered with the players after the join; an error changes nothing |
| LobbyClient.SessionState.DeleteLobbyUser | internal/backend/bsession/session_state.go:29-35 | All entries of the user go and the others keep their order (Replicas.WithoutInPlace) |
| Replicas.WithoutInPlace | internal/backend/bsession/session_state.go:29-35 | Dropping a user from a list keeps every other entry between what is kept of the entries before it and of those after it |
| LobbyClient.LobbyEventHandler.Handle | internal/backend/lobby_event_handler.go:23-84 | The list changes as the presence theorems assume: a whole list replaces it, another user is put last, the client's own JoinLobby is ignored, a departed user is dropped |
| LanClient.LAN.CreateRoom | internal/backend/proxy/direct/proxy_lan.go:52-63 | A new copy with the creator as host and only player, at the address as To4 renders it, while the address itself is returned; unchanged if the own address does not parse |
| LanClient.LAN.SelectGame | internal/backend/proxy/direct/proxy_lan.go:73-88 | Fails, keeping the old copy, exactly if the named host is not among the listed players; otherwise the copy is the listed players with that host |
| LanClient.SelectionCopiesRoom | internal/backend/proxy/direct/proxy_lan.go:73-88 | From the server's answer, in whatever order it lists the players, the selected copy equals the server's room, host and records included |
| LanClient.LAN.Join | internal/backend/proxy/direct/proxy_lan.go:90-102 | Fails without a parsable address or a selected room, changing nothing; otherwise enters oneself, at the address as To4 renders it, and nobody else |
| LanClient.LAN.Handle | internal/backend/proxy/direct/proxy_lan.go:118-174 | The copy changes as the roster theorems assume; its id and host never do |
| RelayRooms.RelayIsSound | internal/console/relay_server.go:193-353 | After any joins, leaves and packets whatever: index entries point to live rooms holding the peer, no room is empty, keys match stored ids, ActiveRooms is the number of rooms, and PeersInRoom is each live room's size and labels no other |
| RelayRooms.PacketEffect | internal/console/relay_server.go:282-302 | No packet changes rooms, index, log or gauges except a leave naming the serving peer or its room |
| RelayRooms.StepPeers | internal/console/relay_server.go:193-353 | Who is in which room after any event, and on which connection: whoever joins it, and whoever was there and does not leave it, or leaves it without being indexed; a peer leaves when its connection ends, or its loop reads a leave packet that names the peer or its room |
| RelayRooms.StepIndex | internal/console/relay_server.go:193-353 | Who is indexed after any event, and where: whoever joins, under that room, and whoever was indexed and leaves no room |
| RelayLog.LogRebuildsRooms | internal/console/relay_server.go:309-353 | After any run, replaying the emitted events from nothing gives exactly the map from rooms to peers |
| RelayLog.DeletesFollowEmptyingLeaves | internal/console/relay_server.go:328-348 | Every logged leave is by a peer who was there, every leave that empties a room is directly followed by its delete, and there is no other delete |
| RelayIndex.IndexIsExact | internal/console/relay_server.go:193-326 | If joins and leaves by an indexed peer name its indexed room, a peer is indexed under r exactly when it is in r, hence never in two rooms |
| RelayIndex.JoinKeepsIndexExactly | internal/console/relay_server.go:205-214 | A join keeps the index exact if and only if the peer is not indexed under another room |
| RelayIndex.LeaveKeepsIndexExactly | internal/console/relay_server.go:309-326 | A leave keeps the index exact if and only if it does not name a room other than the peer's indexed one, because the entry is dropped before the room is checked |
| RelayIndex.SecondRoomUnindexed | internal/console/relay_server.go:213-214 | A two-join run after which a peer is in a room it is not indexed under |
| RelayIndex.RepeatedLeave | internal/console/relay_server.go:313-318 | A second leave, whatever room it names, changes nothing and emits nothing |
| RelayHistory.HistoriesAlternate | internal/console/relay_server.go:230-353 | If peers join only while not indexed, and leaves by an indexed peer name its indexed room, each peer's own log strictly alternates a join and a leave of that same room, and the index tells which comes next |
| RelayHistory.RegisterCurrentExactly | internal/console/relay_server.go:205-236 | The condition on joins is exact: a join keeps the joiner's log alternating and the index in step with it if and only if the joiner was not indexed |
| RelayHistory.LeaveCurrentExactly | internal/console/relay_server.go:309-326 | The condition on leaves is exact: a leave does so if and only if it does not name a room other than the peer's indexed one |
| RelayStreams.RoomsAreIsolated | internal/console/relay_server.go:216-229 | If each stream is registered by one join, every packet ever written to it carries the room id it was registered under |
| RelayStreams.EventReaches | internal/console/relay_server.go:216-302 | After any run with each stream registered by one join, the next event of any kind adds to the stream of each member of each room exactly what is due to it: a udp or tcp packet to the addressee in the room that the packet names, a broadcast to everybody there but the sender it names, a join, as a join packet from the joiner to that member with an empty payload, to everybody in the joined room but the joiner; once each, whatever order is walked, and nothing otherwise |
| RelayStreams.UnheldUnreached | internal/console/relay_server.go:216-302 | In any state whatever, no event writes to a stream that no member of any room holds |
| RelayStreams.BroadcastWrites | internal/console/relay_server.go:398-413 | In any state with sound streams, a broadcast adds one copy to each stream held in the room by somebody other than the named sender, and nothing to any other stream, held or not |
| RelayServerClass.RelayServer.JoinRoom | internal/console/relay_server.go:193-239 | The newcomer replaces an entry of its own id, everybody else there is told once in some order (with what, EventReaches says), and log and gauges follow |
| RelayServerClass.RelayServer.LeaveRoom | internal/console/relay_server.go:309-353 | The index entry is dropped first; room, log and gauges change only if the peer was in the named room, which goes when it empties |
| RelayServerClass.RelayServer.SendTo | internal/console/relay_server.go:379-396 | One write to the addressed peer, none if the room or the peer is missing |
| RelayServerClass.RelayServer.BroadcastFrom | internal/console/relay_server.go:398-413 | One write for each peer of the room but the sender, in some order |
| RelayServerClass.RelayServer.HandlePacket | internal/console/relay_server.go:282-302 | The packet switch takes exactly the step of the state machine, and ends the loop exactly for a leave packet that names the serving peer or its room, leaving as the serving peer |
| Joint.RelayHoldsOnlyRegistered | internal/console/relay_server.go:162-190 | In every run of console and relay together, from nothing, every peer in any relay room speaks for a registered user, if whoever departs has no peer in relay rooms but the one of its own name, indexed and in the room its session names |
| Joint.DepartureExactly | internal/console/multiplayer.go:475-501 | That condition is exact: a departure leaves only registered users in relay rooms if and only if it meets it |
| Joint.NameSpeaks | internal/console/relay_server.go:183-186 | The id that the console names when a user departs reads back, as the handshake reads it, as that user, for every 64-bit id |
| Joint.OtherIdsSpeak | internal/console/relay_server.go:183 | Ids that are no number read as user 0, numbers out of the 64-bit range as the nearest user in it |
| Joint.OddNameStays | internal/console/relay_server.go:183-190 | A run of two steps, user 7 connecting and a peer 007 joining a relay room, after which user 7 departs and 007 stays in the room |
| Addresses.PoolExhausted | internal/backend/redirect/host_manager.go:61-75 | There are 253 different addresses to hand out, and 253 held ones leave none |
| Addresses.KnownAddresses | internal/backend/redirect/host_manager.go:66-70 | Two addresses in full, 127.0.0.2 and 127.0.1.254 |
| HostTables.LowestFreeSpec | internal/backend/redirect/host_manager.go:61-75 | The scan finds the lowest free octet of 2 to 254, and fails only if all are taken |
| HostTables.StartAgreedExactly | internal/backend/redirect/host_manager.go:176-177 | From agreement, a host that starts keeps the four maps in agreement if and only if it starts on its peer's assigned address |
| HostTables.StopAgreed | internal/backend/redirect/host_manager.go:318-338 | Stopping at an address keeps agreement whatever host it is given, a stale one too |
| HostTables.RemovalExactly | internal/backend/redirect/host_manager.go:299-316 | From agreement, removing a peer that has a host takes the peer out of PeerHosts and PeerIPs and its address out of Hosts and IPToPeerID, stops that host once, and touches no other entry; removing a peer without a host changes nothing |
| HostTables.StopEachExactly | internal/backend/redirect/host_manager.go:288-297 | Stopping a batch of running hosts in any order removes exactly those hosts and their assignments and stops each once |
| HostRuns.TablesAgree | internal/backend/redirect/host_manager.go:278-351 | In every run with non-empty ids that starts no host away from its peer's assigned address, whatever it stops and in whatever name, PeerIPs and IPToPeerID are inverse and Hosts and PeerHosts hold the same hosts through them |
| HostRuns.DepartedPeersAreGone | internal/backend/redirect/host_manager.go:299-316 | So it does after every such disciplined run |
| HostRuns.StepAgreesExactly | internal/backend/redirect/host_manager.go:44-351 | That condition is exact for each of the nine events, the two hand-over branches among them: from agreement, the step keeps the four maps in agreement if and only if it starts no host away from its peer's assigned address |
| HostRuns.RunSound | internal/backend/redirect/host_manager.go:56-76 | In every run with non-empty ids, hand-overs and hosts started at any address included, PeerIPs and IPToPeerID stay inverse and every assigned address is one of the 253 |
| HostRuns.AllocatorIsFirstFit | internal/backend/redirect/host_manager.go:56-76 | After any run with non-empty ids, hand-overs and hosts started at any address included, AssignIP is idempotent, gives a new peer the lowest free 127.0.x.i with 2 <= i <= 254, changing no other entry of any map, and fails, changing nothing, exactly when the peer has none and 253 are held |
| HostRuns.AddressesAreDistinct | internal/backend/redirect/host_manager.go:44-76 | After any such run distinct peers hold distinct addresses |
| HostRuns.JoinIsAssignAndStart | internal/backend/proxy/relay/packet_router.go:445-485 | With inverse address tables a mid-game arrival amounts to assign and start: recording the host changes nothing |
| HostManagerClass.HostManager.AssignIP | internal/backend/redirect/host_manager.go:56-76 | The scanning loop is the first-fit allocator |
| HostManagerClass.HostManager.StartGuest | internal/backend/redirect/host_manager.go:89-181 | Fails at an address in use or if a socket does not open, changing nothing; otherwise a new dialler is in Hosts and PeerHosts and in no other map |
| HostManagerClass.HostManager.StartHost | internal/backend/redirect/host_manager.go:184-275 | The same for a listener |
| HostManagerClass.HostManager.SetHost | internal/backend/redirect/host_manager.go:278-285 | All four maps are written |
| HostManagerClass.HostManager.StopHost | internal/backend/redirect/host_manager.go:318-338 | The given host is stopped; the address and the peer it is assigned to go from all four maps |
| HostManagerClass.HostManager.RemoveByRemoteID | internal/backend/redirect/host_manager.go:299-316 | Nothing happens unless the peer has an address with a host running at it; from agreement, exactly the peer, its host and its entries go |
| HostManagerClass.HostManager.RemoveByIP | internal/backend/redirect/host_manager.go:288-297 | Deleting during the walk, each host whose address begins with the argument is stopped once, and no other |
| HostManagerClass.HostManager.CleanupInactive | internal/backend/redirect/host_manager.go:340-351 | Deleting during the walk, each host last seen after now plus the timeout is stopped once, and no other |
| HostManagerClass.HostManager.StopAll | internal/backend/redirect/host_manager.go:44-54 | Every running host is stopped once, in the order walked, and all four maps are empty |
| Migration.StartEachExactly | internal/backend/proxy/relay/packet_router.go:130-153 | Starting hosts for different peers at different free addresses gives each its own new host, touches no other entry and no assignment |
| Migration.AllStopped | internal/backend/proxy/relay/packet_router.go:123-127 | From agreement the stop loop empties Hosts and PeerHosts, and its rebind map is the old map from peers to addresses |
| Migration.EachStoppedOnce | internal/backend/proxy/relay/packet_router.go:123-127 | It stops each old host once, in the order walked |
| Migration.BecomingHost | internal/backend/proxy/relay/packet_router.go:121-153 | From agreement, if all dials succeed, the two loops stop each old host once and end with the same peers at the same addresses, each on a dialler of its own newer than any host before, Hosts holding exactly those, and the address tables cut down to peers that had no host |
| Migration.ReboundAgreesExactly | internal/backend/proxy/relay/packet_router.go:121-153 | Afterwards, dials failing or not, the four maps agree if and only if nobody was dialled |
| Migration.ReboundPeersStay | internal/backend/redirect/host_manager.go:299-316 | Afterwards a rebound peer that leaves is not removed |
| Migration.OtherBecomesHost | internal/backend/proxy/relay/packet_router.go:163-198 | From agreement the new host's proxy is replaced by a listener at its address, no other host is touched, and its assignment is lost, so the maps disagree |
| Migration.NoListenerTakesOver | internal/backend/proxy/relay/packet_router.go:163-198 | From agreement, without a running proxy of the new host this branch changes nothing, and if the listener does not open exactly the proxy and its entries go |
| Migration.RelistenedAgreesExactly | internal/backend/proxy/relay/packet_router.go:163-198 | After this branch the four maps agree if and only if the new host had no proxy or the listener did not open |
| HandOvers.DepartureStopsNothing | internal/backend/redirect/host_manager.go:299-316 | After a complete hand-over to this client, a departure changes nothing, whoever departs |
| HandOvers.NewcomerDialledExactly | internal/backend/proxy/relay/packet_router.go:445-485 | A newcomer after a complete hand-over is dialled if and only if its sockets open and the lowest unassigned address is not one the rebound hosts run at |
| HandOvers.FirstAddressGivenTwice | internal/backend/redirect/host_manager.go:56-76 | If every assigned peer ran and 127.0.x.2 was in use, the first newcomer after the hand-over is given 127.0.x.2 again and is not dialled |
| HandOvers.StopLoopKeepsExactly | internal/backend/proxy/relay/packet_router.go:123-127 | From tables in which the peers' hosts run at different addresses, none assigned to another peer that has a host, the stop loop, in any order and cut short or not, takes out of PeerHosts exactly the peers walked whose hosts run at their own assigned addresses |
| HandOvers.DepartedAreDialledAgain | internal/backend/proxy/relay/packet_router.go:121-153 | A complete hand-over, any departure, and another complete hand-over: the second dials exactly the peers that had hosts before the first, the departed among them, each at its old address |
| Selections.SelectionInTurn | internal/backend/proxy/relay/relay.go:121-133 | From empty tables a selection, whomever the room lists and however often, gives the different players but oneself the addresses 127.0.x.2, 127.0.x.3 and so on in the order in which they are first listed, and nobody else one; it fails exactly if there are more than 253 of them, and then the first 253 hold theirs |
| Selections.SelectionAgrees | internal/backend/proxy/relay/relay.go:121-133 | With non-empty ids a selection, complete or not, keeps the four maps in agreement and starts and stops nothing |
| Selections.JoiningListensForAll | internal/backend/proxy/relay/relay.go:171-209 | With every listener opening, a join after a selection runs one new listener per selected player at its address, and the maps agree |
| PacketRouterClass.PacketRouter.Reset | internal/backend/proxy/relay/packet_router.go:39-55 | Every host is stopped once, in the order walked, the tables are empty, room and host are forgotten and one's own id is not |
| PacketRouterClass.PacketRouter.HandleLeaveRoom | internal/backend/proxy/relay/packet_router.go:93-101 | From agreement another peer's departure takes exactly that peer, its host and its entries; one's own changes nothing |
| PacketRouterClass.PacketRouter.DynamicJoin | internal/backend/proxy/relay/packet_router.go:445-485 | An arrival is assigned, dialled and recorded; if the dial fails the address stays assigned |
| PacketRouterClass.PacketRouter.HandleHostMigration | internal/backend/proxy/relay/packet_router.go:103-207 | The host id is always noted; as host oneself the two loops run, the second over different peers up to the first failing dial; otherwise only the new host's proxy is replaced |
| PacketRouterClass.PacketRouter.CreateRoom | internal/backend/proxy/relay/relay.go:73-87 | Every old host is stopped once, in the order walked, and the tables are emptied; one is host of the named room |
| PacketRouterClass.PacketRouter.SelectGame | internal/backend/proxy/relay/relay.go:110-136 | Every old host is stopped once. With the host listed, it is noted, and the different players but oneself get 127.0.x.2 and so on in the order first listed; without it, nothing is noted or assigned. It succeeds exactly with the host listed and at most 253 others, and on failure the first 253 hold their addresses |
| PacketRouterClass.PacketRouter.Join | internal/backend/proxy/relay/relay.go:155-214 | A listener for each assigned peer in some order, up to the first that fails to start or to the host's if it does not answer once started |
| PacketRouterClass.PacketRouter.GetPlayerAddr | internal/backend/proxy/relay/relay.go:138-153 | Loopback for oneself, the assigned address for a peer, an error for a stranger |
| Framing.EncodePacket | internal/backend/packet/encoder.go:7-20 | The buffer filled in place is header, code, low 16 bits of the whole length, payload |
| Framing.EncodeBytes | internal/backend/packet/encoder.go:7-20 | An encoded packet byte by byte: 255, the code, the low and the high byte of the whole length, the payload |
| Framing.FitsExactly | internal/backend/packet/encoder.go:12 | A packet is split off whole again if and only if its payload has at most 65531 bytes |
| Framing.Split | internal/backend/packet/split.go:8-38 | The bounded loop equals the recursive frame parser with fuel 10, panics included; an input under 4 bytes is one short frame |
| Framing.ShortInputIgnored | internal/backend/packet/split.go:9-11 | An input under 4 bytes is split into itself alone, and the dispatcher makes nothing of it |
| Framing.FramesTile | internal/backend/packet/split.go:15-37 | The frames found lie one after another, each as long as it says, at most as many as the fuel, and the parser stopped for want of fuel or of a frame |
| Framing.SplitChopsExactly | internal/backend/packet/split.go:26-32 | On 4 bytes or more, the frames found are those wholly within the input, whatever the spare capacity holds, if and only if no frame reached overruns the input within the source's bound |
| Framing.OverrunPassesBound | internal/backend/packet/split.go:29 | An eight-byte input whose second frame is cut past the buffer, or takes in bytes never received |
| Framing.SplitFindsExactly | internal/backend/packet/split.go:8-38 | For whole frames followed by a tail, the first ten frames and no more are found if and only if there were ten or the splitter stops at the tail |
| Framing.RoundTrip | internal/backend/dispatcher.go:64-74 | The packets encoded are the packets dispatched, in order, up to ten, when a tail is short or does not begin with 255 |
| Framing.RecoverInPlace | internal/backend/dispatcher.go:66-74 | A frame gives its code and payload exactly if it has four bytes and begins with 255, between what the frames before it and those after it give |
| Framing.HandleCommands | internal/backend/dispatcher.go:66-161 | Handlers get the codes and payloads of the frames with a whole header, in order, up to and including the first that fails |
| Reader.TakesStringExactly | internal/backend/packet/reader.go:23-39 | A terminated string is read back, and what follows it kept, exactly if it has no NUL inside; otherwise something shorter is read |
| Reader.Cursor.ReadString | internal/backend/packet/reader.go:23-39 | Up to the next NUL, which is skipped; without one nothing moves; the cursor stays inside the data |
| Reader.Cursor.ReadNBytes | internal/backend/packet/reader.go:45-55 | Exactly n bytes, or none and the cursor unmoved |
| Reader.Cursor.ReadUint32 | internal/backend/packet/reader.go:73-79 | Four bytes, lowest first, or none and the cursor unmoved |
| Reader.Cursor.ReadUint16 | internal/backend/packet/reader.go:65-71 | Two bytes, lowest first, or none and the cursor unmoved |
| Reader.Cursor.ReadUint8 | internal/backend/packet/reader.go:57-63 | One byte, or none and the cursor unmoved |
| Ranking.RankingToBytes | internal/model/ranking.go:9-31 | The appending loop prints the count, each row and the player's own row |
| Ranking.KnownReply | internal/model/ranking.go:9-31 | The bytes that internal/model/ranking_test.go:12-57 expects of its reply, whatever the names |
| Ranking.ReplyRoundTripExactly | internal/model/ranking.go:9-31 | A reply is read back to its last byte if and only if no name has a NUL inside and there are fewer than 2^32 rows |
| Ranking.RepliesArePrefixFree | internal/model/ranking.go:9-31 | Among such replies, different ones never share an encoding and none begins another |
| Ranking.NewRankingRequest | internal/backend/command_070_show_ranking.go:54-74 | The buffer filled in place is class type, three zeros, offset, two terminated strings |
| Ranking.KnownRequest | internal/backend/command_070_show_ranking.go:54-100 | The bytes of a request whose offset takes two of them, and that they are read as that request, as internal/backend/command_070_show_ranking_test.go:28-66 expects |
| Ranking.Parse | internal/backend/command_070_show_ranking.go:76-100 | Reading with the cursor gives the request, the class type cut to a byte, or the first of four errors |
| Ranking.RequestRoundTripExactly | internal/backend/command_070_show_ranking.go:54-100 | A printed request is parsed back if and only if neither string has a NUL inside |
| Ranking.ParsesExactly | internal/backend/command_070_show_ranking.go:76-100 | Bytes are a request exactly if two NULs come after the eighth byte, and the error says which part is missing |
| Ranking.ReprintsExactly | internal/backend/command_070_show_ranking.go:54-100 | Printing what was parsed gives the bytes read, up to trailing ones, if and only if the three bytes the class type loses were zero |

## Left out

- Sockets, QUIC, WebRTC, websockets, TLS, JSON and CBOR, goroutines, timers, keep-alives and probes: a started proxy is a record, a stream or inbox is a sequence, and the closing of a leaver's relay stream is not shown.
- Failed sends, which mark a session disconnected, and the relay client's resets from keep-alive and probe callbacks: inboxes are reliable.
- Interleaving inside one public operation, and the locks that prevent it.
- `cleanupPeers`, which nothing starts, and the recording of when a host was last seen, which `CleanupInactive` takes as a parameter.
- `connect` to the relay server, the handshake's wire form and packet signatures: the relay client's `CreateRoom` and `Join` begin after it has succeeded, and of the handshake only its check for a registered user is modelled.
- A relay selection that runs out of addresses is in the router and the manager but not in the protocol runs, where selecting a room that exists succeeds; so is a LAN address that does not parse.
- Framing.HandleCommands: does not model what the handlers do, only which packets reach them and that the first failure ends the round.
- Framing.Split: does not model that the frames share the buffer's storage; they are values.
- Reader.Cursor.ReadNBytes: does not model that the result shares the data's storage, nor negative counts, which no caller passes.
- RelayServerClass.RelayServer.JoinRoom: assumes that the room's peers are stored under their own ids, which RelayIsSound proves of every reachable state.
- The hello message and its reading (`HandleHello`): a connecting session object arrives with its user's details filled in.
- The LAN copy's host field follows the source in never changing after selection, so no agreement on it is claimed.
- Room passwords, map ids, readiness, chat and RTC forwarding: they do not touch the tables.
- `ListGames`, `CreateGame` and the remaining service calls: thin wrappers over the operations modelled.
- The other request parsers and `CharacterInfo`: straight-line code over the reader modelled here.
- The `p2p` package, the database, generated code, the command line and the graphical interface.
