# ups-server game and session engine in Dafny

This project models the engine of the ups-server rock-paper-scissors server.
The server keeps a registry of players and two-seat lobbies. It plays fixed
three-round matches. It binds TCP connections to players and gates every
request on the connection's session phase. It keeps a heartbeat per
connection and frames the byte stream into protocol lines. The model
describes each part below and proves properties about it.

- `Wrappers` (`wrappers.dfy`): `Option`, plus `Pick`, an unspecified choice
  from a set. `Pick` stands for the iteration order of `std::unordered_map`.
- `Moves` (`moves.dfy`): `MoveType` and the one-letter move codec of
  `src/GameTypes.hpp`.
- `Lobbies` (`lobbies.dfy`): the `Player` and `Lobby` records of
  `src/Game.hpp` with their field defaults, and the pure rules of
  `src/Game.cpp`:
  - round evaluation and the match end;
  - what each registry operation does to one lobby value;
  - the lobby invariant `LobbyInv`: at most two distinct members, slots
    cleared at rest, wins never above rounds, rematch flags only after a
    finished match.
- `LobbyFacts` (`lobby_facts.dfy`): lemmas about those rules. They cover
  invariant preservation, single resolution of a round, three-round
  matches, order independence of the two submissions, and the rematch
  handshake.
- `Registry` (`registry.dfy`): class `Game`, the registry of
  `src/Game.cpp`.
  - Its fields `players`, `lobbies`, `nextUserId` and `nextLobbyId` are maps
    and counters that its methods reassign in place.
  - A `Lobby*` is a lobby id.
  - Every method is proved against ghost specification functions (`LobbyOf`,
    `AfterLeave`, `Submission`, `AfterSubmit`) and keeps `Valid()`. `Valid()`
    holds when ids are positive and below the counters, every lobby
    satisfies `LobbyInv`, and no player sits in two lobbies.
- `Sessions` (`sessions.dfy`): the pure parts of `src/server.cpp` with the
  enums of `src/Protocol.hpp`:
  - `get_phase` as a function of the registry state;
  - the `is_request_allowed` matrix;
  - the heartbeat timing rule in integer milliseconds;
  - the line framing of `handle_client_data`;
  - the response tags.
- `Server` (`server.dfy`): class `Server` of `src/server.cpp`. Its fields
  are `fd_to_player`, `heartbeats`, `client_buffers` and the `game`
  registry.
  - Every line sent and every socket closed is appended, as a tag, to the
    field `log`.
  - `handle_request` and each of its cases, `disconnect_fd`,
    `notify_lobby_peers_player_left`, `heartbeat_tick` and
    `handle_client_data` are methods.
  - Each is proved against the registry's specification functions and the
    broadcast function `Notices`.
- `Protocol` (`protocol.dfy`): `split`, `request_type_from_string` and
  `parse_request_line` of `src/Protocol.cpp`, with that file's own
  `RequestType` (`Login` .. `Ping`, `Unknown`).

The model follows the code where the code and its documentation differ:

- A match ends only after exactly three rounds; two wins do not end it
  (`src/Game.cpp:112-119`).
- Neither player names nor lobby names are checked for uniqueness.
  - `joinLobby` joins the first lobby with the name in map order. That
    order is an unspecified choice in the model.
  - A full lobby with the name can make the join fail, when map order
    reaches it before a same-named lobby that has room.
- `LOGOUT` removes the player and erases its binding before calling
  `disconnect_fd` (`src/server.cpp:310-319`). So when `disconnect_fd`
  runs, the connection is no longer bound, and no lobby peer is told that
  the game cannot continue. `DoLogout` states exactly this.
- `LEAVE_LOBBY` sends nothing to the member who stays.
- `PONG` never compares the nonce.

## Model

| member | source | states |
|---|---|---|
| Moves.MoveToString | src/GameTypes.hpp:12-19 | the token is empty exactly for the empty slot; each real move is the one-letter string of its initial |
| Moves.StringToMove | src/GameTypes.hpp:21-26 | decoding succeeds exactly on "R", "P" and "S" and never yields the empty slot; None (the out-parameter left untouched) on every other string |
| Moves.MoveRoundTrip | src/GameTypes.hpp:12-26 | decoding the token of a real move gives that move back |
| Moves.TokenRoundTrip | src/GameTypes.hpp:12-26 | a token that decodes is the token of what it decodes to |
| Moves.EmptySlotHasNoToken | src/GameTypes.hpp:17-25 | the empty slot's token "" does not decode |
| Lobbies.NewLobby | src/Game.cpp:23-27 | a created lobby has every field at its default from src/Game.hpp:19-30, satisfies the lobby invariant, and seats only its creator |
| Lobbies.SeatOf | src/Game.cpp:49-50 | the first position holding the id, or the length when there is none |
| Lobbies.CanStartGame | src/Game.cpp:83-85 | a lobby can start a game exactly when it has two members and is not in game |
| Lobbies.CanStartRematch | src/Game.cpp:216-221 | a lobby can start a rematch exactly when it has two members, its match has just ended and both rematch flags are set |
| Lobbies.Depart | src/Game.cpp:49-66 | the lobby disappears exactly when the leaver was its only member; otherwise the leaver is gone, everyone else keeps a seat, and every game field is reset |
| Lobbies.RemoveSeatKeepsOthers | src/Game.cpp:51 | erasing position i removes that member and only that member |
| Lobbies.EvaluateRound | src/Game.cpp:100-107 | 0 exactly for equal moves; for real moves 1 exactly when the first seat's move beats the second's on the Rock-Paper-Scissors cycle, 2 exactly when the reverse holds |
| Lobbies.EvaluateRoundSwaps | src/Game.cpp:100-107 | swapping two distinct real moves swaps results 1 and 2 |
| Lobbies.CheckMatchEnd | src/Game.cpp:109-120 | the match is over exactly when three rounds were played; the winner is the seat with more wins, 0 on a tie |
| Lobbies.Settle | src/Game.cpp:161-194 | a resolved round raises the winner's count by one (neither on a draw), names the round winner (0 on a draw), counts one more round, clears both slots, and reports both moves and the totals; the match ends exactly at the third round, and then the lobby leaves the game, is marked just ended, and the match winner is the seat with more wins (0 on a tie) |
| Lobbies.Submit | src/Game.cpp:135-197 | the move is refused, with the lobby unchanged, exactly when the lobby is not a two-player game in progress, the caller has no seat in it, or the caller's slot is already filled |
| Lobbies.Rematch | src/Game.cpp:200-214 | the request succeeds exactly in a finished two-player match the caller sits in, and sets only the caller's flag |
| LobbyFacts.StartedKeepsInvariant | src/Game.cpp:87-98 | a started match satisfies the lobby invariant, is in game, and has no rounds played |
| LobbyFacts.JoinedKeepsInvariant | src/Game.cpp:38-40 | a join into a lobby with room keeps the invariant, so a lobby never has more than two members |
| LobbyFacts.DepartKeepsInvariant | src/Game.cpp:49-66 | a lobby that survives a departure satisfies the invariant |
| LobbyFacts.SubmitKeepsInvariant | src/Game.cpp:122-198 | every submission keeps the invariant (slots never both filled at rest, wins at most rounds, rounds at most three) and keeps the lobby's members and id |
| LobbyFacts.RoundResolvedOnce | src/Game.cpp:162-180 | a resolved round adds exactly one round, empties both slots, and adds at most one win |
| LobbyFacts.RepeatedMoveRejected | src/Game.cpp:144-159 | a second move from the same seat in the same round is refused and changes nothing |
| LobbyFacts.MatchEndsAtThirdRound | src/Game.cpp:182-191 | the match ends exactly when the round resolved is the third one, and no final score is 2 to 2 |
| LobbyFacts.SubmissionOrderIrrelevant | src/Game.cpp:145-163 | the two seats' moves give the same resolved round and lobby in either order |
| LobbyFacts.MatchLastsThreeRounds | src/Game.cpp:112-119 | whatever is played, a started match is running after two rounds and over after the third |
| LobbyFacts.TwoWinsDoNotEndMatch | src/Game.cpp:112-119 | two wins after two rounds leave the match in progress |
| LobbyFacts.RematchNeedsBothFlags | src/Game.cpp:200-221 | after a match, one request is not enough, a repeated request changes nothing, and the other member's request makes the rematch startable, in either order |
| LobbyFacts.RematchKeepsInvariant | src/Game.cpp:200-214 | a successful rematch request keeps the invariant |
| Registry.Game.constructor | src/Game.hpp:61-65 | no players, no lobbies, both counters at 1 |
| Registry.Game.LobbyOf | src/Game.cpp:73-81 | the lobby returned seats the player; None means no lobby seats it |
| Registry.Game.LobbyOfUnique | src/Game.cpp:73-81 | a lobby seating the player is the one lookup finds, since no player sits in two lobbies |
| Registry.Game.GetLobbyOf | src/Game.cpp:73-81 | the scan in any map order finds the player's lobby exactly when one seats it |
| Registry.Game.AddPlayer | src/Game.cpp:4-8 | the new id is the counter, greater than every earlier id; the name is registered under it without any uniqueness check |
| Registry.Game.RemovePlayer | src/Game.cpp:10-17 | the player leaves its lobby as in leaveLobby and its record is erased; nothing else changes |
| Registry.Game.CreateLobby | src/Game.cpp:19-29 | fails with no state change exactly when the caller already sits in a lobby; otherwise adds a lobby under a fresh id with the caller as its only member |
| Registry.Game.JoinLobby | src/Game.cpp:31-44 | fails with no state change when the caller already sits in a lobby, no lobby has the name, or the first lobby found with it is full; on success appends the caller to a lobby with that name that had room |
| Registry.Game.LeaveLobby | src/Game.cpp:46-71 | the lobbies become AfterLeave: an emptied lobby is erased, otherwise it is reset; other lobbies are unchanged and the player sits nowhere |
| Registry.Game.AfterLeaveKeeps | src/Game.cpp:46-71 | leaveLobby creates no lobby and leaves every lobby that does not seat the player exactly as it was |
| Registry.Game.EraseSeat | src/Game.cpp:49-66 | erasing the member at a position erases or resets that lobby only |
| Registry.Game.EraseLobby | src/Game.cpp:53-54 | the lobby its last member left is erased and every other lobby is kept |
| Registry.Game.StartGame | src/Game.cpp:87-98 | the lobby becomes a fresh match in progress; a missing lobby (null pointer) changes nothing |
| Registry.Game.SubmitMove | src/Game.cpp:122-198 | the result is Rejected, with no state change, exactly when the caller has no lobby or its lobby refuses the move; otherwise the caller's lobby becomes the submitted one and every lobby keeps its members |
| Registry.Game.PlayInLobby | src/Game.cpp:138-195 | the seat checks and round resolution, performed on the found lobby, compute exactly Submit |
| Registry.Game.RequestRematch | src/Game.cpp:200-214 | succeeds exactly when the lobby exists and Rematch accepts the caller; then only the caller's flag is set, otherwise nothing changes |
| Registry.Game.StartRematch | src/Game.cpp:223-225 | the same reset as startGame |
| Sessions.DerivePhase | src/server.cpp:105-123 | NotLoggedIn exactly for an unbound connection; LoggedInNoLobby exactly without a lobby; AFTER_GAME exactly when the match just ended, checked before InGame; InLobby otherwise; never INVALID |
| Sessions.IsRequestAllowed | src/server.cpp:125-163 | LOGOUT, PONG and STATE are allowed in every phase but INVALID; LOGIN only when not logged in; CREATE_LOBBY and JOIN_LOBBY only without a lobby; MOVE only in game; REMATCH only after a game; LEAVE_LOBBY only in a lobby or after a game; INVALID never |
| Sessions.GateAgainstLobbyState | src/server.cpp:105-163 | the gate, on the registry state: LOGIN is admitted exactly when unbound, MOVE exactly in a running match, REMATCH exactly after a match, LEAVE_LOBBY never during a running match |
| Sessions.SessionRequestsAlwaysAllowed | src/server.cpp:125-163 | every phase get_phase can produce admits LOGOUT, PONG and STATE |
| Sessions.NewHeartbeat | src/server.cpp:89-93 | a new connection has just ponged, was pinged one interval ago, and has no nonce |
| Sessions.BeatOf | src/server.cpp:216-233 | the connection times out exactly when more than 5000 ms passed since the last pong; otherwise a ping is due exactly when at least 2000 ms passed since the last ping |
| Sessions.NewConnectionPingedFirst | src/server.cpp:89-93 | a new connection is due a ping on its first tick |
| Sessions.NoPingWithinInterval | src/server.cpp:226-229 | after a ping, none is due before the interval has passed |
| Sessions.PongKeepsAlive | src/server.cpp:480-496 | a pong keeps the connection alive for the whole timeout |
| Sessions.SilenceTimesOut | src/server.cpp:216-220 | past the timeout the connection is dropped, however recently it was pinged |
| Sessions.FindNewline | src/server.cpp:264-265 | the position of the first '\n', or None exactly when there is none |
| Sessions.Frames | src/server.cpp:262-270 | the complete lines without their '\n', and a remainder free of '\n' |
| Sessions.FramesRebuild | src/server.cpp:262-270 | the lines, each with its '\n', followed by the remainder, give back the buffer |
| Sessions.UnframeFrames | src/server.cpp:262-270 | framing a rebuilt buffer gives back exactly its lines and remainder |
| Sessions.FrameStep | src/server.cpp:264-269 | taking the first line off the buffer leaves exactly the remaining lines to frame |
| Server.Server.constructor | src/server.cpp:28-41 | no connections, bindings, buffers or heartbeats, and an empty registry |
| Server.Server.NoticesReach | src/server.cpp:172-179 | a broadcast reaches exactly the connected members other than the skipped one, at most one line per member |
| Server.Server.SendToUser | src/server.cpp:174-178 | the message goes to the connection bound to the user, if any |
| Server.Server.SendToMembers | src/server.cpp:172-179 | the lines sent are the broadcast Notices in member order |
| Server.Server.SendUnlessSkipped | src/server.cpp:171-177 | one member's share of a broadcast: nothing for the skipped user, otherwise that user's Notice |
| Server.Server.NotifyPeersLeft | src/server.cpp:165-180 | every other connected member of the player's lobby gets game-cannot-continue; nothing when there is no lobby |
| Server.Server.AcceptClient | src/server.cpp:75-96 | the connection gets an empty buffer and a new heartbeat |
| Server.Server.RemoveClient | src/server.cpp:98-103 | the socket is closed and its buffer and heartbeat erased |
| Server.Server.DisconnectFd | src/server.cpp:182-196 | for a bound connection: its lobby peers are told the game cannot continue, then its player leaves the lobby as in leaveLobby and is erased; for an unbound one the registry is untouched. Either way the binding, heartbeat and buffer go and the close is the last line logged |
| Server.Server.DropPlayer | src/server.cpp:186-191 | the bound connection's peers are told the game cannot continue, its player leaves every lobby and is erased, and the binding goes |
| Server.Server.GetPhase | src/server.cpp:105-123 | the phase DerivePhase gives for the connection's binding and lobby |
| Server.Server.DoLogin | src/server.cpp:292-308 | a wrong parameter count or an already bound connection gives an error and changes nothing; otherwise the connection is bound to a freshly added player and told its id |
| Server.Server.DoLogout | src/server.cpp:310-320 | the player is removed and unbound, the client gets LOGOUT_OK, and the socket closes without any peer notice |
| Server.Server.DoCreateLobby | src/server.cpp:322-338 | a wrong parameter count or an existing lobby gives an error and changes nothing; otherwise the new lobby's id is returned and the caller sits in it |
| Server.Server.DoJoinLobby | src/server.cpp:340-371 | a wrong param count, a seated caller, or a full first lobby with the name gives an error and no change; the join succeeds whenever the caller is unseated, some lobby has the name and every lobby with it has room; on success the caller is appended to a lobby with the name that had room and is told, and the game starts, with every member told GAME_STARTED, exactly when the lobby can start a game; nothing already sent is lost |
| Server.Server.AnnounceJoin | src/server.cpp:354-368 | after a successful join the joiner is told LOBBY_JOINED with the name; its lobby then starts its game, with every member told GAME_STARTED, exactly when it can start one, and is otherwise kept; the joiner stays in that lobby |
| Server.Server.StartIfReady | src/server.cpp:356-368 | the joiner's lobby starts its game, with every member told GAME_STARTED in member order, exactly when it can start one; otherwise nothing changes |
| Server.Server.DoLeaveLobby | src/server.cpp:373-378 | the caller leaves its lobby as in leaveLobby, is told, and nobody else is told |
| Server.Server.AnnounceResult | src/server.cpp:410-433 | the round result is broadcast when both moves are known, then the match result when the match ended |
| Server.Server.DoMove | src/server.cpp:380-436 | a bad parameter, a bad token or a refused move gives its error with no change; an accepted move is acknowledged and its results are broadcast to the lobby's members |
| Server.Server.DoRematch | src/server.cpp:438-464 | no lobby or a refused request gives its error with no change; otherwise the caller is told, and the rematch starts, with every member told, exactly when both flags are set |
| Server.Server.DoState | src/server.cpp:466-478 | the phase, and the player id exactly when the connection is bound |
| Server.Server.DoPong | src/server.cpp:480-497 | a wrong parameter count gives an error; otherwise the last pong becomes now if the connection has a heartbeat, whatever the nonce |
| Server.Server.HandleRequest | src/server.cpp:283-503 | a request the phase does not admit gets the unexpected-state error and changes nothing; an admitted one has exactly its handler's effect (LoginDone .. PongDone); only LOGOUT drops the buffer, only LOGIN and LOGOUT change bindings, only LOGOUT and PONG change heartbeats; nothing already sent is lost |
| Server.Server.Dispatch | src/server.cpp:293-503 | an admitted request has exactly the effect of the handler its type selects, as stated by that handler's predicate; only LOGOUT drops the buffer, only LOGIN and LOGOUT change bindings, only LOGOUT and PONG change heartbeats; nothing already sent is lost |
| Server.Server.Doomed | src/server.cpp:216-242 | the connections one tick disconnects: those timed out and those whose due ping cannot be sent |
| Server.Server.SendPings | src/server.cpp:211-243 | every connection due a ping is pinged at now with a nonce in [100000, 999999]; the others keep their records; the collected set is exactly the doomed one; every line sent is a ping to a connection due one whose send does not fail, carrying its new nonce, and each such connection gets one |
| Server.Server.DisconnectAll | src/server.cpp:245-247 | every collected connection is unbound, its heartbeat and buffer removed and its socket closed; exactly the players bound to them are erased; every lobby seating none of them is kept as it was and no lobby is created; with no bound player the registry is untouched; every line logged is a close of a collected connection or a game-cannot-continue notice |
| Server.Server.DisconnectOne | src/server.cpp:246-247 | one collected connection is unbound, its heartbeat and buffer removed and its socket closed; a bound player leaves its lobby as in leaveLobby and is erased, every other lobby is kept, an unbound connection leaves the registry untouched; every line logged is its close or a game-cannot-continue notice |
| Server.Server.DisconnectNext | src/server.cpp:245-247 | one more turn of the disconnect loop keeps the relation between the starting state and the connections disconnected so far |
| Server.Server.HeartbeatTick | src/server.cpp:198-250 | exactly the doomed connections are dropped and closed and exactly their players erased; every lobby seating none of those players is kept and, when none was bound, the registry is untouched; every surviving connection was ticked and, when due, pinged with its new nonce; every line added is a ping or a TIMEOUT disconnect line, and nothing already sent is lost |
| Server.Server.NextLine | src/server.cpp:262-268 | the first complete line leaves the buffer, and the framing of the rest continues where it left off |
| Server.Server.HandleClientData | src/server.cpp:252-281 | an empty read has exactly the effect of disconnect_fd with DISCONNECTED; otherwise the chunk is appended and the lines handled are the first complete ones in order, with the remainder buffered; nothing already sent is lost |
| Server.Server.DrainLines | src/server.cpp:261-280 | while the connection stays open every complete line is handled and the remainder stays; it closes only on a line without the magic or a LOGOUT, which is then the last line handled; nothing already sent is lost |
| Server.Server.HandleInLoop | src/server.cpp:272-279 | the buffer fact of HandleLine the line loop needs: the buffer goes exactly on a line without the magic or a LOGOUT; nothing already sent is lost |
| Server.Server.HandleLine | src/server.cpp:272-279 | a line without the magic gets ERR_INVALID_MAGIC followed by exactly the effect of disconnect_fd with INVALID_MAGIC; a line with it has exactly the effect of handle_request; the buffer goes exactly on those two and on LOGOUT; nothing already sent is lost |
| Protocol.Split | src/Protocol.cpp:25-39 | at least one segment, and no segment contains the delimiter |
| Protocol.JoinSplit | src/Protocol.cpp:25-39 | joining the segments with the delimiter gives back the input |
| Protocol.SplitJoin | src/Protocol.cpp:25-39 | splitting a join of delimiter-free segments gives back the segments |
| Protocol.SplitCount | src/Protocol.cpp:29-38 | there is exactly one more segment than there are delimiters |
| Protocol.SplitKeepsEmptySegments | src/Protocol.cpp:22-23 | two adjacent delimiters between "A" and "B" give the three segments "A", "" and "B" |
| Protocol.RequestTypeFromString | src/Protocol.cpp:52-63 | a known type is returned only for its own tag |
| Protocol.TagRoundTrip | src/Protocol.cpp:52-63 | each of the eight tags maps to its type |
| Protocol.KnownExactlyOnTags | src/Protocol.cpp:52-63 | a string maps to a known type exactly when it is one of the eight tags |
| Protocol.ParseRequestLine | src/Protocol.cpp:83-111 | the parser as written; its valid-magic flag is always true; what it returns in each case is stated by ParseRequestLineSound, ParseRequestLineRoundTrip, UnknownTagKeepsParams and the three default-request lemmas |
| Protocol.ParseRequestLineSound | src/Protocol.cpp:86-108 | anything but the default request comes from a line of at least two fields whose field 0 is MRLLN and whose field 1 carries REQ_, with the fields after those two as its parameters, none holding the separator; a request of a known type has that type's own tag as field 1 |
| Protocol.ParseRequestLineRoundTrip | src/Protocol.cpp:103-108 | a well-formed line parses to its type and exactly its parameters, in order |
| Protocol.UnknownTagKeepsParams | src/Protocol.cpp:99-110 | an unknown REQ_ tag gives type Unknown and still collects the parameters |
| Protocol.OneFieldIsDefault | src/Protocol.cpp:86-89 | a line without a separator is one field and parses to the default request |
| Protocol.UntaggedIsDefault | src/Protocol.cpp:96-101 | a line with the magic whose field 1 lacks REQ_ parses to the default request |
| Protocol.WrongMagicIsDefault | src/Protocol.cpp:91-94 | a line with any other first field parses to the default request |
| Protocol.WrongMagicNotFlagged | src/Protocol.cpp:83-111 | a line with a wrong magic still has its valid-magic flag set |
| Protocol.ParseRequestLineChecked | src/Protocol.cpp:83-111 | the corrected parser: valid-magic is false exactly when field 0 is not MRLLN, and otherwise the result is the parser's |
| Protocol.CheckedParserFlagsWrongMagic | src/Protocol.cpp:91-94 | the corrected parser flags the line the parser as written lets through |
| Protocol.CheckedParserAcceptsMagic | src/Protocol.cpp:86-92 | the corrected parser accepts every line that starts with the magic |

## Left out

- Sockets, `select`, `accept`, `recv`, `send`, `send_line` and `send_with_magic` are OS I/O. Outgoing lines are tags appended to `log`. A `recv` that returns 0 or fails is the empty chunk. A ping whose `send` fails is a member of the `failing` parameter.
- The formatting of `Responses::*` is left out. It has no definition in the source, and its `round_result` call site does not match its declaration. `Msg` carries the arguments each call site passes.
- The STATE debug text and `phase_to_debug` are left out. `StateInfo` carries the phase and the optional player id instead.
- Steady-clock time is integer milliseconds passed in as `now`. The random nonce is any value in [100000, 999999].
- The `heartbeat_enabled` and logging flags are left out. `HeartbeatTick` is the tick as it runs when heartbeats are enabled.
- Reconnection and the grace window are left out. They are only declared in `src/Server.hpp` and never implemented.
- The Protocol.cpp `handle_request` stub is not part of this model. It sends canned replies with made-up ids.
- `src/main.cpp`, `src/Client.hpp` and `init_socket` are not part of this model.
- HandleClientData: the parser is a parameter. Protocol.cpp's parser uses its own `RequestType`, which has no STATE or PONG and names types differently from the dispatcher's. No single function can serve both.
- HandleClientData: it stops framing once LOGOUT or a wrong magic has dropped the connection's buffer. After LOGOUT the source goes on using a reference to the erased buffer entry, which is undefined behaviour.
- The `int` ids and counters are unbounded. Overflow of `nextUserId`, `nextLobbyId` and the win counters is not modelled.
- Registry.Game.GetLobbyOf, JoinLobby, LeaveLobby, SendToUser, SendPings and DisconnectAll: map iteration order is an unspecified choice. Where the order decides the outcome, the contract holds for every order. JoinLobby's contract also does not pin down which same-named lobby is tried first.
- Server.Server.HeartbeatTick: its contract states which connections are dropped and which are pinged. It does not state the order of the lines it sends.
- Server.Server.DisconnectAll and HeartbeatTick: a lobby that seated a dropped player is stated only to be one that existed before, not its value after the departures, and the peer notices are stated by kind (game-cannot-continue with the reason), not by recipient. Neither depends on the order in which the connections are dropped: such a lobby is erased when all its members were dropped and otherwise keeps its surviving member with the game fields reset, and a surviving member of that lobby is told exactly once. Both are left unstated because the loop invariant would have to carry the registry through every order of the departures. Only when both seats of one lobby are dropped does the order matter: the one dropped second is told about the one dropped first, not the other way round.
- Server.Server.DrainLines: its contract states which lines are handled and what stays buffered. The effect of each handled line on bindings, registry and log is stated line by line by HandleLine, not as one relation over the whole loop.
- Server.Server.HandleClientData: on a non-empty chunk, the same holds as for DrainLines.

## Findings

| source | as written | input that shows it | evidently intended | confidence | as-written member | corrected member |
|---|---|---|---|---|---|---|
| src/Protocol.cpp:83-111 | `parse_request_line` never clears `valid_magic`. A line with a wrong magic becomes the default request with `valid_magic` still true, so the invalid-magic branch of `handle_client_data` (src/server.cpp:273-277) can never fire | the line of the three fields `XXXXX`, `REQ_LOGIN` and `bob` | `valid_magic` false exactly when field 0 is not MRLLN, so the line gets ERR_INVALID_MAGIC and the connection is dropped | medium, not executed | Protocol.WrongMagicNotFlagged | Protocol.ParseRequestLineChecked |

The server model takes its parser as a parameter. `Server.Server.DrainLines` and `HandleLine` state the behaviour the corrected parser enables: a line flagged as lacking the magic gets ERR_INVALID_MAGIC and its connection is dropped.
