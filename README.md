# Super Square: a verified model of the game engine and the match server

Super Square is online "ultimate tic-tac-toe". A 3×3 grid holds nine small 3×3
boards. Where a player marks a cell decides which small board the opponent must
play in next. Winning a small board claims that square of the big grid, and
three claimed squares in a line win the game.

This project is a Dafny model of three layers of the system:

- **The rule engine** (`supersquare-frontend/src/engine/rules.ts`, `types.ts`).
  It covers move validation, applying a move, win detection on the small boards
  and on the grid of board outcomes, draws, and the "next board" rule.
  - `makeMove` is a pure function that returns `None` where the engine throws.
  - `check3x3Win` keeps its loop form: a method proved against a
    specification function.
  - Beyond the engine's own code, the model defines a reachable-state
    invariant (`Consistent`): every board status is the one its cells imply,
    the game outcome is the one the statuses imply, and the number of marks
    fixes whose turn it is. It proves that every accepted move keeps it.
- **The in-memory registry** (`supersquare-backend/src/state.ts`, `StateManager`).
  This is a class whose fields are the user map, the room map, the
  socket-to-user map and the matchmaking queue.
  - Each method is proved to produce exactly the registry that a pure
    function of the old registry describes.
  - Lemmas show that every operation preserves two invariants: `Valid`
    (maps agree with their keys, the socket map points at known users, the
    queue holds known users without duplicates) and `Coherent` (a user's
    current room exists and holds them in a slot).
- **The synchronous part of the socket server** (`supersquare-backend/src/server.ts`).
  This covers `handleGameOver`, `resetTimer`, `getRemainingTime`, the move
  timer firing, and the `FIND_MATCH`, `CREATE_ROOM`, `JOIN_ROOM`,
  `RESPOND_GAME_INVITE`, `MAKE_MOVE`, `SEND_MESSAGE` and `disconnect`
  handlers.
  - `MatchServer` owns the registry and a profile store standing in for the
    database, and issues timer handles.
  - Each handler takes the calling socket id, the clock reading and any random
    choice as parameters. It returns the messages it emits, in order.
  - Each handler's decision is a pure function (`JudgeMove`, `JudgeMessage`,
    `JudgeFindMatch`, `GameOverResult`) with its own lemmas.
  - Every handler preserves the server invariant `Inv`: the registry is
    `Valid`, every stored game is well formed and `Consistent`, and every
    armed timer handle was issued before.

Modules follow the source files:

| module | file | models |
|---|---|---|
| `Wrappers` | wrappers.dfy | `Option` |
| `GameTypes` | types.dfy | `types.ts` |
| `Rules` | rules.dfy | `rules.ts` as written |
| `RuleProperties` | rules_props.dfy | invariants and game-level properties of `rules.ts` |
| `Rooms` | state.dfy | `state.ts` |
| `ServerLogic` | server_logic.dfy | the pure decisions inside `server.ts` |
| `Server` | server.dfy | the handlers of `server.ts` over `StateManager` |

## Model

| member | source | states |
|---|---|---|
| GameTypes.Other | supersquare-frontend/src/engine/rules.ts:153 | the turn always passes to the other mark |
| GameTypes.WonStatus | supersquare-frontend/src/engine/rules.ts:109-110 | a won board has a won status, never ACTIVE or DRAW |
| Rules.EmptyGrid | supersquare-frontend/src/engine/rules.ts:4-6 | a 3×3 grid whose every cell is empty |
| Rules.InitialState | supersquare-frontend/src/engine/rules.ts:8-26 | nine ACTIVE empty boards at their own coordinates, X to move, any board allowed, no winner, empty history |
| Rules.CheckLine | supersquare-frontend/src/engine/rules.ts:28-31 | a line wins exactly when its three cells hold the same mark, and the winner is that mark |
| Rules.FirstLineCorrect | supersquare-frontend/src/engine/rules.ts:34-52 | the first winning line found is a real line of that mark, and none is found exactly when neither mark has a line |
| Rules.Check3x3Win | supersquare-frontend/src/engine/rules.ts:34-52 | the loop over rows, columns and the two diagonals returns the first winning line in the source's order |
| Rules.IsValidMove | supersquare-frontend/src/engine/rules.ts:58-81 | a move is valid if and only if the game is undecided, the coordinates are in 0..2, the board is ACTIVE, the cell is empty and the board is the required one or none is required |
| Rules.MakeMove | supersquare-frontend/src/engine/rules.ts:83-158 | a result exists exactly for valid moves; it is well formed, differs from the input in the played cell alone (now the mover's mark), passes the turn and keeps the history |
| Rules.MakeMoveEffects | supersquare-frontend/src/engine/rules.ts:101-149 | other boards are unchanged, the played board's status is re-derived from its cells, the winner is re-derived from the grid of statuses, and the next board is the played cell's position unless that board is settled or the game is over |
| Rules.SettledStatus | supersquare-frontend/src/engine/rules.ts:107-113 | a line of either mark makes the board won; a newly won status belongs to the mark with the line; without a line the board becomes DRAW when full and otherwise keeps its status |
| Rules.GlobalOutcome | supersquare-frontend/src/engine/rules.ts:115-134 | the game is won only by a mark with a line of won boards, is won whenever some mark has one, and is drawn iff no mark has one and every board is settled |
| RuleProperties.InitialConsistent | supersquare-frontend/src/engine/rules.ts:8-26 | the initial state satisfies the reachable-state invariant and has no marks |
| RuleProperties.CountTotal | supersquare-frontend/src/engine/types.ts:16-32 | every state holds 81 cells, each X, O or empty |
| RuleProperties.FullGridCount | supersquare-frontend/src/engine/rules.ts:54-56 | isGridFull holds iff none of the nine cells is empty, and then the cells are all X or O |
| RuleProperties.MoveCounts | supersquare-frontend/src/engine/rules.ts:101-105 | a move turns exactly one empty cell into one mover's mark |
| RuleProperties.PlayedBoardStatus | supersquare-frontend/src/engine/rules.ts:107-113 | after a move the played board is won by the mover iff the mover has a line there, is never won by the opponent, is a draw iff full without a line, and stays ACTIVE otherwise |
| RuleProperties.MoveOutcome | supersquare-frontend/src/engine/rules.ts:117-134 | only the mover can win; the game is won iff the mover has a line of won boards, and drawn iff there is no such line and every board is settled |
| RuleProperties.MovePreservesConsistency | supersquare-frontend/src/engine/rules.ts:83-158 | every valid move keeps the reachable-state invariant and adds exactly one mark |
| RuleProperties.ActiveBoardHasEmptyCell | supersquare-frontend/src/engine/rules.ts:107-113 | in a reachable state an ACTIVE board always has an empty cell |
| RuleProperties.UnfinishedGameHasMove | supersquare-frontend/src/engine/rules.ts:136-149 | a reachable game without a winner always offers a valid move (the next-board rule never deadlocks) |
| RuleProperties.Play | supersquare-frontend/src/engine/rules.ts:83-158 | a sequence of accepted moves from a well-formed state ends in a well-formed state |
| RuleProperties.PlayKeepsInvariant | supersquare-frontend/src/engine/rules.ts:83-158 | any sequence of accepted moves keeps the invariant and adds one mark per move |
| RuleProperties.PlayTurns | supersquare-frontend/src/engine/rules.ts:153 | after n accepted moves the player to move is the starting player flipped n times |
| RuleProperties.PlayAlternates | supersquare-frontend/src/engine/types.ts:34 | from the initial state X moves after an even number of moves and O after an odd number |
| RuleProperties.GameLength | supersquare-frontend/src/engine/rules.ts:83-158 | no game from the initial state lasts more than 81 moves |
| RuleProperties.NoMoveAfterGameOver | supersquare-frontend/src/engine/rules.ts:59 | once a winner or draw is recorded, every further move is rejected |
| Rooms.Without | supersquare-backend/src/state.ts:78 | removing an id from the queue keeps every other member and no duplicates |
| Rooms.With | supersquare-backend/src/server.ts:662 | adding to the queue set appends an absent id and leaves a present one alone |
| Rooms.GetUser | supersquare-backend/src/state.ts:35-37 | the user is found iff the id is registered, and it is that user's record |
| Rooms.UserBySocket | supersquare-backend/src/state.ts:39-43 | an unmapped socket finds nobody; in a valid registry a mapped socket finds the user it maps to |
| Rooms.UserCreated | supersquare-backend/src/state.ts:45-66 | a known user gets the new socket, name and ONLINE and keeps its friends, room and cooldown; an unknown one gets a fresh record; nobody else changes; the socket maps to the user |
| Rooms.SocketRemoved | supersquare-backend/src/state.ts:68-83 | the socket is unmapped; only if it is the user's current socket does the user go OFFLINE and leave the queue |
| Rooms.RoomCreated | supersquare-backend/src/state.ts:85-103 | the room is stored with no timer; each named player who is registered goes IN_GAME in that room and leaves the queue; nothing else changes |
| Rooms.RoomJoined | supersquare-backend/src/state.ts:105-120 | joining succeeds iff the room exists and its O slot is empty; on failure nothing changes; on success the joiner fills O, goes IN_GAME there and leaves the queue |
| Rooms.RoomDeletedAsWritten | supersquare-backend/src/state.ts:122-133 | the room is removed, and each slot holder still pointing at it becomes ONLINE with no room, whatever its status was |
| Rooms.Returning | supersquare-backend/src/state.ts:126 | corrected deleteRoom: a player leaving a room returns to ONLINE unless OFFLINE, which it stays |
| Rooms.RoomDeleted | supersquare-backend/src/state.ts:122-133 | corrected deleteRoom: the room is removed and each slot holder still pointing at it loses the room and leaves IN_GAME, keeping OFFLINE |
| Rooms.DisconnectRevivesUser | supersquare-backend/src/state.ts:122-133 | as written, a player whose socket closes mid-game is OFFLINE after removeUserSocket and ONLINE again after deleteRoom, with no socket |
| Rooms.DisconnectStaysOffline | supersquare-backend/src/state.ts:68-83 | with the corrected deleteRoom that player ends OFFLINE with no room |
| Rooms.RoomDeletedKeepsOffline | supersquare-backend/src/state.ts:122-133 | corrected deleteRoom: deleting a room never brings an OFFLINE user back and leaves the socket map alone |
| Rooms.RoomDeletedAgreesWhenConnected | supersquare-backend/src/state.ts:122-133 | when nobody is OFFLINE the corrected and the as-written deleteRoom agree |
| Rooms.CorrectionOnlyKeepsOffline | supersquare-backend/src/state.ts:122-133 | the corrected and the as-written deleteRoom give the same rooms, queue, socket map and user ids; they differ only for an OFFLINE slot holder still pointing at the room, who stays OFFLINE in one and becomes ONLINE in the other |
| Rooms.EmptyRegistry | supersquare-backend/src/state.ts:27-33 | the empty registry satisfies both invariants |
| Rooms.UserCreatedKeepsInvariants | supersquare-backend/src/state.ts:45-66 | createUser preserves Valid and Coherent |
| Rooms.SocketRemovedKeepsInvariants | supersquare-backend/src/state.ts:68-83 | removeUserSocket preserves Valid and Coherent |
| Rooms.RoomCreatedKeepsInvariants | supersquare-backend/src/state.ts:85-103 | createRoom preserves Valid, and Coherent when the room id is new |
| Rooms.RoomJoinedKeepsInvariants | supersquare-backend/src/state.ts:105-120 | joinRoom preserves Valid and Coherent |
| Rooms.RoomDeletedKeepsInvariants | supersquare-backend/src/state.ts:122-133 | corrected deleteRoom: it preserves Valid and Coherent, and afterwards nobody points at the deleted room |
| Rooms.RoomDeletedAsWrittenKeepsInvariants | supersquare-backend/src/state.ts:122-133 | deleteRoom as written preserves Valid and Coherent |
| Rooms.UserEditKeepsInvariants | supersquare-backend/src/server.ts:827 | changing a user's record without touching its status or room (the chat stamp) preserves both invariants |
| Rooms.RoomEditKeepsInvariants | supersquare-backend/src/server.ts:92 | changing a room's game state or timer preserves both invariants |
| Rooms.QueueReplacedKeepsInvariants | supersquare-backend/src/server.ts:661-664 | a duplicate-free queue of registered users preserves both invariants |
| Rooms.StateManager.constructor | supersquare-backend/src/state.ts:136 | the registry starts empty |
| Rooms.StateManager.CreateUser | supersquare-backend/src/state.ts:45-66 | the new registry is UserCreated of the old one and the user returned is the stored record |
| Rooms.StateManager.RemoveUserSocket | supersquare-backend/src/state.ts:68-83 | the new registry is SocketRemoved of the old one |
| Rooms.StateManager.CreateRoom | supersquare-backend/src/state.ts:85-103 | the new registry is RoomCreated of the old one and the room returned is the stored room |
| Rooms.StateManager.JoinRoom | supersquare-backend/src/state.ts:105-120 | the new registry and the success flag are RoomJoined of the old registry |
| Rooms.StateManager.DeleteRoom | supersquare-backend/src/state.ts:122-133 | the new registry is RoomDeleted (the corrected deleteRoom) of the old one |
| ServerLogic.CeilThousandths | supersquare-backend/src/server.ts:122 | the result is the ceiling of n / 1000 |
| ServerLogic.RemainingSeconds | supersquare-backend/src/server.ts:117-124 | 60 without a timer start; otherwise 0 once the 60 s limit has passed, else the remaining milliseconds rounded up to whole seconds |
| ServerLogic.RemainingSecondsBounds | supersquare-backend/src/server.ts:117-124 | the remaining time is between 0 and 60 and reaches 0 exactly when 60 s have passed |
| ServerLogic.RemainingSecondsMonotone | supersquare-backend/src/server.ts:117-124 | the remaining time never increases as the clock advances |
| ServerLogic.Symbol | supersquare-backend/src/server.ts:741-742 | a user plays X iff it holds the X slot, O iff it holds only the O slot, and is refused iff it holds neither |
| ServerLogic.TimeoutWinner | supersquare-backend/src/server.ts:94-97 | the timeout winner is the holder of the slot whose turn it is not |
| ServerLogic.TimeoutWinnerIsOpponent | supersquare-backend/src/server.ts:94-97 | in a full room of two players the timeout winner exists and holds the mark that is not to move |
| ServerLogic.OpponentOf | supersquare-backend/src/server.ts:868 | the X holder's opponent is the O slot, anyone else's is the X holder |
| ServerLogic.JudgeMove | supersquare-backend/src/server.ts:731-750 | the move is ignored iff the caller is unknown, not in that room, or holds no slot in it; the room is reported missing iff the caller points at a room that is gone; the move is invalid iff the caller is on the move and the engine refuses it |
| ServerLogic.OutcomeDeltas | supersquare-backend/src/server.ts:28-36 | a draw or a named winner yields two stat updates of one game each; neither yields none |
| ServerLogic.ApplyDelta | supersquare-backend/src/server.ts:30 | one $inc update adds its deltas to the named profile only |
| ServerLogic.ApplyDeltas | supersquare-backend/src/server.ts:28-36 | a batch of updates changes no profile it does not name |
| ServerLogic.DrawStats | supersquare-backend/src/server.ts:29-31 | a draw gives both players +5 rating and one more game, and no one else changes |
| ServerLogic.DecisiveStats | supersquare-backend/src/server.ts:32-36 | the winner gets +10 rating, a win and a game; the loser −10, a loss and a game; no one else changes |
| ServerLogic.SelfGameStats | supersquare-backend/src/server.ts:32-36 | a player matched against itself who wins is credited both a win and a loss and two games |
| ServerLogic.NoResultNoStats | supersquare-backend/src/server.ts:28-36 | with no draw and no winner the profiles are untouched |
| ServerLogic.ProfileNotice | supersquare-backend/src/server.ts:44-60 | a registered player with a profile gets exactly one PROFILE_UPDATED notice, on its own socket and carrying its profile; anyone else gets none |
| ServerLogic.GameOverResult | supersquare-backend/src/server.ts:15-82 | with the corrected deleteRoom: a missing room changes nothing; a room without O only loses its timer; otherwise the room is deleted and the profiles get the updates that completed, all of them if the database calls all succeed |
| ServerLogic.GameOverAnnounces | supersquare-backend/src/server.ts:66-78 | the messages end with the two GAME_OVER notices; everything before them is a profile update, and there is none if a database call failed |
| ServerLogic.GameOverRefreshesProfiles | supersquare-backend/src/server.ts:38-64 | when every database call succeeds, X and then O (each if registered and with a profile) get PROFILE_UPDATED on their own socket with their updated stats, just before the GAME_OVER notices |
| ServerLogic.GameOverKeepsOffline | supersquare-backend/src/server.ts:81 | with the corrected deleteRoom that handleGameOver calls at its end, ending a game keeps every OFFLINE user OFFLINE and leaves the socket map alone |
| ServerLogic.MoveAuthorization | supersquare-backend/src/server.ts:731-792 | a move is accepted iff the caller is in that room, holds the mark to move, and the engine accepts the move; the stored state is then makeMove's result, with the turn passed |
| ServerLogic.TurnRefusal | supersquare-backend/src/server.ts:745-749 | "Not your turn" is answered exactly to a slot holder in its own room whose mark is not the one to move |
| ServerLogic.AcceptedKeepsPlayable | supersquare-backend/src/server.ts:752-753 | an accepted move stores a well-formed state satisfying the reachable-state invariant |
| ServerLogic.AcceptedWinnerIsMover | supersquare-backend/src/server.ts:774-780 | when an accepted move wins, the winner reported to handleGameOver is the mover |
| ServerLogic.ChatRules | supersquare-backend/src/server.ts:795-849 | a message is delivered iff the caller is in that existing room, the text has 1 to 101 characters and 5 s have passed since the caller's last message; the text is delivered unchanged |
| ServerLogic.ChatCooldown | supersquare-backend/src/server.ts:822-825 | a second message within 5 s of the last is refused as cooling down |
| ServerLogic.JudgeMessage | supersquare-backend/src/server.ts:795-826 | each refusal happens exactly in its own case: unknown caller, caller in another room, room gone, missing or over-long or empty text, and a last message less than 5 s ago |
| ServerLogic.JudgeFindMatch | supersquare-backend/src/server.ts:594-611 | an empty queue enqueues; the caller at the queue head is a self-match; an unregistered head is stale; a pairing is with the queue head, another registered user |
| ServerLogic.FindMatchRules | supersquare-backend/src/server.ts:590-666 | in a valid registry: an empty queue enqueues, the caller first in the queue is ignored, a stale opponent never occurs, and otherwise the first waiting registered user other than the caller is paired |
| ServerLogic.MatchSlots | supersquare-backend/src/server.ts:614-616 | both players get a slot, the coin flip decides who is X, and distinct players get distinct slots |
| ServerLogic.TrimStart | supersquare-backend/src/server.ts:685 | removes exactly the leading whitespace |
| ServerLogic.TrimEnd | supersquare-backend/src/server.ts:685 | removes exactly the trailing whitespace |
| ServerLogic.Trim | supersquare-backend/src/server.ts:685 | the result neither starts nor ends with whitespace |
| ServerLogic.TrimSplits | supersquare-backend/src/server.ts:685 | the input is whitespace, then the trimmed code, then whitespace |
| ServerLogic.UpperChar | supersquare-backend/src/server.ts:685 | lower-case Latin letters become upper case and every other character is kept |
| ServerLogic.ToUpper | supersquare-backend/src/server.ts:685 | upper-casing works character by character and keeps the length |
| ServerLogic.NormalizeRoomCode | supersquare-backend/src/server.ts:685 | a missing code becomes the empty string; the result is always canonical (no surrounding whitespace, no lower-case letter) and never longer than the input |
| ServerLogic.NormalizeAcceptsTypedCode | supersquare-backend/src/server.ts:685 | a room code typed in any letter case with surrounding whitespace normalises to the code itself |
| ServerLogic.NormalizeIdempotent | supersquare-backend/src/server.ts:685 | normalising is idempotent and always yields a canonical code |
| ServerLogic.CanonicalCodeIsFixed | supersquare-backend/src/server.ts:685 | a canonical code is unchanged by normalisation |
| Server.DeleteIgnoresRoomFields | supersquare-backend/src/state.ts:122-133 | both the corrected and the as-written deleteRoom depend on a room's players only, not its game or timer |
| Server.Departed | supersquare-backend/src/server.ts:861-896 | with the corrected deleteRoom: disconnect keeps the socket map, queue and user ids, never adds a room, removes the user's room when it was full or the user was its creator, and keeps an OFFLINE user OFFLINE |
| Server.ArmedKeepsInv | supersquare-backend/src/server.ts:85-114 | arming a timer with a fresh handle preserves the server invariant |
| Server.StoredKeepsInv | supersquare-backend/src/server.ts:753 | storing a reachable game state preserves the server invariant |
| Server.DeletedKeepsInv | supersquare-backend/src/server.ts:881 | deleting a room preserves the server invariant and Coherent, with the corrected and with the as-written deleteRoom |
| Server.GameOverKeepsInv | supersquare-backend/src/server.ts:15-82 | with the corrected deleteRoom: handleGameOver preserves the server invariant and Coherent |
| Server.CreatedKeepsInv | supersquare-backend/src/state.ts:85-103 | creating a room with the initial state preserves the server invariant |
| Server.JoinedKeepsInv | supersquare-backend/src/state.ts:105-120 | joining a room preserves the server invariant |
| Server.SocketRemovedKeepsInv | supersquare-backend/src/server.ts:861 | removing a socket preserves the server invariant |
| Server.QueueKeepsInv | supersquare-backend/src/server.ts:661-664 | replacing the queue by a duplicate-free queue of known users preserves the server invariant |
| Server.SameGamesKeepsInv | supersquare-backend/src/server.ts:20 | a valid registry whose rooms keep their games and keep or clear their timers keeps the server invariant |
| Server.MatchServer.constructor | supersquare-backend/src/state.ts:136 | the server starts with an empty registry, the given profiles and the first timer handle |
| Server.MatchServer.GetRemainingTime | supersquare-backend/src/server.ts:117-124 | 60 for an unknown room, otherwise the remaining seconds of that room's timer |
| Server.MatchServer.HandleGameOver | supersquare-backend/src/server.ts:15-82 | with the corrected deleteRoom: the registry, profiles and messages are exactly GameOverResult's, and the invariants hold |
| Server.MatchServer.CloseGame | supersquare-backend/src/server.ts:22-81 | with the corrected deleteRoom, for a full room: the room is deleted, the completed stat updates are applied, and the profile and GAME_OVER notices are emitted in order |
| Server.MatchServer.ResetTimer | supersquare-backend/src/server.ts:85-114 | an existing room gets a new timer handle, different from the old one, started now; an unknown room is untouched |
| Server.MatchServer.OnTimerFired | supersquare-backend/src/server.ts:94-111 | a cancelled or superseded timer does nothing; the live timer ends the game by TIMEOUT with the opponent of the player to move as winner |
| Server.MatchServer.OnMakeMove | supersquare-backend/src/server.ts:731-792 | a refused move changes nothing and answers with the matching error (or nothing); an accepted one stores makeMove's state, sends GAME_UPDATE to both players, and ends the game or resets the timer; a reported winner is the mover |
| Server.MatchServer.StoreMove | supersquare-backend/src/server.ts:752-785 | stores the new state, notifies the slot holders, then on a win or a draw runs handleGameOver with that result, else re-arms the timer |
| Server.MatchServer.OnSendMessage | supersquare-backend/src/server.ts:795-849 | a refused message changes nothing and answers per the refusal; an accepted one stamps the sender's last-message time and goes to the other slot holders and back to the sender |
| Server.MatchServer.OnFindMatch | supersquare-backend/src/server.ts:590-666 | an empty queue enqueues the caller and answers QUEUE_JOINED; self-matching does nothing; a match removes the opponent from the queue and creates the room with coin-flipped slots; if both profile lookups then succeed it arms the timer with the next handle and sends GAME_START to both, and if one fails it stops with nothing sent and no timer |
| Server.MatchServer.OnCreateRoom | supersquare-backend/src/server.ts:669-678 | creates a room with the code and the caller as X and answers ROOM_CREATED |
| Server.MatchServer.OnJoinRoom | supersquare-backend/src/server.ts:680-728 | the code is trimmed and upper-cased, then the join happens as JoinedGame describes, including a failing profile lookup |
| Server.MatchServer.JoinGame | supersquare-backend/src/server.ts:687-727 | a failed join answers "Room not found or full" and changes nothing; a successful one fills slot O, and then, if both profile lookups succeed, sends GAME_START to the creator (if connected) and to the joiner and arms the timer with the next handle, and otherwise sends nothing and arms nothing |
| Server.MatchServer.OnRespondGameInvite | supersquare-backend/src/server.ts:530-587 | a rejection notifies the inviter only; an acceptance for a vanished inviter answers an error; an acceptance creates the room with the inviter as X, and then, if both profile lookups succeed, sends GAME_START to both and arms the timer with the next handle, and otherwise sends nothing and arms nothing |
| Server.MatchServer.NotifyFriends | supersquare-backend/src/server.ts:887-896 | every registered friend who is not OFFLINE gets one FRIEND_STATUS notice, in friend-list order |
| Server.MatchServer.OnDisconnect | supersquare-backend/src/server.ts:852-898 | with the corrected deleteRoom: the socket is removed, the current-socket user goes OFFLINE, and, whether or not the closed socket was the current one, the game the user was in is forfeited or closed as Departed describes |
| Server.MatchServer.Depart | supersquare-backend/src/server.ts:864-896 | with the corrected deleteRoom: a player in a full room forfeits to the opponent; a lone player's room is deleted; friends are notified; an OFFLINE player stays OFFLINE |
| Server.MatchServer.Forfeit | supersquare-backend/src/server.ts:868-878 | with the corrected deleteRoom: the opponent gets OPPONENT_DISCONNECTED, friends are notified, then the game ends with the opponent as winner by DISCONNECT |

## Left out

- Socket transport: messages are returned as `Event(socketId, message)` values instead of being emitted. Display names and usernames (from the registry or the database) and profile pictures, the constant `timeLeft` and the `lastActiveAt` of FRIEND_STATUS are left out of the messages.
- MongoDB: the profile store is a `map<string, Stats>`. A failing (rejected) call is modelled by `dbSteps`, the number of database calls that complete before the first failure. In `handleGameOver` the failure is caught: the remaining stat updates and the profile notices are skipped and the game still ends. `FIND_MATCH`, `JOIN_ROOM` and `RESPOND_GAME_INVITE` await two `User.findOne` calls after creating or joining the room and catch nothing, so a failure there ends the handler with the room in place, no GAME_START and no timer. The names and pictures those lookups return are not part of the messages. The rank queries and the `lastActiveAt` write on disconnect are not modelled.
- Asynchrony: each handler runs as one atomic step. The one interleaving the source fixes is kept: on disconnect, the friend notices go out before the game-over notices, because `handleGameOver` yields at its first database call.
- Timers and `Date.now()`: `setTimeout` handles are natural numbers issued by `MatchServer`. Firing is the explicit event `OnTimerFired`. Clock readings are parameters. Whether 60 s really elapsed before a timer fired is not modelled.
- `Math.random` and `uuidv4`: the room code, the room id and the coin flip of `FIND_MATCH` are parameters.
- The `LOGIN` handler, the friend, search and profile handlers and `SEND_GAME_INVITE` are not part of this model. They are database and transport plumbing outside the registry and engine core.
- JavaScript truthiness: ids and socket ids are `string` and treated as present. Empty-string ids are not produced by login. A missing payload string (`roomId` of `JOIN_ROOM`, `message` of `SEND_MESSAGE`) is an `Option`. Non-integer or non-number move coordinates are not modelled: coordinates are `int`. Clock readings are taken to be positive, so a timer start or chat stamp of 0, which the source's truthiness tests (server.ts:119, 822) would read as absent, is not considered.
- ServerLogic.ChatRules: the 101-character limit counts characters of a `seq<char>`, not UTF-16 code units.
- ServerLogic.UpperChar: upper-cases ASCII letters only, not the full Unicode case mapping of `toUpperCase`. The whitespace set of `trim` is listed explicitly in `IsJsWhitespace`.
- Aliasing of `User` objects: the source mutates the records it reads (`user.lastMessageAt = now`). The model replaces the record in the map, which has the same effect on later lookups.
- Server.MatchServer.OnFindMatch: `Coherent` is proved preserved only when the new room id is not already in use, because `createRoom` overwrites an existing room.
- Server.MatchServer.OnCreateRoom: the same applies; room codes are not checked for collisions in the source.
- Server.MatchServer.OnTimerFired: a timer left armed on a room that `createRoom` replaces (a reused room code or id) is not modelled. `createRoom` does not call `clearTimeout` (state.ts:85-103). In the source, that old `setTimeout` callback still fires. It takes the winner from the replaced room object it captured (server.ts:94-98) and calls `handleGameOver` on the room id (server.ts:111). That ends whatever game now holds the id, possibly rating a winner who is not in it. In the model the new room starts with no timer and the old handle is never armed on it, so such a firing does nothing.
- Server.MatchServer.OnRespondGameInvite: the same applies to the room id.
- Server.CreatedKeepsInv: `Coherent` needs a fresh room id, as for `createRoom`.
- Server.MatchServer.OnFindMatch: the stale-opponent branch (server.ts:605-609) cannot be reached in a valid registry, since the queue only holds registered users, so the model has no branch for it.
- `getRemainingTime` is not called anywhere in the source; the messages that carry a time left always send the constant 60, and the model leaves that field out of its messages.
- Rooms.StateManager.DeleteRoom implements the corrected `deleteRoom` (see Findings). `Rooms.RoomDeletedAsWritten` keeps the code as written.
- ServerLogic.GameOverResult: uses the corrected `deleteRoom`. As written (server.ts:81), a disconnected player whose game ends comes back ONLINE; the model keeps them OFFLINE. This is the only difference, as Rooms.CorrectionOnlyKeepsOffline states.
- Server.GameOverKeepsInv: stated for handleGameOver with the corrected `deleteRoom`. For the code as written only the statuses of OFFLINE players differ (Rooms.CorrectionOnlyKeepsOffline), and the invariant does not depend on them (Rooms.RoomDeletedAsWrittenKeepsInvariants, Server.DeletedKeepsInv).
- ServerLogic.GameOverKeepsOffline: holds for the corrected `deleteRoom` only. As written, server.ts:81 can set an OFFLINE player ONLINE (Rooms.DisconnectRevivesUser).
- Server.Departed: uses the corrected `deleteRoom` at server.ts:81 and 881. As written, the leaving player ends ONLINE instead of OFFLINE; nothing else differs (Rooms.CorrectionOnlyKeepsOffline).
- Server.MatchServer.HandleGameOver: uses the corrected `deleteRoom`, differing from server.ts:81 as written only as Rooms.CorrectionOnlyKeepsOffline states.
- Server.MatchServer.CloseGame: the same applies.
- Server.MatchServer.OnTimerFired: the same applies to the game it ends.
- Server.MatchServer.StoreMove: the same applies to a game ended by a move.
- Server.MatchServer.OnMakeMove: the same applies to a game ended by a move.
- Server.MatchServer.OnDisconnect: uses the corrected `deleteRoom` (server.ts:81 and 881). The promise that the user stays OFFLINE does not hold for the code as written, where the user comes back ONLINE (Rooms.DisconnectRevivesUser).
- Server.MatchServer.Depart: the same applies.
- Server.MatchServer.Forfeit: the same applies.
- `handleGameOver` on a room with no O player returns after clearing the timer (server.ts:20-23). The model clears the room's timer and keeps the room, following the code.
- `removeUserSocket` removes the user from the queue only when the closed socket is the current one (state.ts:75-79). It does not clear the user's `socketId`. The model follows the code.

## Findings

| source | as written | input that shows it | evidently intended | confidence | as-written member | corrected member |
|---|---|---|---|---|---|---|
| supersquare-backend/src/state.ts:122-133 | `deleteRoom` sets every player still pointing at the room to ONLINE. On disconnect, server.ts:861-881 first marks the player OFFLINE, then ends the game, which deletes the room. The disconnected player comes back ONLINE with a dead socket. | A player in a game closes their current socket: `removeUserSocket` sets OFFLINE, then `handleGameOver` or `deleteRoom` resets them to ONLINE | A player who went OFFLINE stays OFFLINE when their room is deleted; only IN_GAME players return to ONLINE | not executed | Rooms.DisconnectRevivesUser | Rooms.DisconnectStaysOffline |
