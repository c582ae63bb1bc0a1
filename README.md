# Tic-tac-toe game server: verified model of the socket core

This project models the real-time core of a two-player tic-tac-toe server. Players announce
themselves in a lobby, invite each other, and play in a game room. When a game is decided
or abandoned, the server writes the result to a Game record and updates both players'
counters. The model covers:

- `checkWinner`, the board evaluator (module `Board`). `CheckWinner` is a method with the
  same loop over the eight lines. It is proved equal to the function `Evaluate`, and
  `EvaluateSpec` says what `Evaluate` means.
- the presence registry `onlineUsers` (module `Presence`). It is a Map keyed by user id,
  modelled as the sequence of its values in insertion order.
- game rooms and the turn logic of `player_move` (module `Rooms`): the guard, the effect
  of an accepted move, and an invariant every game room keeps. The invariant covers one
  move per filled cell, marks matching the history, the winner matching the board,
  `finished` exactly when decided, and strict alternation of turns.
- the pure parts of `saveGameResult` and `updateUserStats` (module `Results`): the result
  and winner mapping, the finalised record, the game duration and the counter updates.
  The database reads are parameters.
- the socket handlers (module `Server`). Class `GameServer` holds `onlineUsers` and
  `rooms` as fields, with one method per handler: `join_lobby`, `create_room`,
  `invite_to_play`, `invitation_response`, `player_move`, `leave_game` and `disconnect`.
  Each method updates the fields and returns, in order, what the handler emits
  (destination and payload), which Game record it creates and which `saveGameResult`
  calls it makes. Every method keeps `Valid()`: user ids are unique and every room
  satisfies the room invariant.

Facts about the code that shape the model:

- `player_move` does not test `room.status` (server.js:182); a finished game is meant to
  refuse further moves. See "## Findings".
- A decided room stays in `rooms` with status `'finished'`. Only `leave_game` deletes a room.
  `create_room` can overwrite one under the same id, as can a second acceptance in the same
  millisecond (server.js:107, 143).
- `player_move` waits for `saveGameResult` to finish before it broadcasts `game_updated`.
- Because of the missing status test, a room can be saved more than once.

## Model

| member | source | states |
|---|---|---|
| Board.Evaluate | server.js:22-37 | an undecided result means some cell is still null; a draw means none is |
| Board.FirstWin | server.js:29-34 | the scan of the line table from line i; defined by its body, and `FirstWinSpec` gives its meaning |
| Board.CheckWinner | server.js:22-37 | the loop over the eight lines returns exactly `Evaluate` of the board: the first complete line's mark, else draw when full, else undecided |
| Board.FirstWinSpec | server.js:29-34 | scanning from line i finds a mark exactly when some later line is complete, and the mark is that of the first such line in table order |
| Board.EvaluateSpec | server.js:22-37 | a win exactly when some line holds three equal marks, and the mark is the first such line's; a draw exactly when no line is complete and no cell is null; undecided exactly when no line is complete and a cell is null |
| Board.DecidedStaysDecided | server.js:29-36 | writing a mark into a null cell of a decided board leaves it decided |
| Board.FilledWrite | server.js:184 | writing a mark into a null cell raises the filled-cell count by one |
| Presence.Find | server.js:115-116 | `get` and `find` by user id return an entry with that id exactly when one exists |
| Presence.Upsert | server.js:100 | `set`: the entry is present afterwards and the Map grows by at most one; `UpsertSpec`, `UpsertInPlace` and `UpsertAppends` give its full meaning |
| Presence.UpsertSpec | server.js:100 | after `set`, the joining user maps to the new entry, every other user is found as before, ids stay unique, and the Map grows only for a new id |
| Presence.UpsertInPlace | server.js:100 | re-setting an existing id replaces its entry in place and keeps the insertion order |
| Presence.UpsertAppends | server.js:100 | setting an id not yet present appends its entry after all existing ones, so a new key comes last in insertion order |
| Presence.WithoutFirstSocketNone | server.js:288-293 | when no entry has the closing socket, the registry is unchanged |
| Presence.WithoutFirstSocketAt | server.js:288-293 | otherwise exactly the first entry with that socket is deleted and the others keep their order |
| Presence.UniqueIdsRemove | server.js:290 | deleting an entry keeps user ids unique |
| Presence.WithoutFirstSocket | server.js:288-293 | the registry after `disconnect`'s loop: one entry shorter exactly when some entry has the closing socket; `WithoutFirstSocketNone` and `WithoutFirstSocketAt` give its full meaning |
| Rooms.IndexOf | server.js:183 | `indexOf` gives the first index holding the player, or -1 exactly when the player is absent |
| Rooms.FindOther | server.js:185 | `find(p => p !== playerId)` gives the first player other than the mover, or undefined exactly when every player is the mover |
| Rooms.FindOtherNonMember | server.js:235-239 | when someone outside the room leaves it, `players[0]` is the other player: `players[0]` is told and recorded as winner |
| Rooms.SymbolFor | server.js:183 | the mover plays X exactly when they are `players[0]`, and O otherwise |
| Rooms.Accepts | server.js:182 | the guard of `player_move`: a game room, the mover holds the turn, and the cell is null (a position outside 0..8 reads undefined, not null); defined by its body, and `Server.GameServer.PlayerMove` shows a refused move changes nothing |
| Rooms.Finalises | server.js:198-217 | the accepted move leaves a decided board, so `saveGameResult` is called; defined by its body, and `Server.GameServer.PlayerMove` emits the save exactly in that case |
| Rooms.NewGameRoom | server.js:133-141 | a new room has players [from, to], status playing, an all-null board, `from` to move, no winner, an empty history and the start time |
| Rooms.NewGameRoomConsistent | server.js:133-141 | a new room satisfies the room invariant |
| Rooms.TwoPlayers | server.js:183-185 | with two distinct players, player k has index k, gets X for k = 0 and O otherwise, and hands the turn to the other player |
| Rooms.ApplyMove | server.js:183-217 | an accepted move writes the mover's mark in its cell and no other, passes the turn to the other player, appends the move to the history, and finishes the room with `checkWinner`'s verdict when the board is decided |
| Rooms.ApplyMoveCells | server.js:182-193 | an accepted move keeps one history entry per filled cell, distinct positions, and each entry's mark in its cell; no cell is overwritten |
| Rooms.ApplyMoveWinner | server.js:198-217 | after an accepted move the recorded winner is `checkWinner` of the board, and the room is finished exactly when that is decided |
| Rooms.HistoryAlternates | server.js:183-193 | appending the move of the player whose turn it is keeps the history alternating, with X on even moves |
| Rooms.ApplyMoveAlternates | server.js:183-193 | an accepted move keeps turns alternating between the two players, or leaves the turn undefined after a self-game's first move |
| Rooms.ApplyMoveConsistent | server.js:178-217 | every accepted move preserves the room invariant |
| Rooms.RunMovesConsistent | server.js:178-217 | any run of move requests, with or without a status check, keeps the room invariant |
| Rooms.RunMoves | server.js:178-217 | a run of move requests keeps the room a game room and calls `saveGameResult` at most once per request |
| Rooms.WinThenMoveStep | server.js:182-217 | each request of the example sequence passes the guard as written and leads to the next room; only the fifth and sixth decide the board |
| Rooms.MoveAfterWinReopensResult | server.js:182 | the guard as written accepts a move in a room already finished with X as winner; the winner becomes O and a second save is made |
| Rooms.SixthMoveRuns | server.js:182 | in the finished room, the next request saves once more as written and is refused with a status check |
| Rooms.GuardedRunFinalisesOnce | server.js:182 | with a status check, any run of requests saves at most once, never in a finished room, and a finished room never changes |
| Results.EndingOf | server.js:203-216 | a decided board is passed on as its winning mark, or as a draw |
| Results.GameStub | server.js:147-155 | the record created at game start has the two players, the room id, an empty history and board, and status active |
| Results.ResultOf | server.js:311-326 | abandoned exactly for an abandonment, with the other player as winner; draw exactly for a draw, with no winner; X's win is `player1_wins` naming players[0], O's win is `player2_wins` naming players[1] |
| Results.ResultWinnerIsRightPlayer | server.js:314-326 | the recorded winner is the player who plays the winning mark, and after an abandonment it is the player who stayed |
| Results.FinalRecord | server.js:307-342 | the saved record keeps players and room id, takes the room's history and board and the mapped result and winner, is completed, and its duration is the elapsed time in whole seconds rounded down |
| Results.Tally | server.js:362-375 | each player plays one more game and gains exactly one win, loss or draw as the result reads from their seat, or none when abandoned |
| Results.UpdateUserStats | server.js:356-376 | each player whose User document is found is tallied from their seat; a missing one is skipped |
| Results.TallyBothPlayers | server.js:362-375 | one game counts consistently for both players: one player's win is the other's loss, draws go together, and abandonment changes only games played |
| Results.SaveGameResult | server.js:299-347 | nothing is saved exactly when the Game record is missing; otherwise the record is finalised and the counters updated from its result |
| Results.SavedGameCountedOnce | server.js:344-375 | a saved game adds one game played for each player, two decided results in total unless abandoned, and the win and loss fall on the right seats |
| Server.RoomIdFor | server.js:132 | a room id is `game_` followed by decimal digits that read back as the clock reading |
| Server.DecimalRoundTrip | server.js:132 | reading the printed decimal digits of a number back gives the number |
| Server.RoomIdForInjective | server.js:132-143 | two clock readings give the same room id exactly when they are equal, so an acceptance overwrites an earlier room only within the same millisecond |
| Server.GameServer.constructor | server.js:91-92 | both registries start empty |
| Server.GameServer.JoinLobby | server.js:97-103 | the user is registered under their id with this socket, other users are untouched, and the lobby receives the new list |
| Server.GameServer.CreateRoom | server.js:105-110 | a waiting room replaces any room with that id, and the lobby receives the rooms |
| Server.GameServer.InviteToPlay | server.js:113-124 | an invitation is sent to the invitee's socket, with the inviter's name, exactly when both are online; otherwise nothing is sent |
| Server.GameServer.InvitationResponse | server.js:127-175 | accepted with the inviter online: a new room under `game_<now>`, a Game stub, then `game_started` to the room; declined: only `invitation_declined` to the inviter; inviter offline: nothing |
| Server.GameServer.PlayerMove | server.js:178-225 | a rejected move changes nothing and sends nothing; an accepted one stores `ApplyMove`'s room, saves the result when the board is decided, then sends board, turn and winner to the room |
| Server.GameServer.LeaveGame | server.js:227-248 | only a playing game room is deleted; the effects are exactly: for a playing room, the abandonment save, then `opponent_left` to the other player's socket when that player is online; then, always, `game_left` to the leaver |
| Server.GameServer.Disconnect | server.js:287-295 | the first entry with the closing socket is deleted, nothing else changes, and the lobby receives the new list |

## Left out

- Transport: socket joins and leaves of `'lobby'` and game rooms are not modelled. An
  emission is recorded with its destination.
- Server.GameServer.InvitationResponse: the lookup `io.sockets.sockets.get(inviter.socketId)`
  (server.js:164) is taken to succeed. An inviter entry can be stale: one socket joined
  under two user ids, and `disconnect` removed only the first entry. The lookup then
  yields undefined and line 164 throws after the room and the record exist, so
  `game_started` is never sent. The model always emits `GameStarted`.
- The database: `Game.findOne`, `User.findById` and the record and stats saves. Their
  results are parameters of `SaveGameResult`. The effects of `SaveResult` and
  `CreateRecord` are not executed, and write failures are not modelled. Nor are the
  `ObjectId` conversions in `saveGameResult` (server.js:330, 337, 340) and `updateUserStats`
  (server.js:359-360): a malformed id throws there, and the catch at line 350 or 377 then
  skips the record save or the counter updates, where the model always saves. The User model
  file is not part of this model: its counters are taken as natural numbers starting
  from whatever the lookup returns.
- `await` interleaving: each handler runs to completion as one step. The race between a
  deciding move and a leave of the same room, and two saves in flight at once, are not
  modelled.
- `play_again`, `chat_message`, `back_to_lobby`, `console.log`, the Express routes, the
  controller and the HTTP read model are outside this core.
- Server.GameServer.PlayerMove: payloads are well-typed. A position is an integer, and a
  string or fractional position, or a missing field, is not modelled.
- Server.GameServer.InvitationResponse: `Date.now()` is read twice, for the room id and
  for the start time. The model takes a single `now` for both. The `ObjectId` conversion
  of user ids, which can throw, is not modelled.
- Server.GameServer.PlayerMove: the move timestamp is the `now` parameter, not a fresh
  clock reading.
- Results.FinalRecord: a falsy (empty) winner id stored as null is not modelled. The
  winner id is kept as given.
- Rooms are values in a map, not shared objects. `player_move` mutates the room object
  in place; the model stores the updated value under the same id. A `saveGameResult` still
  waiting on the database holds the same object and would see later changes to it; that
  aliasing is not modelled.
- Server.GameServer.CreateRoom: the rooms are emitted as a map. The insertion order of
  `Array.from(rooms.entries())` is not modelled.
- Results.UpdateUserStats: a player who plays against themself is looked up twice and
  saved twice, from the same starting counters. The model tallies each seat separately.
- That `checkWinner` is deterministic and idempotent holds by construction of `Evaluate`
  as a function; no separate lemma states it.

## Findings

| source | as written | input that shows it | evidently intended | confidence | as-written member | corrected member |
|---|---|---|---|---|---|---|
| server.js:182 | the move guard tests the turn and the cell but not `room.status`, and a decided room keeps a current turn | players a, b; moves a@6, b@0, a@7, b@1, a@8 (X wins, saved once), then b@2 is accepted, the top row makes the winner O, and the result is saved a second time | moves in a finished room are refused, so a room is finalised at most once and its winner never changes | high, not executed | Rooms.MoveAfterWinReopensResult | Rooms.GuardedRunFinalisesOnce |
