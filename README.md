# Nested tic-tac-toe: a verified model of the rules and the game server

Nested (ultimate) tic-tac-toe is played on nine sub-boards of nine cells. Each sub-board is a
row of ten entries: cells 0..8 and, in entry 9, the sub-board's outcome ('' undecided, 'X' or
'O' won, 'D' drawn). The cell index a player marks selects the sub-board the opponent must play
in next, unless that sub-board is already decided. Three decided sub-boards in a line win the
game.

The repository has two copies of these rules:

- `server/server.js`, a multiplayer server that keeps a table of game rooms and answers the
  socket events `createGame`, `joinGame`, `makeMove`, `resetGame`, `leaveGame` and `disconnect`;
- `script.js`, an older single-page hot-seat version in which two people share one browser
  and the page keeps one board and one `nextCell` restriction.

The project models both.

| file | module | models |
|---|---|---|
| `wrappers.dfy` | `Wrappers` | `Option` and `Result` |
| `board.dfy` | `BoardModel` | cells, the 9x10 board, the eight lines, mark counting and the turn rule (`calculatePlayerTurn`, and the page's `playerTurn`, which has the same loop) |
| `server_rules.dfy` | `ServerRules` | the server's `checkInnerWin` (with draw detection) and `checkOuterWin` |
| `server_game.dfy` | `ServerGame` | a game record and the pure transitions of makeMove, joinGame, leaveGame and disconnect |
| `server_rooms.dfy` | `ServerRooms` | the `games` table and the socket fields as classes, with one method per handler |
| `server_scenarios.dfy` | `ServerScenarios` | results that span several handler calls, and concrete games |
| `hot_seat.dfy` | `HotSeat` | the page's `checkInnerWin` and `checkOuterWin` (no draws), its click handler and its reset button |

The board is a value (`seq<seq<Cell>>`). The handlers that change state in place are methods of
the classes `GameServer` (field `games: map<string, Game>`), `Socket` (fields `gameId`,
`symbol`) and `HotSeat.Page` (fields `board`, `nextCell`). Each such method is proved against the
pure functions of `ServerGame` or `HotSeat`, and those functions are proved to have the
properties the rules promise.

Where the code departs from the usual rules of the game, the model follows the code:

- `checkInnerWin` has no "already decided" guard. A move into a decided sub-board is allowed
  when no sub-board is forced. If that move completes a line that is tested earlier, the
  recorded outcome changes (`ServerScenarios.DecidedOutcomeCanChange`).
- A finished game keeps its board, and `currentPlayer` is not recomputed when the game ends.
  After one player leaves and another joins, the game is playing again over a board that already
  holds the winning line. The next accepted outer move wins again and counts a second win
  (`ServerScenarios.WinSurvivesLeaveAndRejoin`). For the same reason, "the turn field agrees with
  the marks" is not an invariant of the whole table. It is proved per move
  (`ServerGame.MoveAlternatesTurn`) and re-established by reset.
- An old socket of a user who has rejoined from a new socket removes nothing when it
  disconnects, because the seat now holds the new socket id. It still sets the room back to
  waiting with both seats filled (`ServerRooms.GameServer.Disconnect`, `ServerGame.AfterRemoval`).
- `leaveGame` and `disconnect` test `gameId && games[gameId]`, so a room id of "" counts as no
  room (`ServerRooms.LeavingGame`). makeMove and resetGame look the id up directly.

## Model

| member | source | states |
|---|---|---|
| BoardModel.EmptyBoard | server/server.js:95 | the initial board is 9 rows of 10 '' entries |
| BoardModel.Write | server/server.js:192 | writing one entry sets that entry and leaves every other entry of the board unchanged |
| BoardModel.FirstAligned | server/server.js:47-54 | the lines are tested in their listed order: the result is the value of the first line whose three entries are equal and not ignored, and None exactly when no remaining line is aligned |
| BoardModel.PlayerTurn | server/server.js:25-38 | the nested loop over cells 0..8 of each sub-board returns 'O' exactly when there are more X than O marks, else 'X' |
| BoardModel.CountIgnoresOutcomes | server/server.js:28-29 | the turn count reads only cells 0..8, so a change to outcome slots never changes it |
| BoardModel.CountAfterWrite | server/server.js:192 | marking an empty cell with m adds one to the count of m and leaves the other counts alone |
| BoardModel.TurnAlternates | server/server.js:215 | on a balanced board (X count equal to O count, or one more), marking an empty cell with the symbol on turn keeps the board balanced and hands the turn to the opponent |
| BoardModel.NextForced | server/server.js:197-204 | the sub-board forced next, read from a given board, is the cell index just played, and that sub-board is undecided; nothing is forced exactly when that sub-board already has an outcome (the server reads the board after `checkInnerWin`, the page the board before the click) |
| BoardModel.EmptyBoardFresh | server/server.js:95-101 | the initial board has no marks, is balanced, gives X the turn, and has no aligned line in any sub-board or in the outcome slots |
| ServerRules.InnerOutcome | server/server.js:40-61 | the sub-board outcome is the first aligned line's symbol; failing that, 'D' exactly when the nine cells are full and slot 9 is still ''; failing that, nothing; with no 'D' in the cells, 'D' means full with no line |
| ServerRules.AfterInner | server/server.js:47-59 | the reported outcome is stored in slot 9 of that sub-board and nothing else changes; no outcome leaves the board as it was |
| ServerRules.CheckInnerWin | server/server.js:40-61 | the loop returns `InnerOutcome` of the sub-board and the board `AfterInner`; it returns no outcome only when the board is unchanged |
| ServerRules.CheckOuterWin | server/server.js:63-82 | an outer line of three equal slots that are not '' or 'D' exists exactly when a symbol is reported; 'D' exactly when every slot is decided and there is no such line; nothing exactly when neither holds |
| ServerGame.Move | server/server.js:169-189 | the four refusals hold exactly under their conditions, in the source's order ('Game is not active', the wrong turn with the symbol on turn, the forced sub-board with its index, a taken cell); the move is accepted exactly when none applies |
| ServerGame.ViolatesForcedBoard | server/server.js:180 | definition: a sub-board is forced, it is not the one played, and it is still undecided; its use is stated by `ServerGame.Move` |
| ServerGame.Accept | server/server.js:191-216 | definition of an accepted move (write, `checkInnerWin`, next forced sub-board, conclusion); its properties are stated by the four `Accept*` lemmas and `ServerGame.MoveAlternatesTurn` |
| ServerGame.Conclude | server/server.js:206-216 | definition of the end of an accepted move; its properties are stated by `ServerGame.AcceptFinishOrTurn` |
| ServerGame.AcceptWritesOneCell | server/server.js:192-195 | an accepted move marks exactly the named empty cell with the symbol on turn; no other cell and no other sub-board's outcome changes; the played sub-board's slot holds what `checkInnerWin` reports, or keeps its value |
| ServerGame.AcceptForcesNextBoard | server/server.js:197-204 | after an accepted move the next forced sub-board is the inner index just played, unless its sub-board is decided; a forced sub-board is always undecided |
| ServerGame.AcceptFinishOrTurn | server/server.js:206-216 | the game finishes exactly when `checkOuterWin` reports an outcome; that outcome becomes the winner and adds one to the winner's counter ('D' to neither); otherwise it stays playing and the turn is recomputed from the marks; id, players and creation time are kept |
| ServerGame.AcceptPreservesValid | server/server.js:191-216 | an accepted move keeps the record valid: well-formed board, no 'D' in a cell, forced sub-board undecided, 1 or 2 seats with distinct symbols, a winner exactly when finished |
| ServerGame.MoveAlternatesTurn | server/server.js:191-216 | from a record whose turn agrees with its marks, an accepted move keeps the marks balanced and, unless it finishes the game, gives the turn to the opponent |
| ServerGame.OffTurnMoveRejected | server/server.js:174-177 | a move by the symbol that is not on turn is refused with the symbol that is on turn |
| ServerGame.FindPlayer | server/server.js:131 | the index of the first seat with the user's id, or None exactly when no seat has it |
| ServerGame.Join | server/server.js:126-156 | 'already full' exactly when two seats are filled and the user holds neither; a seated user rejoins with their symbol and only that seat's socket id changes; a second user gets the opposite symbol, is appended and the game starts; 'full or invalid' exactly for other seat counts |
| ServerGame.JoinPreservesValid | server/server.js:131-156 | a successful join keeps the record valid and keeps its board and turn |
| ServerGame.Remaining | server/server.js:247 | the filter keeps exactly the seats that do not match the leaver, is never longer, and is the identity when no seat matches |
| ServerGame.AfterRemoval | server/server.js:247-259 | the record is deleted exactly when every seat matches the leaver; otherwise the remaining seats wait again with no winner, and every other field is kept |
| ServerGame.RemainingKeepsBoth | server/server.js:247 | a filter of two seats that keeps two keeps them as they were |
| ServerGame.RemovalPreservesValid | server/server.js:247-259 | removing a participant keeps the remaining record valid |
| ServerRooms.UserIdOf | server/server.js:88 | the user id is the first eight characters of the socket id, or all of it when shorter |
| ServerRooms.Socket.constructor | server/server.js:84-90 | a new connection has the derived user id and no room or symbol |
| ServerRooms.ApplyMove | server/server.js:191-204 | the in-order steps of an accepted move (write, `checkInnerWin`, next forced sub-board, conclusion) compute `Accept` |
| ServerRooms.ConcludeMove | server/server.js:206-216 | the end of an accepted move computes `Conclude`: finish and count, or recompute the turn with `calculatePlayerTurn` |
| ServerRooms.GameServer.constructor | server/server.js:22 | the table starts empty |
| ServerRooms.GameServer.CreateGame | server/server.js:93-115 | the table gains the fresh record under the given id (replacing any record with that id), the creator is seated as X and the socket is bound to the room as X |
| ServerRooms.GameServer.JoinGame | server/server.js:118-157 | an unknown room gives 'Game not found.'; otherwise the reply is `Join`; a success stores the new record and binds the socket with the returned symbol; a refusal changes nothing |
| ServerRooms.GameServer.MakeMove | server/server.js:160-220 | an unbound socket gets 'Invalid game session.'; otherwise the reply is `Move` with the socket's symbol; an accepted move is stored, a refusal changes nothing; from a turn-consistent record the turn passes to the opponent |
| ServerRooms.GameServer.ResetGame | server/server.js:223-240 | an unbound socket gets the reset error; otherwise the board is cleared, X moves, nothing is forced, no winner, playing exactly when two seats are filled; seats, counters, id and creation time are kept; the reset record is turn-consistent with no marks |
| ServerRooms.GameServer.LeaveGame | server/server.js:243-268 | a socket with no room gets 'Not currently in a game.' and nothing changes; otherwise the user's seats are removed, the room is deleted when empty or else waits again, and the socket is unbound |
| ServerRooms.GameServer.Disconnect | server/server.js:271-292 | the seats with this socket id are removed, the room is deleted when empty or else waits again; the socket's fields are kept |
| ServerScenarios.Started | server/server.js:142-146 | a room whose second seat has just been filled is a valid, playing record |
| ServerScenarios.OpeningMove | server/server.js:191-216 | in a fresh two-seat room, X marking cell 4 of sub-board 0 is accepted, forces sub-board 4 and gives the turn to O |
| ServerScenarios.ForcedBoardScenario | server/server.js:179-189 | after that opening, O playing in sub-board 1 is refused with the forced index 4, and O playing in sub-board 4 is accepted |
| ServerScenarios.DecidedOutcomeCanChange | server/server.js:47-53 | with nothing forced, a move into a sub-board already won by X is accepted, and by completing an earlier-tested line it turns the recorded outcome into O |
| ServerScenarios.WinSurvivesLeaveAndRejoin | server/server.js:206-213 | after a won game loses a seat and gains one, the joined record is valid, and any accepted move outside the winning outer line finishes the game again and adds one more win to the counters |
| HotSeat.LocalInnerOutcome | script.js:139-159 | the page's sub-board outcome is reported exactly when a line is aligned; it is the symbol of the first aligned line in the listed order; it is never 'D' when the cells hold no 'D' |
| HotSeat.AfterLocalInner | script.js:152-155 | the page stores that outcome in slot 9 and changes nothing else; no outcome leaves the board as it was |
| HotSeat.CheckInnerWin | script.js:139-159 | the page's loop returns `LocalInnerOutcome` and the board `AfterLocalInner`; there is no draw branch |
| HotSeat.CheckOuterWin | script.js:161-180 | the page's outer check reports a value exactly when three equal non-empty slots are aligned; the value is the slot value of the first such line in the listed order; it never reports 'D' on a board without 'D' |
| HotSeat.Open | script.js:44 | definition of the handler's empty-cell test on the board: no mark in the cell, no winner in its sub-board, no winner of the game |
| HotSeat.Accepts | script.js:44-45 | definition of a taken click: the cell is open and no sub-board is forced or the clicked one is; `HotSeat.Page.Click` is taken exactly when it holds |
| HotSeat.ClickBoard | script.js:64-76 | definition of the board after a taken click; its properties are stated by `HotSeat.ClickKeepsInvariant` and `HotSeat.Page.Click` |
| HotSeat.Replay | script.js:35-115 | a sequence of clicks from a page state, each taken as `HotSeat.Page.Click` takes it, stopping at the first click not taken; the boards stay well-formed |
| HotSeat.ClickKeepsInvariant | script.js:64-76 | a taken click writes the symbol on turn into the clicked cell, keeps the marks balanced and free of 'D', and hands the turn to the opponent |
| HotSeat.ClickStrands | script.js:45-63 | from page load the seven clicks (1,1), (1,4), (4,0), (0,4), (4,8), (8,4), (4,4), given as (sub-board, cell), are all taken; the last one forces sub-board 4 and then wins it; the game is not over and cell 0 of sub-board 1 is open, but no later click is taken |
| HotSeat.StrandedBoardFacts | script.js:45-63 | after that game sub-board 4 is won by X, the game has no winner, an open cell remains, and with sub-board 4 forced no click is taken |
| HotSeat.CorrectedClickFreesBoard | server/server.js:197-204 | after the same game, the next sub-board read from the board after the inner-win check is none, so the open cell of sub-board 1 can be played |
| HotSeat.Page.constructor | script.js:1-22 | the page starts with the empty board, nothing forced, and the page invariant |
| HotSeat.Page.Click | script.js:35-115 | a click is taken exactly when its cell is open and the forced restriction admits its sub-board; otherwise nothing changes; a taken click sets `nextCell` from the board before the mark, writes the symbol on turn, runs the inner check and, only when that reports, the outer check; the turn passes to the opponent |
| HotSeat.Page.ClickCorrected | script.js:35-115 | the same click with `nextCell` derived after the inner-win check: the forced sub-board is always undecided |
| HotSeat.Page.Reset | script.js:117-137 | every entry of the board is cleared and `nextCell` keeps its value |

## Findings

| source | as written | input that shows it | evidently intended | confidence | as-written member | corrected member |
|---|---|---|---|---|---|---|
| script.js:45-63 | the click handler sets `nextCell` from slot 9 of sub-board `innerIndex` before it writes the mark and runs `checkInnerWin`, so a click that wins sub-board k at inner index k forces the sub-board it has just closed | from page load, the clicks (sub-board, cell) (1,1), (1,4), (4,0), (0,4), (4,8), (8,4), (4,4); the last click wins sub-board 4 on the 0-4-8 diagonal and forces sub-board 4 | the next sub-board is derived after the inner-win check, as `server/server.js:197-204` does, so a decided target frees every sub-board | not executed | HotSeat.ClickStrands | HotSeat.Page.ClickCorrected |

`HotSeat.Page.Click` is the as-written handler and `HotSeat.Page.ClickCorrected` the corrected
one. The corrected handler ensures that a forced sub-board is always undecided, and
`HotSeat.CorrectedClickFreesBoard` shows that it frees the board after the same game. The page has
no draw detection, so even the corrected handler can still force a full sub-board that has no
line; that is a separate matter and is not claimed here.

## Left out

- Transport: socket.io rooms, `emit`, broadcasts, `socket.join`/`socket.leave`, the express
  static server, `server.listen` and all `console.log` calls. A handler's reply is its result.
- The room id (`Math.random`) and the creation time (`new Date()`) are parameters of
  `ServerRooms.GameServer.CreateGame`.
- ServerRooms.GameServer.JoinGame: the table is a map with only the rooms created. In the source
  `games` is a plain object (server/server.js:22), so an id such as "constructor" or "toString"
  finds an inherited property; `!game` is then false and the handler throws a TypeError at
  server/server.js:126 instead of replying 'Game not found.'. That path is not modelled. The
  other handlers only look up an id stored on the socket by a successful create or join.
- Concurrency: Node runs one handler at a time, so handlers are modelled as separate method calls.
- The board is updated in place in the source; here each record holds its board as a value.
  No board is shared between rooms, so nothing is lost through aliasing.
- ServerRooms.GameServer.MakeMove: requires both indices to be in 0..8. The source does not check
  them: an inner index of 9 writes slot 9 and then fails on a missing row, and other values
  produce JavaScript errors or `undefined` entries. Those paths are not modelled.
- ServerRooms.GameServer.Valid: does not include "the turn agrees with the marks". Leaving and
  rejoining a finished game breaks that agreement (see above).
- The symbols 'X', 'O', 'D' and '' are an enumeration. Other strings are not possible in the board.
- HotSeat.Page.Click: the test `cell.textContent === ''` reads the DOM. It is modelled by
  `HotSeat.Open` on the board: the cell holds no mark, its sub-board has no winner and the game has
  no winner. This matches the handler's own stamping of winners onto cells (script.js:85-96).
- DOM effects of the page are not modelled: colours, pointer events, turn text, the player-name
  form and double-click, and the score text of script.js:93. That score text joins strings
  rather than adding numbers.
- client/script.js is not part of this model. It only renders server records and sends events.
