# Online chess room coordinator, in Dafny

This project models two parts of a two-player online chess application.

The main part is the game-room coordinator of `server.js`. It keeps two tables:

- `games`: room id to room record.
- `playerSockets`: connection (socket) id to the room that connection last joined.

It changes them in five handlers: create a room, join a room, relay a move, record the end of a game, and disconnect. An hourly sweep deletes old rooms. Node runs each handler to completion, so each handler is one method of the class `Server.Coordinator`. The method changes the two maps and returns the events the handler would send. Each event carries its audience:

- `Sender`: the socket itself.
- `OthersIn(room)`: the rest of the room.
- `Everyone(room)`: the whole room.

The records and the per-room transitions are values and functions in module `Rooms`. The class invariant `Valid()` says three things:

- Every room is stored under its own id.
- Every room has at most two seats. The first seat is white, the second black. A seat's id is its socket id. No socket id holds two seats.
- Every binding's player id is its own socket id.

Every handler keeps this invariant. The socket handlers (join, move, game over, disconnect) also keep every existing seat in place, with its id, name and colour. Create on an id already in use replaces that room, as `games.set` does. The sweep deletes whole rooms.

The model follows the code as written:

- A player is known only by socket id, so a player who comes back on a new connection is a stranger. `Server.ReconnectOnNewSocket` shows this: the room answers "Game is full".
- `make-move` checks neither whose turn it is nor whether the game is over. It acts on the room named in the payload, not on the room the socket is bound to.
- `game-over` may be sent by any connection for any room.

The second part is the engine-independent half of the `ChessGame` class in `src/utils/chessLogic.ts` (module `ChessLogic`):

- square names and coordinates, with row 0 as rank 8;
- the en-passant field of a FEN string, FEN being defined in section 16.1 of the Portable Game Notation Specification;
- the captured pieces and the last move of a verbose move history;
- the priority order of the end-of-game flags.

The engine's history, FEN and flags are parameters.

## Model

| member | source | states |
|---|---|---|
| `Rooms.FindBySocket` | server.js:87 | Gives the first seat whose socket id matches, and no earlier seat matches; gives none only when no seat matches. |
| `Rooms.NameOrDefault` | server.js:94 | A non-empty given name is kept. A missing or empty name becomes "Player N", N being the seat number. |
| `Rooms.Admit` | server.js:86-107 | Full exactly when the socket holds no seat and two seats exist. A seated socket rejoins its own seat: only `connected` changes and no seat is added. Otherwise one seat is appended: white if first, black if second, with id and socket id equal to the socket and the given or default name. Existing seats keep id, name and colour, and the seat shape is preserved. |
| `Rooms.Flip` | server.js:149 | The turn always changes side. |
| `Rooms.Relay` | server.js:147-150 | An accepted move takes the payload's position and history and changes the side to move. The terminal flag and the winner are untouched. |
| `Rooms.RelayAllAlternates` | server.js:147-150 | After n accepted moves the side to move depends only on the parity of n. The last report's position and history stand, and the terminal outcome is unchanged. |
| `Rooms.RelayTwiceRestoresTurn` | server.js:149 | Two accepted moves give the turn back. The state equals that after the second move alone, with the original side to move. |
| `Rooms.End` | server.js:169-170 | The room becomes terminal with the reported winner. Position, turn and history are untouched. |
| `Rooms.EndIdempotent` | server.js:169-170 | Reporting the same end twice equals reporting it once. |
| `Rooms.Offline` | server.js:189-191 | Only the given seat changes, and only its `connected` flag, which becomes false. No seat is removed. |
| `Rooms.OfflineKeepsSeats` | server.js:189-191 | Marking a seat offline keeps every seat's id, name and colour, and the seat shape. |
| `Rooms.Surviving` | server.js:210-216 | The swept table is a sub-table of the old one with unchanged records. |
| `Rooms.SurvivingExactly` | server.js:210-216 | A room survives the sweep at `now` iff it was created no earlier than `now` - 3600000 ms. |
| `Rooms.SurvivingIdempotent` | server.js:210-216 | A second sweep at the same instant deletes nothing. |
| `Rooms.SurvivingMonotone` | server.js:210-216 | A later sweep deletes a superset and subsumes an earlier one. A room created at the sweep's instant survives. |
| `Server.Coordinator.constructor` | server.js:29-30 | Both tables start empty, and the invariant holds. |
| `Server.Coordinator.CreateGame` | server.js:42-63 | Stores under the new id a room with no players, turn 'w', the start FEN, an empty history, not over, no winner, created now. Other rooms and the bindings are unchanged. Answers the share link `protocol://host/game/id`. |
| `Server.Coordinator.FetchGame` | server.js:65-72 | Gives the stored room iff the id is known. The record carries that id. Otherwise gives nothing (the 404). |
| `Server.Coordinator.JoinGame` | server.js:78-130 | Unknown room: only "Game not found" to the sender, nothing changes. Full room: only "Game is full", nothing changes. Otherwise the room's seats become those of `Admit` and the socket is bound to the room with its own id. The joiner gets `game-joined` with the room, its seat and `canStart` (true iff 2 seats). The others get `player-joined` with the seat count. The invariant is kept and no seat is lost. |
| `Server.Coordinator.MakeMove` | server.js:132-163 | Unknown room or unbound socket: "Invalid game or player", nothing changes. A socket without a seat in that room: "Player not found in game", nothing changes. Otherwise the room's state becomes `Relay` of the payload and the turn flips. Seats and bindings are unchanged. Everyone in the room gets `move-made` with the new turn and the mover's name and colour. |
| `Server.Coordinator.GameOver` | server.js:165-179 | Unknown room: no event and no change. Otherwise the room becomes terminal with the winner, and everyone in the room gets `game-ended` with the new state. Bindings are unchanged. |
| `Server.Coordinator.Disconnect` | server.js:181-205 | Unbound socket: no change, no event. Bound socket: its binding is removed. If its last-joined room exists and it holds a seat there, that seat goes offline and is kept, and the others get `player-disconnected` with its name and colour. Otherwise rooms are unchanged and no event is sent. |
| `Server.Coordinator.Sweep` | server.js:209-217 | The table afterwards is exactly `Surviving(old table, now)`. Bindings are untouched, including those naming deleted rooms. |
| `Server.ReconnectOnNewSocket` | server.js:86-107 | The first joiner is white and cannot start yet. The second is black and can start. After white disconnects, white's return on a new socket gets only "Game is full". |
| `Server.LeaveThenReturn` | server.js:86-107 | In a room with both seats taken, a seated player who disconnects and joins again on a new socket gets only "Game is full". |
| `Server.SeatTwo` | server.js:89-98 | Two distinct sockets joining an empty room without names get "Player 1" as white and then "Player 2" as black. The first cannot start yet; the second can. |
| `ChessLogic.SquareName` | src/utils/chessLogic.ts:29-33 | For row and column in 0..7, a two-character text: the file letter of the column, then the rank digit of the row, so row 0 is rank 8. NaN exactly when both indices are out of range, since `undefined + undefined` is NaN. With exactly one out of range, a text longer than two characters. |
| `ChessLogic.IndexOf` | src/utils/chessLogic.ts:38-39 | `indexOf`: the first position where the needle occurs, or -1 exactly when it does not occur. |
| `ChessLogic.OnAxis` | src/utils/chessLogic.ts:35-41 | No file letter or rank digit repeats, so a square's character that is the letter or digit at position k is looked up as k. |
| `ChessLogic.Coordinates` | src/utils/chessLogic.ts:35-41 | Each component is in -1..7. It is -1 exactly when its character is missing or not in the file or rank string. Otherwise it is that character's index. |
| `ChessLogic.SquareRoundTrip` | src/utils/chessLogic.ts:29-41 | For 0 ≤ row, col ≤ 7, the coordinates of the square's name are (row, col). |
| `ChessLogic.CoordinatesRoundTrip` | src/utils/chessLogic.ts:29-41 | A two-character square with a valid file and rank has in-range coordinates, and they name it back. |
| `ChessLogic.Split` | src/utils/chessLogic.ts:115 | `split(' ')`: at least one part, and no part holds the separator. |
| `ChessLogic.SplitThenJoin` | src/utils/chessLogic.ts:115 | Joining the parts of a split with the separator gives the string back. |
| `ChessLogic.JoinThenSplit` | src/utils/chessLogic.ts:115 | Splitting the join of separator-free parts gives the parts back. |
| `ChessLogic.EnPassantSquare` | src/utils/chessLogic.ts:113-118 | A returned square is never "-" and holds no space. The answer is `undefined` exactly when there are fewer than four fields. |
| `ChessLogic.EnPassantOfFields` | src/utils/chessLogic.ts:113-118 | For a FEN of space-free fields: null iff the fourth field is "-", otherwise that field unchanged. |
| `ChessLogic.CapturedPieces` | src/utils/chessLogic.ts:152-171 | The white list is the white pieces, and the black list the black pieces, of all captured pieces in history order. Each captured piece is coloured opposite to its mover. |
| `ChessLogic.OfColor` | src/utils/chessLogic.ts:162-166 | Every piece kept has the requested colour, and the result is no longer than the input. That no piece is added or lost is `OfColorPartition`. |
| `ChessLogic.CapturedPiecesPartition` | src/utils/chessLogic.ts:152-171 | Together the two lists hold every captured piece exactly once (as multisets). Their total length is the number of capturing moves. |
| `ChessLogic.CapturedOfColor` | src/utils/chessLogic.ts:156-167 | The list of colour c is exactly what the other side's moves captured, in order. |
| `ChessLogic.LastMove` | src/utils/chessLogic.ts:124-133 | None iff the history is empty. Otherwise a pair of coordinate pairs, each component in -1..7. |
| `ChessLogic.LastMoveOfSquares` | src/utils/chessLogic.ts:124-133 | When the last move's squares are board squares, the answer is their (row, col) coordinates. |
| `ChessLogic.GameResult` | src/utils/chessLogic.ts:90-95 | Checkmate iff the checkmate flag is set. Draw iff not checkmate and the draw flag is set. Stalemate iff neither of those and the stalemate flag is set. None iff no flag is set. |
| `ChessLogic.StalemateShadowedByDraw` | src/utils/chessLogic.ts:90-95 | If every stalemate is also a draw for the engine, "stalemate" is never reported. |

## Left out

- Express setup, CORS, static serving, `server.listen` and the `console.log` lines of `server.js`: I/O plumbing. The create and fetch routes are modelled as operations on `games`.
- The socket.io transport: the model does not track which sockets belong to a room's broadcast group. `socket.join` and fan-out are replaced by the audience attached to each returned event.
- `uuidv4`, `new Date()` and `setInterval`: the room id and the current time (in milliseconds) are parameters, and the sweep is a method called with `now`. Create overwrites an existing id as `games.set` does; the model does not assume the id is fresh.
- Payload values are modelled with simple types. `move`, `reason` and a FEN are strings, and a move history is a sequence of strings. `winner` is an optional string. `playerName` is an optional string, so of the JavaScript falsy values only a missing or empty name is modelled.
- Concurrency: Node runs each handler to completion, so there is no interleaving to model.
- The rules-engine wrappers of `ChessGame` are not modelled, because they only forward to the chess library: `getBoard`, `makeMove`, `makeMoveSAN`, `getPossibleMoves`, `getAllLegalMoves`, `getTurn`, `isGameOver`, `isInCheck`, `canCastle`, `getMoveHistory`, `getFEN`, `loadFEN`, `reset` and `getMoveDetails`. The chess library is not part of this model. Its verbose history and its flags enter as parameters.
- `ChessLogic.Coordinates`: strings are modelled as sequences of Unicode code points, not JavaScript's UTF-16 code units. A square that holds a character outside the Basic Multilingual Plane, or a lone surrogate, is indexed differently. The engine's square names are ASCII.
- `ChessLogic.Split`: models `String.prototype.split` only for a one-character separator, the only form used.
- `ChessLogic.StalemateShadowedByDraw`: the premise that the engine counts every stalemate as a draw is stated as a hypothesis, because the chess library is not part of this model.
- The React components and hooks, the client socket and HTTP services, sound and the AI move picker are not part of this model.
