/**
 * The records kept by the game-room coordinator of server.js and the
 * transitions it applies to one room. The coordinator's mutable tables live
 * in module Server; everything here works on values.
 */
module Rooms {
  import opened Wrappers

  /** A seat's colour: the strings 'white' / 'black'. */
  datatype Color = White | Black

  /** Whose turn it is: the strings 'w' / 'b' of `gameState.turn`. */
  datatype Side = W | B

  /** One seat of `game.players`. `id` and `socketId` are both the socket id of the joining connection. */
  datatype Player = Player(id: string, socketId: string, name: string, color: Color, connected: bool)

  /** `game.gameState`: the position as FEN, the mover, the client's move list and the terminal outcome. */
  datatype GameState = GameState(fen: string, turn: Side, moveHistory: seq<string>, isGameOver: bool, winner: Option<string>)

  /** A room record of the `games` table; `createdAt` is in milliseconds. */
  datatype Game = Game(id: string, players: seq<Player>, gameState: GameState, createdAt: int)

  /** A value of the `playerSockets` table: the room a connection last joined and its seat's id. */
  datatype Binding = Binding(gameId: string, playerId: string)

  /** The position every new room starts from. */
  const StartFen: string := "rnbqkbnr/pppppppp/8/8/8/8/PPPPPPPP/RNBQKBNR w KQkq - 0 1"

  /** Rooms older than this (60 * 60 * 1000 ms) are swept. */
  const OneHourMs: int := 3600000

  /** The colour given to the seat at position `seat`: the first seat is white, any later one black. */
  function SeatColor(seat: nat): Color {
    if seat == 0 then White else Black
  }

  /** The room record stored by the create route. */
  function NewGame(id: string, now: int): Game {
    Game(id, [], GameState(StartFen, W, [], false, None), now)
  }

  /**
   * The shape every room keeps: at most two seats, the colour of a seat
   * fixed by its position, a seat's id equal to its socket id, and no
   * socket id on two seats.
   */
  ghost predicate WellSeated(players: seq<Player>) {
    && |players| <= 2
    && (forall i :: 0 <= i < |players| ==> players[i].color == SeatColor(i) && players[i].id == players[i].socketId)
    && (forall i, j :: 0 <= i < j < |players| ==> players[i].socketId != players[j].socketId)
  }

  /** `after` keeps every seat of `before`, in place, with the same id, name and colour. */
  ghost predicate SeatsKept(before: seq<Player>, after: seq<Player>) {
    && |before| <= |after|
    && forall i :: 0 <= i < |before| ==>
         after[i].id == before[i].id && after[i].name == before[i].name && after[i].color == before[i].color
  }

  /** `players.find(p => p.socketId === socketId)`, as the index of the first seat found. */
  function FindBySocket(players: seq<Player>, socketId: string): (r: Option<nat>)
    ensures r.Some? ==> r.value < |players| && players[r.value].socketId == socketId
    ensures r.Some? ==> forall j :: 0 <= j < r.value ==> players[j].socketId != socketId
    ensures r.None? ==> forall j :: 0 <= j < |players| ==> players[j].socketId != socketId
  {
    if players == [] then None
    else if players[0].socketId == socketId then Some(0)
    else match FindBySocket(players[1..], socketId)
      case None => None
      case Some(k) => Some(k + 1)
  }

  /** `Player ${count + 1}`, the name of a seat whose joiner gave none; only seats 0 and 1 are ever created. */
  function DefaultName(count: nat): string
    requires count < 2
  {
    if count == 0 then "Player 1" else "Player 2"
  }

  /** `playerName || DefaultName(count)`: a missing or empty name is falsy. */
  function NameOrDefault(playerName: Option<string>, count: nat): (name: string)
    requires count < 2
    ensures playerName.Some? && playerName.value != "" ==> name == playerName.value
    ensures (playerName.None? || playerName.value == "") ==> name == DefaultName(count)
  {
    if playerName.Some? && playerName.value != "" then playerName.value else DefaultName(count)
  }

  /** What admitting a socket to a room's seats yields: the room is full, or the new seats and the admitted seat. */
  datatype Admission = Full | Admitted(players: seq<Player>, seat: nat)

  /**
   * The seat assignment of `join-game`: a socket already seated rejoins its
   * own seat, otherwise it takes a new seat while fewer than two exist,
   * otherwise the room is full.
   */
  function Admit(players: seq<Player>, socketId: string, playerName: Option<string>): (a: Admission)
    ensures a.Full? <==> FindBySocket(players, socketId).None? && |players| >= 2
    ensures a.Admitted? ==> a.seat < |a.players| && a.players[a.seat].socketId == socketId && a.players[a.seat].connected
    ensures a.Admitted? ==> SeatsKept(players, a.players)
    // a rejoin changes no seat but its own, and only its liveness
    ensures a.Admitted? && FindBySocket(players, socketId).Some? ==>
      && |a.players| == |players|
      && a.seat == FindBySocket(players, socketId).value
      && a.players == players[a.seat := players[a.seat].(connected := true)]
    // a new seat is appended, coloured by its position, named by the joiner or by default
    ensures a.Admitted? && FindBySocket(players, socketId).None? ==>
      && |players| < 2
      && a.players[..|players|] == players
      && a.seat == |players| == |a.players| - 1
      && a.players[a.seat] == Player(socketId, socketId, NameOrDefault(playerName, |players|), SeatColor(|players|), true)
    ensures a.Admitted? && WellSeated(players) ==> WellSeated(a.players)
  {
    match FindBySocket(players, socketId)
    case Some(i) =>
      Admitted(players[i := players[i].(connected := true, socketId := socketId)], i)
    case None =>
      if |players| < 2 then
        Admitted(players + [Player(socketId, socketId, NameOrDefault(playerName, |players|), SeatColor(|players|), true)], |players|)
      else
        Full
  }

  /** `turn === 'w' ? 'b' : 'w'`. */
  function Flip(t: Side): (u: Side)
    ensures u != t
  {
    if t == W then B else W
  }

  /** The update of an accepted `make-move`: the payload's position and history, and the other side to move. */
  function Relay(gs: GameState, newFen: string, moveHistory: seq<string>): (r: GameState)
    ensures r.turn != gs.turn
    ensures r.fen == newFen && r.moveHistory == moveHistory
    ensures r.isGameOver == gs.isGameOver && r.winner == gs.winner
  {
    gs.(fen := newFen, turn := Flip(gs.turn), moveHistory := moveHistory)
  }

  /** The payload of one accepted move report. */
  datatype Report = Report(newFen: string, moveHistory: seq<string>)

  /** The state after relaying `reports` in order. */
  function RelayAll(gs: GameState, reports: seq<Report>): GameState
    decreases |reports|
  {
    if reports == [] then gs
    else RelayAll(Relay(gs, reports[0].newFen, reports[0].moveHistory), reports[1..])
  }

  /**
   * Strict alternation: after any number of accepted moves the side to move
   * depends only on their parity, the last report's position and history
   * stand, and the terminal outcome is untouched.
   */
  lemma {:induction false} RelayAllAlternates(gs: GameState, reports: seq<Report>)
    ensures RelayAll(gs, reports).turn == if |reports| % 2 == 0 then gs.turn else Flip(gs.turn)
    ensures reports != [] ==>
      RelayAll(gs, reports).fen == reports[|reports| - 1].newFen &&
      RelayAll(gs, reports).moveHistory == reports[|reports| - 1].moveHistory
    ensures reports == [] ==> RelayAll(gs, reports) == gs
    ensures RelayAll(gs, reports).isGameOver == gs.isGameOver && RelayAll(gs, reports).winner == gs.winner
    decreases |reports|
  {
    if reports != [] {
      var next := Relay(gs, reports[0].newFen, reports[0].moveHistory);
      RelayAllAlternates(next, reports[1..]);
      assert Flip(Flip(gs.turn)) == gs.turn;
    }
  }

  /** Two accepted moves give the turn back to the side that had it. */
  lemma RelayTwiceRestoresTurn(gs: GameState, fen1: string, h1: seq<string>, fen2: string, h2: seq<string>)
    ensures Relay(Relay(gs, fen1, h1), fen2, h2).turn == gs.turn
    ensures Relay(Relay(gs, fen1, h1), fen2, h2) == Relay(gs, fen2, h2).(turn := gs.turn)
  {
  }

  /** The update of `game-over`: the room becomes terminal with the reported winner. */
  function End(gs: GameState, winner: Option<string>): (r: GameState)
    ensures r.isGameOver && r.winner == winner
    ensures r.fen == gs.fen && r.turn == gs.turn && r.moveHistory == gs.moveHistory
  {
    gs.(isGameOver := true, winner := winner)
  }

  /** Reporting the same outcome twice is the same as reporting it once. */
  lemma EndIdempotent(gs: GameState, winner: Option<string>)
    ensures End(End(gs, winner), winner) == End(gs, winner)
  {
  }

  /** The update of `disconnect`: the seat at `seat` is marked offline and kept. */
  function Offline(players: seq<Player>, seat: nat): (r: seq<Player>)
    requires seat < |players|
    ensures |r| == |players| && !r[seat].connected
    ensures forall i :: 0 <= i < |r| && i != seat ==> r[i] == players[i]
    ensures r[seat] == players[seat].(connected := false)
  {
    players[seat := players[seat].(connected := false)]
  }

  /** Marking a seat offline keeps the room's shape. */
  lemma OfflineKeepsSeats(players: seq<Player>, seat: nat)
    requires seat < |players|
    ensures SeatsKept(players, Offline(players, seat))
    ensures WellSeated(players) ==> WellSeated(Offline(players, seat))
  {
  }

  /** A room survives the sweep at `now` unless it was created more than an hour before `now`. */
  predicate Expired(g: Game, now: int) {
    g.createdAt < now - OneHourMs
  }

  /** The `games` table after the hourly sweep at `now`. */
  function Surviving(games: map<string, Game>, now: int): (m: map<string, Game>)
    ensures m.Keys <= games.Keys
    ensures forall id :: id in m ==> m[id] == games[id]
  {
    map id | id in games && !Expired(games[id], now) :: games[id]
  }

  /** The sweep deletes exactly the expired rooms and keeps every other room unchanged. */
  lemma SurvivingExactly(games: map<string, Game>, now: int, id: string)
    ensures id in Surviving(games, now) <==> id in games && games[id].createdAt >= now - OneHourMs
  {
  }

  /** A second sweep at the same instant deletes nothing more. */
  lemma SurvivingIdempotent(games: map<string, Game>, now: int)
    ensures Surviving(Surviving(games, now), now) == Surviving(games, now)
  {
  }

  /** A later sweep deletes every room an earlier one deleted; a room created at the sweep's instant is kept. */
  lemma SurvivingMonotone(games: map<string, Game>, earlier: int, later: int)
    requires earlier <= later
    ensures Surviving(games, later).Keys <= Surviving(games, earlier).Keys
    ensures Surviving(Surviving(games, earlier), later) == Surviving(games, later)
    ensures forall id :: id in games && games[id].createdAt == later ==> id in Surviving(games, later)
  {
  }
}
