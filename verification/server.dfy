/**
 * The game-room coordinator of server.js: the `games` and `playerSockets`
 * tables and the handlers that change them. Each socket handler runs to
 * completion in one step, so each is one method; instead of calling the
 * transport it returns the events it would send, each with its audience.
 */
module Server {
  import opened Wrappers
  import opened Rooms

  /** Who receives an event: `socket.emit`, `socket.to(room).emit` or `io.to(room).emit`. */
  datatype Audience = Sender | OthersIn(room: string) | Everyone(room: string)

  /** The events the coordinator sends to clients. */
  datatype Event =
    | Error(message: string)
    | GameJoined(game: Game, player: Player, canStart: bool)
    | PlayerJoined(player: Player, playersCount: nat, canStart: bool)
    | MoveMade(move: string, newFen: string, moveHistory: seq<string>, turn: Side, playerName: string, playerColor: Color)
    | GameEnded(winner: Option<string>, reason: string, gameState: GameState)
    | PlayerDisconnected(playerName: string, playerColor: Color)

  datatype Outbound = Outbound(to: Audience, event: Event)

  class Coordinator {
    /** Room id to room record. */
    var games: map<string, Game>
    /** Connection id to the room it last joined. */
    var playerSockets: map<string, Binding>

    /**
     * Every room is stored under its own id and keeps the seat shape of
     * WellSeated; every binding's player id is its own socket id.
     */
    ghost predicate Valid()
      reads this
    {
      && (forall id :: id in games ==> games[id].id == id && WellSeated(games[id].players))
      && (forall s :: s in playerSockets ==> playerSockets[s].playerId == s)
    }

    /** Both tables start empty. */
    constructor ()
      ensures Valid()
      ensures games == map[] && playerSockets == map[]
    {
      games := map[];
      playerSockets := map[];
    }

    /**
     * `POST /api/create-game`: stores a new empty room under `gameId` and
     * answers with its share link. The id generator and the clock are
     * parameters.
     */
    method CreateGame(gameId: string, now: int, protocol: string, host: string) returns (shareUrl: string)
      requires Valid()
      modifies this
      ensures Valid()
      ensures gameId in games
      ensures games[gameId].players == [] && games[gameId].createdAt == now
      ensures games[gameId].gameState == GameState(StartFen, W, [], false, None)
      ensures forall id :: id in old(games) && id != gameId ==> id in games && games[id] == old(games)[id]
      ensures games.Keys == old(games.Keys) + {gameId}
      ensures playerSockets == old(playerSockets)
      ensures shareUrl == protocol + "://" + host + "/game/" + gameId
    {
      games := games[gameId := NewGame(gameId, now)];
      shareUrl := protocol + "://" + host + "/game/" + gameId;
    }

    /** `GET /api/game/:id`: the stored room, or nothing (a 404) for an unknown id. */
    method FetchGame(id: string) returns (r: Option<Game>)
      requires Valid()
      ensures r.Some? <==> id in games
      ensures r.Some? ==> r.value == games[id] && r.value.id == id
    {
      if id in games {
        r := Some(games[id]);
      } else {
        r := None;
      }
    }

    /**
     * `join-game`: seats the socket (or reseats it in its own seat), binds
     * the socket to the room, tells the joiner the whole room and tells the
     * others who joined. An unknown room or a full room only yields an error
     * to the joiner.
     */
    method JoinGame(socketId: string, gameId: string, playerName: Option<string>) returns (out: seq<Outbound>)
      requires Valid()
      modifies this
      ensures Valid()
      ensures gameId !in old(games) ==>
        out == [Outbound(Sender, Error("Game not found"))] &&
        games == old(games) && playerSockets == old(playerSockets)
      ensures gameId in old(games) && Admit(old(games)[gameId].players, socketId, playerName).Full? ==>
        out == [Outbound(Sender, Error("Game is full"))] &&
        games == old(games) && playerSockets == old(playerSockets)
      ensures gameId in old(games) && Admit(old(games)[gameId].players, socketId, playerName).Admitted? ==>
        var a := Admit(old(games)[gameId].players, socketId, playerName);
        var g := old(games)[gameId].(players := a.players);
        var p := a.players[a.seat];
        && games == old(games)[gameId := g]
        && playerSockets == old(playerSockets)[socketId := Binding(gameId, socketId)]
        && out == [Outbound(Sender, GameJoined(g, p, |a.players| == 2)),
                   Outbound(OthersIn(gameId), PlayerJoined(p, |a.players|, |a.players| == 2))]
      ensures forall id :: id in old(games) ==> id in games && SeatsKept(old(games)[id].players, games[id].players)
    {
      if gameId !in games {
        out := [Outbound(Sender, Error("Game not found"))];
        return;
      }
      var game := games[gameId];
      var admission := Admit(game.players, socketId, playerName);
      if admission.Full? {
        out := [Outbound(Sender, Error("Game is full"))];
        return;
      }
      assert WellSeated(admission.players) && SeatsKept(game.players, admission.players);
      game := game.(players := admission.players);
      var player := game.players[admission.seat];
      assert player.id == socketId;
      games := games[gameId := game];
      playerSockets := playerSockets[socketId := Binding(gameId, player.id)];
      var canStart := |game.players| == 2;
      out := [Outbound(Sender, GameJoined(game, player, canStart)),
              Outbound(OthersIn(gameId), PlayerJoined(player, |game.players|, canStart))];
    }

    /**
     * `make-move`: in the room named by the payload, takes the reported
     * position and history and passes the turn, then tells everyone in the
     * room. It requires only that the room exists, that the socket is bound
     * to some room and that it holds a seat in this one: neither the turn
     * nor the terminal flag is consulted.
     */
    method MakeMove(socketId: string, gameId: string, move: string, newFen: string, moveHistory: seq<string>)
      returns (out: seq<Outbound>)
      requires Valid()
      modifies this
      ensures Valid()
      ensures playerSockets == old(playerSockets)
      ensures gameId !in old(games) || socketId !in old(playerSockets) ==>
        out == [Outbound(Sender, Error("Invalid game or player"))] && games == old(games)
      ensures gameId in old(games) && socketId in old(playerSockets) &&
              FindBySocket(old(games)[gameId].players, socketId).None? ==>
        out == [Outbound(Sender, Error("Player not found in game"))] && games == old(games)
      ensures gameId in old(games) && socketId in old(playerSockets) &&
              FindBySocket(old(games)[gameId].players, socketId).Some? ==>
        var g := old(games)[gameId];
        var p := g.players[FindBySocket(g.players, socketId).value];
        && games == old(games)[gameId := g.(gameState := Relay(g.gameState, newFen, moveHistory))]
        && games[gameId].gameState.turn == Flip(g.gameState.turn)
        && games[gameId].players == g.players
        && out == [Outbound(Everyone(gameId), MoveMade(move, newFen, moveHistory, Flip(g.gameState.turn), p.name, p.color))]
    {
      if gameId !in games || socketId !in playerSockets {
        out := [Outbound(Sender, Error("Invalid game or player"))];
        return;
      }
      var game := games[gameId];
      var found := FindBySocket(game.players, socketId);
      if found.None? {
        out := [Outbound(Sender, Error("Player not found in game"))];
        return;
      }
      var player := game.players[found.value];
      game := game.(gameState := Relay(game.gameState, newFen, moveHistory));
      games := games[gameId := game];
      out := [Outbound(Everyone(gameId), MoveMade(move, newFen, moveHistory, game.gameState.turn, player.name, player.color))];
    }

    /**
     * `game-over`: marks the named room terminal with the reported winner
     * and tells everyone in it. Any connection may report it, for any room;
     * an unknown room is ignored.
     */
    method GameOver(gameId: string, winner: Option<string>, reason: string) returns (out: seq<Outbound>)
      requires Valid()
      modifies this
      ensures Valid()
      ensures playerSockets == old(playerSockets)
      ensures gameId !in old(games) ==> out == [] && games == old(games)
      ensures gameId in old(games) ==>
        var g := old(games)[gameId];
        && games == old(games)[gameId := g.(gameState := End(g.gameState, winner))]
        && games[gameId].gameState.isGameOver && games[gameId].gameState.winner == winner
        && out == [Outbound(Everyone(gameId), GameEnded(winner, reason, End(g.gameState, winner)))]
    {
      if gameId !in games {
        out := [];
        return;
      }
      var game := games[gameId];
      game := game.(gameState := End(game.gameState, winner));
      games := games[gameId := game];
      out := [Outbound(Everyone(gameId), GameEnded(winner, reason, game.gameState))];
    }

    /**
     * `disconnect`: if the socket is bound, marks its seat in the room it
     * last joined offline (keeping the seat and its colour), tells the
     * others, and drops the binding. An unbound socket changes nothing.
     */
    method Disconnect(socketId: string) returns (out: seq<Outbound>)
      requires Valid()
      modifies this
      ensures Valid()
      ensures socketId !in old(playerSockets) ==>
        out == [] && games == old(games) && playerSockets == old(playerSockets)
      ensures socketId in old(playerSockets) ==> playerSockets == old(playerSockets) - {socketId}
      ensures socketId in old(playerSockets) ==>
        var gid := old(playerSockets)[socketId].gameId;
        if gid in old(games) && FindBySocket(old(games)[gid].players, socketId).Some? then
          var g := old(games)[gid];
          var seat := FindBySocket(g.players, socketId).value;
          && games == old(games)[gid := g.(players := Offline(g.players, seat))]
          && out == [Outbound(OthersIn(gid), PlayerDisconnected(g.players[seat].name, g.players[seat].color))]
        else
          games == old(games) && out == []
      ensures forall id :: id in old(games) ==> id in games && SeatsKept(old(games)[id].players, games[id].players)
    {
      out := [];
      if socketId in playerSockets {
        var gid := playerSockets[socketId].gameId;
        if gid in games {
          var game := games[gid];
          var found := FindBySocket(game.players, socketId);
          if found.Some? {
            var player := game.players[found.value];
            OfflineKeepsSeats(game.players, found.value);
            game := game.(players := Offline(game.players, found.value));
            games := games[gid := game];
            out := [Outbound(OthersIn(gid), PlayerDisconnected(player.name, player.color))];
          }
        }
        playerSockets := playerSockets - {socketId};
      }
    }

    /**
     * The hourly sweep at time `now`: visits every room once and deletes
     * those created more than an hour before `now`. Bindings are left alone,
     * even those naming a deleted room.
     */
    method Sweep(now: int)
      requires Valid()
      modifies this
      ensures Valid()
      ensures games == Surviving(old(games), now)
      ensures playerSockets == old(playerSockets)
    {
      var pending := games.Keys;
      while pending != {}
        invariant pending <= old(games).Keys
        invariant games.Keys <= old(games).Keys
        invariant forall id :: id in games ==> games[id] == old(games)[id]
        invariant forall id :: id in old(games) ==>
          (id in games <==> id in pending || !Expired(old(games)[id], now))
        invariant playerSockets == old(playerSockets)
        invariant Valid()
        decreases pending
      {
        var id :| id in pending;
        if Expired(games[id], now) {
          games := games - {id};
        }
        pending := pending - {id};
      }
    }
  }

  /**
   * Two players join a fresh room, white moves, white's connection drops and
   * white comes back on a new connection. Seats are keyed by socket id, so
   * the returning player is a stranger to the room: both seats are taken and
   * the room answers "Game is full".
   */
  method ReconnectOnNewSocket() returns (first: seq<Outbound>, second: seq<Outbound>, back: seq<Outbound>)
    ensures |first| == 2 && first[0].event.GameJoined? && first[0].event.player.color == White && !first[0].event.canStart
    ensures |second| == 2 && second[0].event.GameJoined? && second[0].event.player.color == Black && second[0].event.canStart
    ensures back == [Outbound(Sender, Error("Game is full"))]
  {
    var server := new Coordinator();
    var url := server.CreateGame("room", 0, "http", "host");
    first, second := SeatTwo(server, "room", "alice-1", "bob-1");
    var seats := server.games["room"].players;
    var moved := server.MakeMove("alice-1", "room", "e2e4", "after-e2e4", ["e4"]);
    assert server.games["room"].players == seats;
    back := LeaveThenReturn(server, "room", "alice-1", "alice-2", Some("Alice"));
  }

  /**
   * A seated player of a room with both seats taken disconnects and joins
   * again on a new socket: the new socket holds no seat, so it is turned away.
   */
  method LeaveThenReturn(server: Coordinator, room: string, leaving: string, returning: string, name: Option<string>)
    returns (back: seq<Outbound>)
    requires server.Valid() && room in server.games && |server.games[room].players| == 2
    requires leaving in {server.games[room].players[0].socketId, server.games[room].players[1].socketId}
    requires returning != server.games[room].players[0].socketId && returning != server.games[room].players[1].socketId
    modifies server
    ensures back == [Outbound(Sender, Error("Game is full"))]
    ensures server.Valid()
  {
    var before := server.games[room].players;
    var left := server.Disconnect(leaving);
    var seats := server.games[room].players;
    assert SeatsKept(before, seats) && WellSeated(seats) && WellSeated(before);
    assert seats[0].socketId == before[0].socketId && seats[1].socketId == before[1].socketId;
    assert FindBySocket(seats, returning).None?;
    back := server.JoinGame(returning, room, name);
  }

  /** Seats two sockets, in order, in an empty room. */
  method SeatTwo(server: Coordinator, room: string, white: string, black: string)
    returns (first: seq<Outbound>, second: seq<Outbound>)
    requires server.Valid() && room in server.games && server.games[room].players == []
    requires white != black
    modifies server
    ensures server.Valid() && room in server.games
    ensures server.games[room].players ==
      [Player(white, white, "Player 1", White, true), Player(black, black, "Player 2", Black, true)]
    ensures |first| == 2 && first[0].event.GameJoined? && first[0].event.player.color == White && !first[0].event.canStart
    ensures |second| == 2 && second[0].event.GameJoined? && second[0].event.player.color == Black && second[0].event.canStart
  {
    var one := [Player(white, white, "Player 1", White, true)];
    assert SeatColor(0) == White && SeatColor(1) == Black;
    assert Admit([], white, None) == Admitted(one, 0);
    first := server.JoinGame(white, room, None);
    assert server.games[room].players == one;
    assert FindBySocket(one, black) == None;
    assert Admit(one, black, None) == Admitted(one + [Player(black, black, "Player 2", Black, true)], 1);
    second := server.JoinGame(black, room, None);
  }
}
