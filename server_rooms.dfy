/**
 * The socket handlers of the server (server/server.js): the `games` table and the per-socket
 * fields the handlers keep (`socket.gameId`, `socket.symbol`).
 */
module ServerRooms {

  import opened Wrappers
  import opened BoardModel
  import opened ServerRules
  import opened ServerGame

  /** `socket.id.substring(0, 8)`: the user id given to a connection. */
  function UserIdOf(socketId: string): (u: string)
    ensures u <= socketId
    ensures |u| == if |socketId| < 8 then |socketId| else 8
  {
    if |socketId| < 8 then socketId else socketId[..8]
  }

  /** One connection and the fields the handlers store on it. */
  class Socket {
    const id: string
    const userId: string
    var gameId: Option<string>
    var symbol: Option<Mark>

    /** A fresh connection: a user id derived from the socket id, no game and no symbol. */
    constructor (id: string)
      ensures this.id == id && userId == UserIdOf(id)
      ensures gameId == None && symbol == None
    {
      this.id := id;
      userId := UserIdOf(id);
      gameId := None;
      symbol := None;
    }
  }

  /** The room a socket is bound to, when it names a game of the table (`games[socket.gameId]`). */
  function BoundGame(games: map<string, Game>, gameId: Option<string>): Option<string> {
    if gameId.Some? && gameId.value in games then gameId else None
  }

  /**
   * The room a leaving socket is bound to: leaveGame and disconnect test `gameId && games[gameId]`,
   * so an empty id counts as no game.
   */
  function LeavingGame(games: map<string, Game>, gameId: Option<string>): Option<string> {
    if gameId.Some? && gameId.value != "" && gameId.value in games then gameId else None
  }

  /**
   * The accepted branch of makeMove, step by step: write the mover's symbol, run `checkInnerWin`
   * (its result is not used), derive the next forced sub-board from the updated board, then
   * conclude the move.
   */
  method ApplyMove(game: Game, outerIndex: Index, innerIndex: Index) returns (g: Game)
    requires GameValid(game) && game.status == Playing
    ensures g == Accept(game, outerIndex, innerIndex)
  {
    var board := Write(game.board, outerIndex, innerIndex, game.currentPlayer);
    var innerWin;
    board, innerWin := CheckInnerWin(board, outerIndex);
    var next: Option<nat> := Some(innerIndex);
    if board[innerIndex][OutcomeSlot] != Empty {
      next := None;
    }
    g := ConcludeMove(game.(board := board, nextAllowedOuterCell := next));
  }

  /** `checkOuterWin` on the updated board: finish and count the win, or recompute the turn. */
  method ConcludeMove(game: Game) returns (g: Game)
    requires WellFormed(game.board)
    ensures g == Conclude(game)
  {
    g := game;
    var overall := CheckOuterWin(g.board);
    if overall.Some? {
      g := g.(status := Finished, winner := overall);
      if overall == Some(X) {
        g := g.(xWins := g.xWins + 1);
      } else if overall == Some(O) {
        g := g.(oWins := g.oWins + 1);
      }
    } else {
      var turn := PlayerTurn(g.board);
      g := g.(currentPlayer := turn);
    }
  }

  /** The `games` table: room id to game record. */
  class GameServer {
    var games: map<string, Game>

    ghost predicate Valid()
      reads this
    {
      forall id :: id in games ==> GameValid(games[id]) && games[id].id == id
    }

    constructor ()
      ensures Valid() && games == map[]
    {
      games := map[];
    }

    /**
     * createGame: a fresh record under `gameId` (generated by the caller; an existing record with
     * that id is replaced), the creator seated as X, and the socket bound to it as X.
     */
    method CreateGame(sock: Socket, gameId: string, createdAt: string) returns (g: Game)
      requires Valid()
      modifies this, sock
      ensures Valid()
      ensures games == old(games)[gameId := g]
      ensures g.id == gameId && g.players == [Player(sock.userId, X, sock.id)]
      ensures g.board == EmptyBoard() && g.currentPlayer == X && g.nextAllowedOuterCell == None
      ensures g.status == Waiting && g.winner == None && g.xWins == 0 && g.oWins == 0 && g.createdAt == createdAt
      ensures sock.gameId == Some(gameId) && sock.symbol == Some(X)
    {
      g := Game(gameId, [Player(sock.userId, X, sock.id)], EmptyBoard(), X, None, Waiting, None, 0, 0, createdAt);
      games := games[gameId := g];
      sock.gameId := Some(gameId);
      sock.symbol := Some(X);
    }

    /**
     * joinGame: an unknown id or a refused join changes nothing; otherwise the record becomes the
     * one `Join` gives and the socket is bound to the room with the returned symbol.
     */
    method JoinGame(sock: Socket, gameId: string) returns (r: Result<Joined, GameError>)
      requires Valid()
      modifies this, sock
      ensures Valid()
      ensures gameId !in old(games) ==> r == Failure(GameNotFound)
      ensures gameId in old(games) ==> r == Join(old(games)[gameId], sock.userId, sock.id)
      ensures r.Success? ==> games == old(games)[gameId := r.value.game]
                             && sock.gameId == Some(gameId) && sock.symbol == Some(r.value.symbol)
      ensures r.Failure? ==> games == old(games) && unchanged(sock)
    {
      if gameId !in games {
        return Failure(GameNotFound);
      }
      JoinPreservesValid(games[gameId], sock.userId, sock.id);
      r := Join(games[gameId], sock.userId, sock.id);
      if r.Success? {
        games := games[gameId := r.value.game];
        sock.gameId := Some(gameId);
        sock.symbol := Some(r.value.symbol);
      }
    }

    /**
     * makeMove on the room the socket is bound to, with the socket's symbol. The checks run in the
     * source's order; an accepted move is written step by step and stored; any refusal leaves the
     * table as it was.
     */
    method MakeMove(sock: Socket, outerIndex: Index, innerIndex: Index) returns (r: Result<Game, GameError>)
      requires Valid()
      modifies this
      ensures Valid()
      ensures BoundGame(old(games), sock.gameId).None? ==> r == Failure(InvalidSession)
      ensures BoundGame(old(games), sock.gameId).Some? ==>
                r == Move(old(games)[sock.gameId.value], sock.symbol, outerIndex, innerIndex)
      ensures r.Success? ==> games == old(games)[sock.gameId.value := r.value]
      ensures r.Failure? ==> games == old(games)
      ensures r.Success? && TurnConsistent(old(games)[sock.gameId.value]) ==>
                && Balanced(r.value.board)
                && (r.value.status == Playing ==>
                      TurnConsistent(r.value) && r.value.currentPlayer == Opponent(old(games)[sock.gameId.value].currentPlayer))
    {
      if BoundGame(games, sock.gameId).None? {
        return Failure(InvalidSession);
      }
      var gameId := sock.gameId.value;
      var game := games[gameId];
      if game.status != Playing {
        return Failure(NotActive);
      }
      if sock.symbol != Some(game.currentPlayer) {
        return Failure(NotYourTurn(game.currentPlayer));
      }
      if game.nextAllowedOuterCell.Some? && game.nextAllowedOuterCell.value != outerIndex
         && game.board[game.nextAllowedOuterCell.value][OutcomeSlot] == Empty {
        return Failure(WrongBoard(game.nextAllowedOuterCell.value));
      }
      if game.board[outerIndex][innerIndex] != Empty {
        return Failure(CellTaken);
      }
      game := ApplyMove(game, outerIndex, innerIndex);
      AcceptPreservesValid(games[gameId], outerIndex, innerIndex);
      if TurnConsistent(games[gameId]) {
        MoveAlternatesTurn(games[gameId], sock.symbol, outerIndex, innerIndex);
      }
      games := games[gameId := game];
      r := Success(game);
    }

    /**
     * resetGame on the room the socket is bound to: all 90 entries cleared, X to move, no forced
     * sub-board and no winner; playing when two seats are filled, else waiting. Seats, id,
     * counters and creation time are kept.
     */
    method ResetGame(sock: Socket) returns (r: Result<Game, GameError>)
      requires Valid()
      modifies this
      ensures Valid()
      ensures BoundGame(old(games), sock.gameId).None? <==> r == Failure(InvalidResetSession)
      ensures r.Failure? ==> games == old(games)
      ensures r.Success? ==>
                var g := old(games)[sock.gameId.value];
                && games == old(games)[sock.gameId.value := r.value]
                && r.value.board == EmptyBoard() && r.value.currentPlayer == X
                && r.value.nextAllowedOuterCell == None && r.value.winner == None
                && r.value.status == (if |g.players| == 2 then Playing else Waiting)
                && r.value.(board := g.board, currentPlayer := g.currentPlayer, nextAllowedOuterCell := g.nextAllowedOuterCell,
                            status := g.status, winner := g.winner) == g
      ensures r.Success? ==> TurnConsistent(r.value) && Count(r.value.board, X) == 0 && Count(r.value.board, O) == 0
    {
      if BoundGame(games, sock.gameId).None? {
        return Failure(InvalidResetSession);
      }
      var gameId := sock.gameId.value;
      var game := games[gameId];
      game := game.(board := EmptyBoard());
      game := game.(currentPlayer := X);
      game := game.(nextAllowedOuterCell := None);
      game := game.(status := if |game.players| == 2 then Playing else Waiting);
      game := game.(winner := None);
      EmptyBoardFresh();
      games := games[gameId := game];
      r := Success(game);
    }

    /**
     * leaveGame: the seats of the socket's user are removed; the record is deleted when none remain
     * (reply `None`), else it waits again (reply the record broadcast to the room). The socket is
     * unbound. A socket bound to no game gets 'Not currently in a game.' and nothing changes.
     */
    method LeaveGame(sock: Socket) returns (r: Result<Option<Game>, GameError>)
      requires Valid()
      modifies this, sock
      ensures Valid()
      ensures LeavingGame(old(games), old(sock.gameId)).None? ==>
                r == Failure(NotInGame) && games == old(games) && unchanged(sock)
      ensures LeavingGame(old(games), old(sock.gameId)).Some? ==>
                var id := old(sock.gameId).value;
                && r == Success(AfterRemoval(old(games)[id], User(sock.userId)))
                && games == (if r.value.None? then old(games) - {id} else old(games)[id := r.value.value])
                && sock.gameId == None && sock.symbol == None
    {
      if LeavingGame(games, sock.gameId).None? {
        return Failure(NotInGame);
      }
      var gameId := sock.gameId.value;
      RemovalPreservesValid(games[gameId], User(sock.userId));
      var rest := AfterRemoval(games[gameId], User(sock.userId));
      if rest.None? {
        games := games - {gameId};
      } else {
        games := games[gameId := rest.value];
      }
      sock.gameId := None;
      sock.symbol := None;
      r := Success(rest);
    }

    /**
     * disconnect: like leaveGame, but the seats removed are those of this socket id, the socket
     * keeps its fields, and there is no error reply. The result is the record broadcast to the
     * room, if the room is still there.
     */
    method Disconnect(sock: Socket) returns (r: Option<Game>)
      requires Valid()
      modifies this
      ensures Valid()
      ensures LeavingGame(old(games), sock.gameId).None? ==> r == None && games == old(games)
      ensures LeavingGame(old(games), sock.gameId).Some? ==>
                var id := sock.gameId.value;
                && r == AfterRemoval(old(games)[id], Connection(sock.id))
                && games == (if r.None? then old(games) - {id} else old(games)[id := r.value])
    {
      if LeavingGame(games, sock.gameId).None? {
        return None;
      }
      var gameId := sock.gameId.value;
      RemovalPreservesValid(games[gameId], Connection(sock.id));
      r := AfterRemoval(games[gameId], Connection(sock.id));
      if r.None? {
        games := games - {gameId};
      } else {
        games := games[gameId := r.value];
      }
    }
  }
}
