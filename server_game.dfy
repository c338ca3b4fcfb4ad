/**
 * A game record of the server (server/server.js) and the pure transitions its socket handlers
 * apply to it: a move, a join, the removal of a participant.
 */
module ServerGame {

  import opened Wrappers
  import opened BoardModel
  import opened ServerRules

  datatype Status = Waiting | Playing | Finished

  /** A seat: the user's id, the symbol assigned to it and the socket it last came from. */
  datatype Player = Player(id: string, symbol: Mark, socketId: string)

  /** One entry of the `games` table. */
  datatype Game = Game(
    id: string,
    players: seq<Player>,
    board: Board,
    currentPlayer: Mark,
    nextAllowedOuterCell: Option<nat>,
    status: Status,
    winner: Option<Cell>,
    xWins: nat,
    oWins: nat,
    createdAt: string)

  /** The reasons sent to a single socket with 'gameError', and the 'Not currently in a game.' reply. */
  datatype GameError =
    | GameNotFound           // 'Game not found.'
    | AlreadyFull            // 'Game is already full.'
    | FullOrInvalid          // 'Game is full or invalid.'
    | InvalidSession         // 'Invalid game session.'
    | NotActive              // 'Game is not active.'
    | NotYourTurn(turn: Mark)  // "It's <turn>'s turn."
    | WrongBoard(forced: nat)  // 'You must play in the highlighted big square (<forced>).'
    | CellTaken              // 'This cell is already taken!'
    | InvalidResetSession    // 'Invalid game session for reset.'
    | NotInGame              // 'Not currently in a game.'

  /** The forced sub-board, when there is one, is a sub-board whose outcome is still ''. */
  predicate ForcedBoardOpen(g: Game)
    requires WellFormed(g.board)
  {
    g.nextAllowedOuterCell.Some? ==> g.nextAllowedOuterCell.value < 9 && g.board[g.nextAllowedOuterCell.value][OutcomeSlot] == Empty
  }

  /** What every reachable game record satisfies. */
  predicate GameValid(g: Game) {
    && WellFormed(g.board)
    && CellsMarked(g.board)
    && ForcedBoardOpen(g)
    && 1 <= |g.players| <= 2
    && (|g.players| == 2 ==> g.players[0].symbol != g.players[1].symbol)
    && (g.status != Waiting ==> |g.players| == 2)
    && (g.winner.Some? <==> g.status == Finished)
    && g.winner != Some(Empty)
  }

  /** The turn field agrees with the marks on the board, and the marks alternate. */
  predicate TurnConsistent(g: Game)
    requires WellFormed(g.board)
  {
    Balanced(g.board) && g.currentPlayer == TurnFor(g.board)
  }

  // ---------------------------------------------------------------------------------------------
  // makeMove

  /** The forced-board test of makeMove: a forced sub-board other than `outer` that is still undecided. */
  predicate ViolatesForcedBoard(g: Game, outer: Index)
    requires WellFormed(g.board) && (g.nextAllowedOuterCell.Some? ==> g.nextAllowedOuterCell.value < 9)
  {
    g.nextAllowedOuterCell.Some? && g.nextAllowedOuterCell.value != outer
    && g.board[g.nextAllowedOuterCell.value][OutcomeSlot] == Empty
  }

  /**
   * The makeMove handler once the game is found: the four rejections, first failing test wins;
   * an accepted move is `Accept`. `mover` is the symbol stored on the socket.
   */
  function Move(g: Game, mover: Option<Mark>, outer: Index, inner: Index): (r: Result<Game, GameError>)
    requires GameValid(g)
    ensures r == Failure(NotActive) <==> g.status != Playing
    ensures r == Failure(NotYourTurn(g.currentPlayer)) <==> g.status == Playing && mover != Some(g.currentPlayer)
    ensures r.Failure? && r.error.WrongBoard? <==>
              g.status == Playing && mover == Some(g.currentPlayer) && ViolatesForcedBoard(g, outer)
    ensures r.Failure? && r.error.WrongBoard? ==> r.error.forced == g.nextAllowedOuterCell.value
    ensures r == Failure(CellTaken) <==>
              g.status == Playing && mover == Some(g.currentPlayer) && !ViolatesForcedBoard(g, outer)
              && g.board[outer][inner] != Empty
    ensures r.Success? <==> g.status == Playing && mover == Some(g.currentPlayer)
                            && !ViolatesForcedBoard(g, outer) && g.board[outer][inner] == Empty
  {
    if g.status != Playing then Failure(NotActive)
    else if mover != Some(g.currentPlayer) then Failure(NotYourTurn(g.currentPlayer))
    else if ViolatesForcedBoard(g, outer) then Failure(WrongBoard(g.nextAllowedOuterCell.value))
    else if g.board[outer][inner] != Empty then Failure(CellTaken)
    else Success(Accept(g, outer, inner))
  }

  /**
   * An accepted move: write the symbol on turn, check the sub-board, derive the next forced
   * sub-board, check the whole game; then finish it and count the win, or recompute the turn.
   */
  function Accept(g: Game, outer: Index, inner: Index): (r: Game)
    requires GameValid(g)
  {
    var board := AfterInner(Write(g.board, outer, inner, g.currentPlayer), outer);
    Conclude(g.(board := board, nextAllowedOuterCell := NextForced(board, inner)))
  }

  /** The end of an accepted move: finish the game and count the win, or recompute the turn. */
  function Conclude(g: Game): Game
    requires WellFormed(g.board)
  {
    var overall := CheckOuterWin(g.board);
    if overall.Some? then
      g.(status := Finished, winner := overall,
         xWins := if overall == Some(X) then g.xWins + 1 else g.xWins,
         oWins := if overall == Some(O) then g.oWins + 1 else g.oWins)
    else
      g.(currentPlayer := TurnFor(g.board))
  }

  /** An accepted move changes exactly one cell 0..8, the empty one it names, to the symbol on turn. */
  lemma AcceptWritesOneCell(g: Game, outer: Index, inner: Index)
    requires GameValid(g) && g.board[outer][inner] == Empty
    ensures var r := Accept(g, outer, inner);
            && WellFormed(r.board) && r.board[outer][inner] == g.currentPlayer
            && (forall i, j :: 0 <= i < 9 && 0 <= j < 9 && (i, j) != (outer, inner) ==> r.board[i][j] == g.board[i][j])
            && (forall i :: 0 <= i < 9 && i != outer ==> r.board[i][OutcomeSlot] == g.board[i][OutcomeSlot])
            && var sub := g.board[outer][inner := g.currentPlayer];
               r.board[outer][OutcomeSlot] == (if InnerOutcome(sub).Some? then InnerOutcome(sub).value else sub[OutcomeSlot])
  {
    var written := Write(g.board, outer, inner, g.currentPlayer);
    assert written[outer] == g.board[outer][inner := g.currentPlayer];
  }

  /** After an accepted move the next forced sub-board is the inner cell just played, unless that one is decided. */
  lemma AcceptForcesNextBoard(g: Game, outer: Index, inner: Index)
    requires GameValid(g)
    ensures var r := Accept(g, outer, inner);
            && r.nextAllowedOuterCell == (if r.board[inner][OutcomeSlot] == Empty then Some(inner as nat) else None)
            && ForcedBoardOpen(r)
  {
  }

  /**
   * An accepted move finishes the game exactly when `CheckOuterWin` reports an outcome; it records
   * that outcome as the winner and adds one to the winner's counter ('D' adds to neither).
   * Otherwise the turn is recomputed from the marks.
   */
  lemma AcceptFinishOrTurn(g: Game, outer: Index, inner: Index)
    requires GameValid(g) && g.status == Playing
    ensures var r := Accept(g, outer, inner);
            && r.winner == CheckOuterWin(r.board)
            && (r.status == Finished <==> CheckOuterWin(r.board).Some?)
            && (r.status != Finished ==> r.status == Playing && r.currentPlayer == TurnFor(r.board))
            && (r.status == Finished ==> r.currentPlayer == g.currentPlayer)
            && r.xWins == g.xWins + (if r.winner == Some(X) then 1 else 0)
            && r.oWins == g.oWins + (if r.winner == Some(O) then 1 else 0)
            && r.id == g.id && r.players == g.players && r.createdAt == g.createdAt
  {
  }

  /** An accepted move keeps the game record valid. */
  lemma AcceptPreservesValid(g: Game, outer: Index, inner: Index)
    requires GameValid(g) && g.status == Playing && g.board[outer][inner] == Empty
    ensures GameValid(Accept(g, outer, inner))
  {
    AcceptWritesOneCell(g, outer, inner);
    var r := Accept(g, outer, inner);
    assert forall i, j :: 0 <= i < 9 && 0 <= j < 9 ==> r.board[i][j] != D by {
      forall i, j | 0 <= i < 9 && 0 <= j < 9 ensures r.board[i][j] != D {
        if (i, j) != (outer, inner) {
          assert r.board[i][j] == g.board[i][j];
        }
      }
    }
  }

  /**
   * Turns alternate: from a game whose turn field agrees with its marks, an accepted move keeps the
   * marks balanced, and unless it finished the game, hands the turn to the opponent.
   */
  lemma MoveAlternatesTurn(g: Game, mover: Option<Mark>, outer: Index, inner: Index)
    requires GameValid(g) && TurnConsistent(g) && Move(g, mover, outer, inner).Success?
    ensures Balanced(Move(g, mover, outer, inner).value.board)
    ensures Move(g, mover, outer, inner).value.status == Playing ==>
              TurnConsistent(Move(g, mover, outer, inner).value)
              && Move(g, mover, outer, inner).value.currentPlayer == Opponent(g.currentPlayer)
  {
    AcceptFinishOrTurn(g, outer, inner);
    var written := Write(g.board, outer, inner, g.currentPlayer);
    TurnAlternates(g.board, outer, inner);
    CountIgnoresOutcomes(AfterInner(written, outer), written);
  }

  /** A move by the symbol that is not on turn is refused and changes nothing. */
  lemma OffTurnMoveRejected(g: Game, outer: Index, inner: Index)
    requires GameValid(g) && g.status == Playing
    ensures Move(g, Some(Opponent(g.currentPlayer)), outer, inner) == Failure(NotYourTurn(g.currentPlayer))
  {
  }

  // ---------------------------------------------------------------------------------------------
  // joinGame

  /** `players.find(p => p.id === userId)`, as the index of the first matching seat. */
  function FindPlayer(ps: seq<Player>, userId: string, k: nat): (r: Option<nat>)
    requires k <= |ps|
    ensures r.Some? ==> k <= r.value < |ps| && ps[r.value].id == userId
                        && forall j :: k <= j < r.value ==> ps[j].id != userId
    ensures r.None? <==> forall j :: k <= j < |ps| ==> ps[j].id != userId
    decreases |ps| - k
  {
    if k == |ps| then None
    else if ps[k].id == userId then Some(k)
    else FindPlayer(ps, userId, k + 1)
  }

  /** The game a joining socket sees, and the symbol it is given. */
  datatype Joined = Joined(game: Game, symbol: Mark)

  /**
   * joinGame once the game is found: a full game the user is not in is refused; a user already
   * seated rejoins with their symbol and only the socket id of that seat changes; a second user
   * takes the symbol opposite to the first seat's and the game starts.
   */
  function Join(g: Game, userId: string, socketId: string): (r: Result<Joined, GameError>)
    ensures r == Failure(AlreadyFull) <==> |g.players| == 2 && FindPlayer(g.players, userId, 0).None?
    ensures r == Failure(FullOrInvalid) <==> |g.players| != 1 && |g.players| != 2 && FindPlayer(g.players, userId, 0).None?
    // rejoin
    ensures FindPlayer(g.players, userId, 0).Some? ==>
              var k := FindPlayer(g.players, userId, 0).value;
              && r.Success? && r.value.symbol == g.players[k].symbol
              && |r.value.game.players| == |g.players|
              && r.value.game.players[k] == g.players[k].(socketId := socketId)
              && (forall j :: 0 <= j < |g.players| && j != k ==> r.value.game.players[j] == g.players[j])
              && r.value.game.(players := g.players) == g
    // second player
    ensures |g.players| == 1 && FindPlayer(g.players, userId, 0).None? ==>
              && r.Success? && r.value.symbol == Opponent(g.players[0].symbol)
              && r.value.game.players == g.players + [Player(userId, r.value.symbol, socketId)]
              && r.value.game.status == Playing
              && r.value.game.(players := g.players, status := g.status) == g
  {
    var found := FindPlayer(g.players, userId, 0);
    if |g.players| == 2 && found.None? then Failure(AlreadyFull)
    else if found.Some? then
      var k := found.value;
      Success(Joined(g.(players := g.players[k := g.players[k].(socketId := socketId)]), g.players[k].symbol))
    else if |g.players| == 1 then
      var symbol := if g.players[0].symbol == X then O else X;
      Success(Joined(g.(players := g.players + [Player(userId, symbol, socketId)], status := Playing), symbol))
    else Failure(FullOrInvalid)
  }

  /** A join that succeeds keeps the game record valid. */
  lemma JoinPreservesValid(g: Game, userId: string, socketId: string)
    requires GameValid(g)
    ensures Join(g, userId, socketId).Success? ==> GameValid(Join(g, userId, socketId).value.game)
    ensures Join(g, userId, socketId).Success? ==>
              Join(g, userId, socketId).value.game.board == g.board
              && Join(g, userId, socketId).value.game.currentPlayer == g.currentPlayer
  {
    var found := FindPlayer(g.players, userId, 0);
    if found.None? && |g.players| == 1 {
      assert g.status == Waiting;
    }
  }

  // ---------------------------------------------------------------------------------------------
  // leaveGame and disconnect

  /** Who is leaving: a user (leaveGame matches `p.id`) or a socket (disconnect matches `p.socketId`). */
  datatype Leaver = User(userId: string) | Connection(socketId: string)

  predicate Matches(p: Player, w: Leaver) {
    match w
    case User(u) => p.id == u
    case Connection(s) => p.socketId == s
  }

  /** `players.filter(...)`: the seats that do not match the leaver, in their order. */
  function Remaining(ps: seq<Player>, w: Leaver): (r: seq<Player>)
    ensures |r| <= |ps|
    ensures forall p :: p in r <==> p in ps && !Matches(p, w)
    ensures (forall j :: 0 <= j < |ps| ==> !Matches(ps[j], w)) ==> r == ps
  {
    if ps == [] then []
    else if Matches(ps[0], w) then Remaining(ps[1..], w)
    else [ps[0]] + Remaining(ps[1..], w)
  }

  /**
   * The record after a participant leaves or disconnects: gone when no seat remains; otherwise
   * back to waiting with no winner, board, turn, forced sub-board and counters kept.
   */
  function AfterRemoval(g: Game, w: Leaver): (r: Option<Game>)
    ensures r.None? <==> forall p :: p in g.players ==> Matches(p, w)
    ensures r.Some? ==> r.value.players == Remaining(g.players, w) && |r.value.players| >= 1
    ensures r.Some? ==> r.value.status == Waiting && r.value.winner == None
    ensures r.Some? ==> r.value.(players := g.players, status := g.status, winner := g.winner) == g
  {
    var ps := Remaining(g.players, w);
    assert |ps| > 0 ==> ps[0] in ps;
    if |ps| == 0 then None
    else Some(g.(players := ps, status := Waiting, winner := None))
  }

  /** A filter of two seats that keeps two seats returns them as they were. */
  lemma {:induction false} RemainingKeepsBoth(ps: seq<Player>, w: Leaver)
    requires |ps| <= 2
    ensures var r := Remaining(ps, w); |r| == 2 ==> r == ps
  {
    if ps != [] && !Matches(ps[0], w) {
      RemainingKeepsBoth(ps[1..], w);
    }
  }

  lemma RemovalPreservesValid(g: Game, w: Leaver)
    requires GameValid(g)
    ensures AfterRemoval(g, w).Some? ==> GameValid(AfterRemoval(g, w).value)
  {
    RemainingKeepsBoth(g.players, w);
  }
}
