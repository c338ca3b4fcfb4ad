/**
 * Properties of the server's transitions that span more than one call, and concrete games that show
 * how the code behaves where it departs from the usual rules of the game.
 */
module ServerScenarios {

  import opened Wrappers
  import opened BoardModel
  import opened ServerRules
  import opened ServerGame

  /** A game whose second seat has just been filled: empty board, X to move, nothing forced. */
  function Started(id: string, first: string, second: string, createdAt: string): (g: Game)
    ensures GameValid(g) && g.status == Playing
  {
    Game(id, [Player(first, X, first), Player(second, O, second)], EmptyBoard(), X, None, Playing, None, 0, 0, createdAt)
  }

  /** The board after X's first mark in cell 4 of sub-board 0. */
  function OpeningBoard(): (b: Board)
    ensures WellFormed(b) && CellsMarked(b)
  {
    Write(EmptyBoard(), 0, 4, X)
  }

  /** The opening mark decides nothing, leaves sub-board 4 open and hands the turn to O. */
  lemma OpeningBoardFacts()
    ensures var b := OpeningBoard();
            && AfterInner(b, 0) == b
            && CheckOuterWin(b).None?
            && TurnFor(b) == O
            && b[4][OutcomeSlot] == Empty && b[4][0] == Empty
  {
    var b := OpeningBoard();
    EmptyBoardFresh();
    assert InnerOutcome(b[0]).None? by {
      assert forall j :: 0 <= j < 9 && j != 4 ==> b[0][j] == Empty;
      NoLineWithTwoEntries(b[0], 4, 4, {Empty});
      assert !Full(b[0]) by { assert b[0][0] == Empty; }
    }
    assert CheckOuterWin(b).None? by {
      assert forall i :: 0 <= i < 9 ==> Slots(b)[i] == Empty;
      NoLineWithTwoEntries(Slots(b), 0, 0, {Empty, D});
      assert !AllDecided(b) by { assert b[1][OutcomeSlot] == Empty; }
    }
    assert TurnFor(b) == O by {
      CountAfterWrite(EmptyBoard(), 0, 4, X, X);
      CountAfterWrite(EmptyBoard(), 0, 4, X, O);
    }
  }

  /** X opens in cell 4 of sub-board 0: the move is taken, sub-board 4 is forced and O is to move. */
  lemma OpeningMove(id: string, first: string, second: string, createdAt: string)
    ensures Move(Started(id, first, second, createdAt), Some(X), 0, 4)
            == Success(Started(id, first, second, createdAt).(board := OpeningBoard(), currentPlayer := O, nextAllowedOuterCell := Some(4)))
  {
    var g0 := Started(id, first, second, createdAt);
    EmptyBoardFresh();
    assert g0.board[0][4] == Empty;
    OpeningBoardFacts();
    assert NextForced(OpeningBoard(), 4) == Some(4);
  }

  /**
   * After the opening move, O playing in sub-board 1 is refused with the forced sub-board named,
   * and O playing cell 0 of sub-board 4 is taken.
   */
  lemma ForcedBoardScenario(id: string, first: string, second: string, createdAt: string)
    ensures var g1 := Started(id, first, second, createdAt).(board := OpeningBoard(), currentPlayer := O, nextAllowedOuterCell := Some(4));
            && GameValid(g1)
            && Move(g1, Some(O), 1, 4) == Failure(WrongBoard(4))
            && Move(g1, Some(O), 4, 0).Success?
  {
    OpeningBoardFacts();
  }

  /** A sub-board won by X (cells 3, 4, 5) in which O holds cells 0 and 1; O to move, nothing forced. */
  function WonSubBoardGame(): (g: Game)
    ensures WellFormed(g.board)
  {
    Game("ROOM", [Player("a", X, "a"), Player("b", O, "b")],
         EmptyBoard()[0 := [O, O, Empty, X, X, X, Empty, Empty, Empty, X]],
         O, None, Playing, None, 0, 0, "")
  }

  /** The position above is a valid record whose turn field agrees with its marks. */
  lemma WonSubBoardGameValid()
    ensures GameValid(WonSubBoardGame()) && TurnConsistent(WonSubBoardGame())
  {
    var g := WonSubBoardGame();
    assert forall i :: 1 <= i < 9 ==> g.board[i] == EmptyRow();
    CountFirstRowOnly(g.board, X);
    CountFirstRowOnly(g.board, O);
    assert CountIn(g.board[0], X, 9) == 3;
    assert CountIn(g.board[0], O, 9) == 2;
  }

  /**
   * With no forced sub-board, a move into a sub-board that is already won is taken, and when it
   * completes a line that `checkInnerWin` tests first, the sub-board's recorded outcome changes
   * from X to O: an outcome, once decided, is not final in this code.
   */
  lemma DecidedOutcomeCanChange()
    ensures var g := WonSubBoardGame();
            && GameValid(g) && g.board[0][OutcomeSlot] == X
            && Move(g, Some(O), 0, 2).Success?
            && Move(g, Some(O), 0, 2).value.board[0][OutcomeSlot] == O
  {
    var g := WonSubBoardGame();
    WonSubBoardGameValid();
    assert Move(g, Some(O), 0, 2) == Success(Accept(g, 0, 2));
    AcceptWritesOneCell(g, 0, 2);
    var sub := g.board[0][2 := O];
    assert Aligned(sub, Lines[0], {Empty});
    assert InnerOutcome(sub) == Some(O);
  }

  /**
   * A win survives a departure and a new arrival: after a won game loses a seat and the seat is
   * filled again, the board still holds the winning outer line, so the first move that does not
   * touch a sub-board of that line finishes the game once more and adds a second win to the counters.
   */
  lemma WinSurvivesLeaveAndRejoin(g: Game, w: Leaver, userId: string, socketId: string,
                                  mover: Option<Mark>, outer: Index, inner: Index, n: nat)
    requires GameValid(g) && g.status == Finished
    requires n < |Lines| && Aligned(Slots(g.board), Lines[n], {Empty, D})
    requires outer != Lines[n].a && outer != Lines[n].b && outer != Lines[n].c
    requires AfterRemoval(g, w).Some? && Join(AfterRemoval(g, w).value, userId, socketId).Success?
    ensures var joined := Join(AfterRemoval(g, w).value, userId, socketId).value.game;
            && GameValid(joined)
            && (Move(joined, mover, outer, inner).Success? ==>
                  var after := Move(joined, mover, outer, inner).value;
                  && after.status == Finished && after.winner.Some? && after.winner.value in {X, O}
                  && after.xWins + after.oWins == g.xWins + g.oWins + 1)
  {
    var g1 := AfterRemoval(g, w).value;
    RemovalPreservesValid(g, w);
    var g2 := Join(g1, userId, socketId).value.game;
    JoinPreservesValid(g1, userId, socketId);
    assert g2.board == g.board && g2.xWins == g.xWins && g2.oWins == g.oWins;
    if Move(g2, mover, outer, inner).Success? {
      var after := Accept(g2, outer, inner);
      AcceptWritesOneCell(g2, outer, inner);
      AcceptFinishOrTurn(g2, outer, inner);
      var l := Lines[n];
      assert Slots(after.board)[l.a] == Slots(g.board)[l.a];
      assert Slots(after.board)[l.b] == Slots(g.board)[l.b];
      assert Slots(after.board)[l.c] == Slots(g.board)[l.c];
      assert Aligned(Slots(after.board), Lines[n], {Empty, D});
    }
  }
}
