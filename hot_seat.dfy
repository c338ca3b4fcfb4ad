/**
 * The local hot-seat page (script.js): the older copy of the rules, one shared board, and the
 * `nextCell` restriction, updated by the inner-cell click handler and the reset button.
 */
module HotSeat {

  import opened Wrappers
  import opened BoardModel

  /** The page's `checkInnerWin` result for a sub-board: the value of its first aligned line; there is no draw. */
  function LocalInnerOutcome(sub: seq<Cell>): (r: Option<Cell>)
    requires |sub| == 10
    ensures r.Some? <==> HasLine(sub, {Empty})
    ensures r.Some? ==> exists n :: 0 <= n < |Lines| && Aligned(sub, Lines[n], {Empty}) && sub[Lines[n].a] == r.value
                                    && forall n' :: 0 <= n' < n ==> !Aligned(sub, Lines[n'], {Empty})
    ensures (forall j :: 0 <= j < 9 ==> sub[j] != D) ==> r != Some(D)
  {
    FirstAligned(sub, {Empty}, 0)
  }

  /** The board after the page's `checkInnerWin(board, outer)`. */
  function AfterLocalInner(b: Board, outer: Index): (r: Board)
    requires WellFormed(b)
    ensures WellFormed(r)
    ensures LocalInnerOutcome(b[outer]).Some? ==> r[outer][OutcomeSlot] == LocalInnerOutcome(b[outer]).value
    ensures LocalInnerOutcome(b[outer]).None? ==> r == b
    ensures forall i, j :: 0 <= i < 9 && 0 <= j < 10 && (i, j) != (outer, OutcomeSlot) ==> r[i][j] == b[i][j]
  {
    match LocalInnerOutcome(b[outer])
    case Some(w) => Write(b, outer, OutcomeSlot, w)
    case None => b
  }

  /**
   * The page's `checkInnerWin`: on the first aligned line of sub-board `outer`, store its symbol in
   * slot 9 and return it; otherwise return null and leave the board alone.
   */
  method CheckInnerWin(b: Board, outer: Index) returns (b': Board, r: Option<Cell>)
    requires WellFormed(b)
    ensures r == LocalInnerOutcome(b[outer]) && b' == AfterLocalInner(b, outer)
    ensures r.Some? ==> b'[outer][OutcomeSlot] == r.value
    ensures r.None? ==> b' == b
  {
    var sub := b[outer];
    for k := 0 to |Lines|
      invariant FirstAligned(sub, {Empty}, 0) == FirstAligned(sub, {Empty}, k)
    {
      var l := Lines[k];
      if sub[l.a] != Empty && sub[l.a] == sub[l.b] && sub[l.a] == sub[l.c] {
        b' := Write(b, outer, OutcomeSlot, sub[l.a]);
        r := Some(sub[l.a]);
        return;
      }
    }
    b', r := b, None;
  }

  /**
   * The page's `checkOuterWin`: the slot value of the first outer line of three equal non-empty
   * slots ('D' is not filtered out); there is no draw result. It only reads the board.
   */
  function CheckOuterWin(b: Board): (r: Option<Cell>)
    requires WellFormed(b)
    ensures r.Some? <==> HasLine(Slots(b), {Empty})
    ensures r.Some? ==> r.value != Empty
    ensures r.Some? ==> exists n :: 0 <= n < |Lines| && Aligned(Slots(b), Lines[n], {Empty}) && b[Lines[n].a][OutcomeSlot] == r.value
                                    && forall n' :: 0 <= n' < n ==> !Aligned(Slots(b), Lines[n'], {Empty})
    ensures (forall i :: 0 <= i < 9 ==> b[i][OutcomeSlot] != D) ==> r != Some(D)
  {
    FirstAligned(Slots(b), {Empty}, 0)
  }

  /**
   * The test `cell.textContent === ''` of the click handler, on the board: the cell holds no mark,
   * its sub-board has not been won (a won sub-board has all its cells stamped with the winner) and
   * the game has not been won (then every cell is stamped).
   */
  predicate Open(b: Board, outer: Index, inner: Index)
    requires WellFormed(b)
  {
    b[outer][inner] == Empty && b[outer][OutcomeSlot] == Empty && CheckOuterWin(b).None?
  }

  /** A click is taken when the cell is open and no sub-board is forced or the forced one is clicked. */
  predicate Accepts(b: Board, nextCell: Option<nat>, outer: Index, inner: Index)
    requires WellFormed(b)
  {
    Open(b, outer, inner) && (nextCell.None? || nextCell == Some(outer as nat))
  }

  /** The board after a taken click: the derived turn symbol written, then the inner-win check. */
  function ClickBoard(b: Board, outer: Index, inner: Index): (r: Board)
    requires WellFormed(b)
    ensures WellFormed(r)
  {
    AfterLocalInner(Write(b, outer, inner, TurnFor(b)), outer)
  }

  /** No entry of the board is 'D': the page never detects a draw. */
  predicate NoDraws(b: Board)
    requires WellFormed(b)
  {
    forall i, j :: 0 <= i < 9 && 0 <= j < 10 ==> b[i][j] != D
  }

  /** A taken click (either variant) keeps the marks balanced, hands the turn over and writes no 'D'. */
  lemma ClickKeepsInvariant(b: Board, outer: Index, inner: Index)
    requires WellFormed(b) && Balanced(b) && NoDraws(b) && b[outer][inner] == Empty
    ensures WellFormed(ClickBoard(b, outer, inner)) && Balanced(ClickBoard(b, outer, inner))
    ensures NoDraws(ClickBoard(b, outer, inner))
    ensures ClickBoard(b, outer, inner)[outer][inner] == TurnFor(b)
    ensures TurnFor(ClickBoard(b, outer, inner)) == Opponent(TurnFor(b))
  {
    var written := Write(b, outer, inner, TurnFor(b));
    TurnAlternates(b, outer, inner);
    CountIgnoresOutcomes(AfterLocalInner(written, outer), written);
    assert NoDraws(written);
    var sub := written[outer];
    if LocalInnerOutcome(sub).Some? {
      var n :| 0 <= n < |Lines| && Aligned(sub, Lines[n], {Empty}) && sub[Lines[n].a] == LocalInnerOutcome(sub).value;
      assert LocalInnerOutcome(sub).value != D;
    }
  }

  // -----------------------------------------------------------------------------------------------
  // The stale `nextCell`

  /**
   * The page's state after `clicks`, given as (sub-board, cell) pairs, each click taken as
   * `Page.Click` takes it; None as soon as a click is not taken.
   */
  function Replay(b: Board, nextCell: Option<nat>, clicks: seq<(Index, Index)>): (r: Option<(Board, Option<nat>)>)
    requires WellFormed(b)
    ensures r.Some? ==> WellFormed(r.value.0)
    decreases |clicks|
  {
    if clicks == [] then Some((b, nextCell))
    else if !Accepts(b, nextCell, clicks[0].0, clicks[0].1) then None
    else Replay(ClickBoard(b, clicks[0].0, clicks[0].1), NextForced(b, clicks[0].1), clicks[1..])
  }

  /** A game from page load: X, O, X, O, X, O, X, each click in the sub-board the previous one forced. */
  const StrandingGame: seq<(Index, Index)> := [(1, 1), (1, 4), (4, 0), (0, 4), (4, 8), (8, 4), (4, 4)]

  /** The symbol of click `k`: X first, then alternating. */
  function MarkOf(k: nat): Mark {
    if k == 0 then X else Opponent(MarkOf(k - 1))
  }

  /** The board holding the marks of the first `k` clicks of `StrandingGame`, and no outcome. */
  function MarksAfter(k: nat): (b: Board)
    requires k <= |StrandingGame|
    ensures WellFormed(b)
  {
    if k == 0 then EmptyBoard()
    else Write(MarksAfter(k - 1), StrandingGame[k - 1].0, StrandingGame[k - 1].1, MarkOf(k - 1))
  }

  /** `nextCell` before click `k` of the game. */
  function ForcedBefore(k: nat): (r: Option<nat>)
    requires k <= |StrandingGame|
  {
    if k == 0 then None else Some(StrandingGame[k - 1].1 as nat)
  }

  /** The board after the whole game: the last click also wins sub-board 4 on the 0-4-8 diagonal. */
  function StrandedBoard(): (b: Board)
    ensures WellFormed(b)
  {
    Write(MarksAfter(|StrandingGame|), 4, OutcomeSlot, X)
  }

  /** No cell is clicked twice. */
  lemma GameClicksDistinct()
    ensures forall m, m' :: 0 <= m < m' < |StrandingGame| ==> StrandingGame[m] != StrandingGame[m']
  {
  }

  /** A cell no click of the first `k` names is still empty. */
  lemma {:induction false} MarkUntouched(k: nat, s: Index, j: Index)
    requires k <= |StrandingGame|
    requires forall m :: 0 <= m < k ==> StrandingGame[m] != (s, j)
    ensures MarksAfter(k)[s][j] == Empty
  {
    if k > 0 {
      MarkUntouched(k - 1, s, j);
    }
  }

  /** The cell named by click `m` holds that click's symbol once the click is made. */
  lemma {:induction false} MarkPlaced(k: nat, m: nat)
    requires m < k <= |StrandingGame|
    requires forall m' :: m < m' < k ==> StrandingGame[m'] != StrandingGame[m]
    ensures MarksAfter(k)[StrandingGame[m].0][StrandingGame[m].1] == MarkOf(m)
  {
    if m < k - 1 {
      MarkPlaced(k - 1, m);
    }
  }

  /** Along the game no 'D' appears and no slot is set. */
  lemma {:induction false} MarksAfterPlain(k: nat)
    requires k <= |StrandingGame|
    ensures NoDraws(MarksAfter(k))
    ensures forall s :: 0 <= s < 9 ==> MarksAfter(k)[s][OutcomeSlot] == Empty
  {
    if k > 0 {
      MarksAfterPlain(k - 1);
    }
  }

  /** Along the game the marks stay balanced and the turn is that of the next click. */
  lemma {:induction false} MarksAfterFacts(k: nat)
    requires k <= |StrandingGame|
    ensures Balanced(MarksAfter(k)) && TurnFor(MarksAfter(k)) == MarkOf(k)
  {
    if k == 0 {
      EmptyBoardFresh();
    } else {
      MarksAfterFacts(k - 1);
      var prev, c := MarksAfter(k - 1), StrandingGame[k - 1];
      assert prev[c.0][c.1] == Empty by {
        GameClicksDistinct();
        MarkUntouched(k - 1, c.0, c.1);
      }
      assert MarksAfter(k) == Write(prev, c.0, c.1, TurnFor(prev));
      TurnAlternates(prev, c.0, c.1);
    }
  }

  /** Before the last click, every sub-board holds at most two marks, at cells `FirstMarked(s)` and `SecondMarked(s)`. */
  function FirstMarked(s: Index): Index {
    if s == 1 then 1 else if s == 4 then 0 else if s == 0 || s == 8 then 4 else 0
  }

  function SecondMarked(s: Index): Index {
    if s == 1 then 4 else if s == 4 then 8 else if s == 0 || s == 8 then 4 else 0
  }

  lemma SparseBeforeLastClick(k: nat, s: Index)
    requires k < |StrandingGame|
    ensures !HasLine(MarksAfter(k)[s], {Empty})
  {
    forall j: Index | j != FirstMarked(s) && j != SecondMarked(s) ensures MarksAfter(k)[s][j] == Empty {
      MarkUntouched(k, s, j);
    }
    NoLineWithTwoEntries(MarksAfter(k)[s], FirstMarked(s), SecondMarked(s), {Empty});
  }

  /** A sub-board whose only marks are X on the 0-4-8 diagonal: that diagonal is its first aligned line. */
  lemma DiagonalWin(sub: seq<Cell>)
    requires |sub| == 10 && sub[0] == X && sub[4] == X && sub[8] == X
    requires forall j :: 0 <= j < 9 && j != 0 && j != 4 && j != 8 ==> sub[j] == Empty
    ensures LocalInnerOutcome(sub) == Some(X)
  {
    assert Aligned(sub, Lines[6], {Empty});
    assert forall n :: 0 <= n < 6 ==> !Aligned(sub, Lines[n], {Empty});
  }

  /** After the last click, sub-board 4 holds X in cells 0, 4 and 8 and nothing else. */
  lemma LastClickMarks(k: nat)
    requires k == |StrandingGame|
    ensures MarksAfter(k)[4][0] == X && MarksAfter(k)[4][4] == X && MarksAfter(k)[4][8] == X
  {
    GameClicksDistinct();
    MarkPlaced(k, 2);
    MarkPlaced(k, 4);
    MarkPlaced(k, 6);
  }

  lemma LastClickEmpties(k: nat)
    requires k == |StrandingGame|
    ensures forall j :: 0 <= j < 9 && j != 0 && j != 4 && j != 8 ==> MarksAfter(k)[4][j] == Empty
  {
    forall j: Index | j != 0 && j != 4 && j != 8 ensures MarksAfter(k)[4][j] == Empty {
      MarkUntouched(k, 4, j);
    }
  }

  /** The last click completes the 0-4-8 diagonal of sub-board 4, the first aligned line there. */
  lemma LastClickWins(k: nat)
    requires k == |StrandingGame|
    ensures LocalInnerOutcome(MarksAfter(k)[4]) == Some(X)
  {
    LastClickMarks(k);
    LastClickEmpties(k);
    DiagonalWin(MarksAfter(k)[4]);
  }



  /** No slot set, or only slot `s`: no outer line, so the game is not over. */
  lemma NoOuterLine(b: Board, s: Index)
    requires WellFormed(b)
    requires forall i :: 0 <= i < 9 && i != s ==> b[i][OutcomeSlot] == Empty
    ensures CheckOuterWin(b).None?
  {
    NoLineWithTwoEntries(Slots(b), s, s, {Empty});
  }

  /** Each click after the first is in the sub-board the previous click's cell names. */
  lemma GameFollowsForcing()
    ensures forall k :: 1 <= k < |StrandingGame| ==> StrandingGame[k].0 == StrandingGame[k - 1].1
  {
  }

  /** Click `k` of the game is taken, and the sub-board its cell names is forced next. */
  lemma ClickAccepted(k: nat)
    requires k < |StrandingGame|
    ensures var c := StrandingGame[k];
            && Accepts(MarksAfter(k), ForcedBefore(k), c.0, c.1)
            && NextForced(MarksAfter(k), c.1) == ForcedBefore(k + 1)
  {
    var c := StrandingGame[k];
    assert MarksAfter(k)[c.0][c.1] == Empty by {
      GameClicksDistinct();
      MarkUntouched(k, c.0, c.1);
    }
    MarksAfterPlain(k);
    NoOuterLine(MarksAfter(k), 0);
    GameFollowsForcing();
  }

  /** The board after click `k`: its mark added and, for the last click only, sub-board 4 won by X. */
  lemma ClickResult(k: nat)
    requires k < |StrandingGame|
    ensures var c := StrandingGame[k];
            ClickBoard(MarksAfter(k), c.0, c.1) == if k + 1 < |StrandingGame| then MarksAfter(k + 1) else StrandedBoard()
  {
    var c := StrandingGame[k];
    MarksAfterFacts(k);
    assert Write(MarksAfter(k), c.0, c.1, TurnFor(MarksAfter(k))) == MarksAfter(k + 1);
    if k + 1 < |StrandingGame| {
      SparseBeforeLastClick(k + 1, c.0);
    } else {
      LastClickWins(k + 1);
    }
  }

  lemma {:induction false} ReplayFrom(k: nat)
    requires k < |StrandingGame|
    ensures Replay(MarksAfter(k), ForcedBefore(k), StrandingGame[k..]) == Some((StrandedBoard(), Some(4)))
    decreases |StrandingGame| - k
  {
    ClickAccepted(k);
    ClickResult(k);
    assert StrandingGame[k..][0] == StrandingGame[k];
    assert StrandingGame[k..][1..] == StrandingGame[k + 1..];
    if k + 1 < |StrandingGame| {
      ReplayFrom(k + 1);
    }
  }

  /** After the game sub-board 4 is won, the game is not, cell 0 of sub-board 1 is open, and sub-board 4 admits no click. */
  lemma StrandedBoardFacts()
    ensures StrandedBoard()[4][OutcomeSlot] == X
    ensures CheckOuterWin(StrandedBoard()).None? && Open(StrandedBoard(), 1, 0)
    ensures forall o: Index, i: Index :: !Accepts(StrandedBoard(), Some(4), o, i)
  {
    var k := |StrandingGame|;
    assert StrandedBoard() == Write(MarksAfter(k), 4, OutcomeSlot, X);
    MarksAfterPlain(k);
    MarkUntouched(k, 1, 0);
    NoOuterLine(StrandedBoard(), 4);
  }

  /**
   * As written, the seven clicks of `StrandingGame` from page load are all taken. The last one
   * forces sub-board 4, still undecided before the click, and then wins it. Afterwards the game is
   * not over and open cells remain, yet no click is ever taken again: the forced sub-board is closed.
   */
  lemma ClickStrands()
    ensures Replay(EmptyBoard(), None, StrandingGame) == Some((StrandedBoard(), Some(4)))
    ensures StrandedBoard()[4][OutcomeSlot] == X
    ensures CheckOuterWin(StrandedBoard()).None? && Open(StrandedBoard(), 1, 0)
    ensures forall o: Index, i: Index :: !Accepts(StrandedBoard(), Some(4), o, i)
  {
    var k := 0;
    ReplayFrom(k);
    assert StrandingGame[k..] == StrandingGame && MarksAfter(k) == EmptyBoard() && ForcedBefore(k) == None;
    StrandedBoardFacts();
  }

  /** With `nextCell` derived after the inner-win check, the last click forces nothing and the game goes on. */
  lemma CorrectedClickFreesBoard()
    ensures NextForced(StrandedBoard(), 4) == None
    ensures Accepts(StrandedBoard(), NextForced(StrandedBoard(), 4), 1, 0)
  {
    ClickStrands();
  }

  /** The page's global state: the board and the forced sub-board. */
  class Page {
    var board: Board
    var nextCell: Option<nat>

    ghost predicate Valid()
      reads this
    {
      && WellFormed(board) && Balanced(board) && NoDraws(board)
      && (nextCell.Some? ==> nextCell.value < 9)
    }

    /** Page load: an empty 9x10 board and no forced sub-board. */
    constructor ()
      ensures Valid() && board == EmptyBoard() && nextCell == None
    {
      board := EmptyBoard();
      nextCell := None;
      EmptyBoardFresh();
    }

    /**
     * The inner-cell click handler. A taken click sets `nextCell` from the board as it was, writes
     * `playerTurn(board)`, runs `checkInnerWin`, and only when that reports a winner runs
     * `checkOuterWin`. An untaken click changes nothing.
     */
    method Click(outer: Index, inner: Index) returns (accepted: bool, innerWin: Option<Cell>, outerWin: Option<Cell>)
      requires Valid()
      modifies this
      ensures Valid()
      ensures accepted <==> Accepts(old(board), old(nextCell), outer, inner)
      ensures !accepted ==> board == old(board) && nextCell == old(nextCell) && innerWin == None && outerWin == None
      ensures accepted ==> nextCell == NextForced(old(board), inner) && board == ClickBoard(old(board), outer, inner)
      ensures accepted ==> board[outer][inner] == TurnFor(old(board)) && TurnFor(board) == Opponent(TurnFor(old(board)))
      ensures accepted ==> innerWin == LocalInnerOutcome(Write(old(board), outer, inner, TurnFor(old(board)))[outer])
      ensures outerWin.Some? ==> innerWin.Some?
      ensures innerWin.Some? ==> outerWin == CheckOuterWin(board)
    {
      innerWin, outerWin := None, None;
      accepted := board[outer][inner] == Empty && board[outer][OutcomeSlot] == Empty && CheckOuterWin(board).None?
                  && (nextCell.None? || nextCell == Some(outer as nat));
      if !accepted {
        return;
      }
      ClickKeepsInvariant(board, outer, inner);
      if board[inner][OutcomeSlot] != Empty {
        nextCell := None;
      } else {
        nextCell := Some(inner as nat);
      }
      var turn := PlayerTurn(board);
      board := Write(board, outer, inner, turn);
      board, innerWin := CheckInnerWin(board, outer);
      if innerWin.Some? {
        outerWin := CheckOuterWin(board);
      }
    }

    /** The click handler with `nextCell` derived after the mark and the inner-win check, as the server does. */
    method ClickCorrected(outer: Index, inner: Index) returns (accepted: bool, innerWin: Option<Cell>, outerWin: Option<Cell>)
      requires Valid()
      modifies this
      ensures Valid()
      ensures accepted <==> Accepts(old(board), old(nextCell), outer, inner)
      ensures !accepted ==> board == old(board) && nextCell == old(nextCell) && innerWin == None && outerWin == None
      ensures accepted ==> board == ClickBoard(old(board), outer, inner) && nextCell == NextForced(board, inner)
      ensures accepted && nextCell.Some? ==> board[nextCell.value][OutcomeSlot] == Empty
      ensures outerWin.Some? ==> innerWin.Some?
      ensures innerWin.Some? ==> outerWin == CheckOuterWin(board)
    {
      innerWin, outerWin := None, None;
      accepted := board[outer][inner] == Empty && board[outer][OutcomeSlot] == Empty && CheckOuterWin(board).None?
                  && (nextCell.None? || nextCell == Some(outer as nat));
      if !accepted {
        return;
      }
      ClickKeepsInvariant(board, outer, inner);
      var turn := PlayerTurn(board);
      board := Write(board, outer, inner, turn);
      board, innerWin := CheckInnerWin(board, outer);
      if board[inner][OutcomeSlot] != Empty {
        nextCell := None;
      } else {
        nextCell := Some(inner as nat);
      }
      if innerWin.Some? {
        outerWin := CheckOuterWin(board);
      }
    }

    /** The reset button: `row.fill('')` on every sub-board; `nextCell` is not reset. */
    method Reset()
      requires Valid()
      modifies this
      ensures Valid()
      ensures board == EmptyBoard() && nextCell == old(nextCell)
    {
      for i := 0 to 9
        invariant |board| == 9 && nextCell == old(nextCell)
        invariant forall k :: 0 <= k < i ==> board[k] == EmptyRow()
        invariant forall k :: i <= k < 9 ==> |board[k]| == 10
      {
        board := board[i := EmptyRow()];
      }
      assert board == EmptyBoard();
      EmptyBoardFresh();
    }
  }
}
