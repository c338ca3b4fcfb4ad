/**
 * The rule helpers of the server (server/server.js): the outcome of one sub-board and the outcome
 * of the whole game. The turn helper is `BoardModel.PlayerTurn`.
 */
module ServerRules {

  import opened Wrappers
  import opened BoardModel

  /** All nine cells of a sub-board are filled. */
  predicate Full(sub: seq<Cell>)
    requires |sub| >= 9
  {
    forall j :: 0 <= j < 9 ==> sub[j] != Empty
  }

  /**
   * What `checkInnerWin` reports for a sub-board: the value of the first aligned line, else 'D'
   * when the nine cells are full and the outcome slot is still '', else nothing.
   * There is no "already decided" guard: an aligned line is reported whatever the slot holds.
   */
  function InnerOutcome(sub: seq<Cell>): (r: Option<Cell>)
    requires |sub| == 10
    ensures r.Some? ==> r.value != Empty
    ensures r.Some? && r.value != D ==> exists n :: 0 <= n < |Lines| && Aligned(sub, Lines[n], {Empty}) && sub[Lines[n].a] == r.value
    ensures HasLine(sub, {Empty}) ==> r == FirstAligned(sub, {Empty}, 0)
    ensures !HasLine(sub, {Empty}) ==> (r == Some(D) <==> Full(sub) && sub[OutcomeSlot] == Empty)
    ensures r.None? <==> !HasLine(sub, {Empty}) && !(Full(sub) && sub[OutcomeSlot] == Empty)
    ensures (forall j :: 0 <= j < 9 ==> sub[j] != D) ==>
              (r == Some(D) <==> Full(sub) && !HasLine(sub, {Empty}) && sub[OutcomeSlot] == Empty)
  {
    match FirstAligned(sub, {Empty}, 0)
    case Some(w) => Some(w)
    case None => if Full(sub) && sub[OutcomeSlot] == Empty then Some(D) else None
  }

  /** The board after `checkInnerWin(board, outer)`: the reported outcome is stored in slot 9. */
  function AfterInner(b: Board, outer: Index): (r: Board)
    requires WellFormed(b)
    ensures WellFormed(r)
    ensures InnerOutcome(b[outer]).Some? ==> r[outer][OutcomeSlot] == InnerOutcome(b[outer]).value
    ensures InnerOutcome(b[outer]).None? ==> r == b
    ensures forall i, j :: 0 <= i < 9 && 0 <= j < 10 && (i, j) != (outer, OutcomeSlot) ==> r[i][j] == b[i][j]
  {
    match InnerOutcome(b[outer])
    case Some(w) => Write(b, outer, OutcomeSlot, w)
    case None => b
  }

  /**
   * `checkInnerWin`: test the 8 lines of sub-board `outer` in order; on the first aligned one,
   * store its symbol in slot 9 and return it; otherwise, when the sub-board is full and slot 9
   * is still '', store and return 'D'; otherwise return null and leave the board alone.
   */
  method CheckInnerWin(b: Board, outer: Index) returns (b': Board, r: Option<Cell>)
    requires WellFormed(b)
    ensures r == InnerOutcome(b[outer]) && b' == AfterInner(b, outer)
    ensures r.Some? ==> b'[outer][OutcomeSlot] == r.value
    ensures r.None? ==> b' == b
  {
    var sub := b[outer];
    for k := 0 to |Lines|
      invariant FirstAligned(sub, {Empty}, 0) == FirstAligned(sub, {Empty}, k)
    {
      var l := Lines[k];
      if sub[l.a] != Empty && sub[l.a] == sub[l.b] && sub[l.a] == sub[l.c] {
        b' := Write(b, outer, OutcomeSlot, sub[l.a]);
        r := Some(sub[l.a]);
        return;
      }
    }
    var isFull := forall j | 0 <= j < 9 :: sub[j] != Empty;
    if isFull && sub[OutcomeSlot] == Empty {
      b' := Write(b, outer, OutcomeSlot, D);
      r := Some(D);
      return;
    }
    b', r := b, None;
  }

  /** Every outcome slot holds something: each sub-board is won or drawn. */
  predicate AllDecided(b: Board)
    requires WellFormed(b)
  {
    forall i :: 0 <= i < 9 ==> b[i][OutcomeSlot] != Empty
  }

  /**
   * `checkOuterWin`: the first outer line of three equal slot values that are neither '' nor 'D'
   * wins; failing that, the game is drawn once every slot is decided; otherwise it goes on.
   * It only reads the board.
   */
  function CheckOuterWin(b: Board): (r: Option<Cell>)
    requires WellFormed(b)
    ensures r.Some? ==> r.value != Empty
    ensures HasLine(Slots(b), {Empty, D}) <==> r.Some? && r.value != D
    ensures r.Some? && r.value != D ==>
              exists n :: 0 <= n < |Lines| && Aligned(Slots(b), Lines[n], {Empty, D}) && b[Lines[n].a][OutcomeSlot] == r.value
    ensures r == Some(D) <==> AllDecided(b) && !HasLine(Slots(b), {Empty, D})
    ensures r.None? <==> !AllDecided(b) && !HasLine(Slots(b), {Empty, D})
  {
    match FirstAligned(Slots(b), {Empty, D}, 0)
    case Some(w) => Some(w)
    case None => if AllDecided(b) then Some(D) else None
  }
}
