/**
 * The board shared by the server and the hot-seat page: nine sub-boards of ten entries each.
 * Entries 0..8 of a sub-board are its cells; entry 9 is the sub-board's outcome slot.
 */
module BoardModel {

  import opened Wrappers

  /** One board entry: the empty string, 'X', 'O' or 'D' (a drawn sub-board). */
  datatype Cell = Empty | X | O | D

  /** A player symbol. */
  type Mark = c: Cell | c == X || c == O witness X

  /** An index 0..8: a sub-board of the outer grid, or a cell of a sub-board. */
  type Index = i: nat | i < 9

  function Opponent(m: Mark): (r: Mark)
    ensures r != m
  {
    if m == X then O else X
  }

  /** Position of the outcome slot inside a sub-board. */
  const OutcomeSlot: nat := 9

  type Board = seq<seq<Cell>>

  predicate WellFormed(b: Board) {
    |b| == 9 && forall i :: 0 <= i < 9 ==> |b[i]| == 10
  }

  /** Cells 0..8 only ever hold a player symbol or nothing; 'D' lives in outcome slots. */
  predicate CellsMarked(b: Board)
    requires WellFormed(b)
  {
    forall i, j :: 0 <= i < 9 && 0 <= j < 9 ==> b[i][j] != D
  }

  function EmptyRow(): (r: seq<Cell>)
    ensures |r| == 10 && forall j :: 0 <= j < 10 ==> r[j] == Empty
  {
    seq(10, _ => Empty)
  }

  /** `Array(9)` of `Array(10).fill('')`. */
  function EmptyBoard(): (b: Board)
    ensures WellFormed(b) && CellsMarked(b)
    ensures forall i :: 0 <= i < 9 ==> b[i] == EmptyRow()
  {
    seq(9, _ => EmptyRow())
  }

  /** The board with `v` stored at entry `j` of sub-board `i`. */
  function Write(b: Board, i: Index, j: nat, v: Cell): (r: Board)
    requires WellFormed(b) && j < 10
    ensures WellFormed(r) && r[i][j] == v
    ensures forall i', j' :: 0 <= i' < 9 && 0 <= j' < 10 && (i', j') != (i, j) ==> r[i'][j'] == b[i'][j']
  {
    b[i := b[i][j := v]]
  }

  // ---------------------------------------------------------------------------------------------
  // Winning lines

  /** Three positions of a 3x3 grid, indexed 0..8 row by row. */
  datatype Line = Line(a: Index, b: Index, c: Index)

  /** The 8 winning triples, in the order both sources test them: rows, columns, diagonals. */
  const Lines: seq<Line> := [
    Line(0, 1, 2), Line(3, 4, 5), Line(6, 7, 8),
    Line(0, 3, 6), Line(1, 4, 7), Line(2, 5, 8),
    Line(0, 4, 8), Line(2, 4, 6)
  ]

  /**
   * Line `l` of the nine values `v` is taken by one value: three equal values, none of which is
   * in `ignored` (the JavaScript test `v[a] && v[a] === v[b] && v[a] === v[c]` ignores '').
   */
  predicate Aligned(v: seq<Cell>, l: Line, ignored: set<Cell>)
    requires |v| >= 9
  {
    v[l.a] !in ignored && v[l.a] == v[l.b] && v[l.a] == v[l.c]
  }

  /**
   * The value of the first aligned line among `Lines[k..]`, if any: the loop over
   * `winningCombinations` that returns on the first match.
   */
  function FirstAligned(v: seq<Cell>, ignored: set<Cell>, k: nat): (r: Option<Cell>)
    requires |v| >= 9 && k <= |Lines|
    ensures r.Some? ==> exists n :: k <= n < |Lines| && Aligned(v, Lines[n], ignored) && r.value == v[Lines[n].a]
                                    && forall n' :: k <= n' < n ==> !Aligned(v, Lines[n'], ignored)
    ensures r.None? <==> forall n :: k <= n < |Lines| ==> !Aligned(v, Lines[n], ignored)
    ensures r.Some? ==> r.value !in ignored
    decreases |Lines| - k
  {
    if k == |Lines| then None
    else if Aligned(v, Lines[k], ignored) then Some(v[Lines[k].a])
    else FirstAligned(v, ignored, k + 1)
  }

  /** Some line of `v` is aligned. */
  predicate HasLine(v: seq<Cell>, ignored: set<Cell>)
    requires |v| >= 9
  {
    exists n :: 0 <= n < |Lines| && Aligned(v, Lines[n], ignored)
  }

  /** The nine outcome slots, read as an outer 3x3 grid. */
  function Slots(b: Board): (s: seq<Cell>)
    requires WellFormed(b)
    ensures |s| == 9 && forall i :: 0 <= i < 9 ==> s[i] == b[i][OutcomeSlot]
  {
    seq(9, i requires 0 <= i < 9 => b[i][OutcomeSlot])
  }

  /**
   * The sub-board the next move is forced into, read from board `b`: cell index `inner`, unless
   * sub-board `inner` already has an outcome, in which case any sub-board may be played.
   */
  function NextForced(b: Board, inner: Index): (r: Option<nat>)
    requires WellFormed(b)
    ensures r.Some? ==> r.value == inner as nat && b[r.value][OutcomeSlot] == Empty
    ensures r.None? <==> b[inner][OutcomeSlot] != Empty
  {
    if b[inner][OutcomeSlot] != Empty then None else Some(inner as nat)
  }

  // ---------------------------------------------------------------------------------------------
  // Counting marks

  /** The number of entries among `row[..n]` equal to `m`. */
  function CountIn(row: seq<Cell>, m: Cell, n: nat): nat
    requires n <= |row|
  {
    if n == 0 then 0 else CountIn(row, m, n - 1) + (if row[n - 1] == m then 1 else 0)
  }

  /** The number of cells 0..8 equal to `m` in sub-boards 0..k-1. */
  function CountUpTo(b: Board, m: Cell, k: nat): nat
    requires WellFormed(b) && k <= 9
  {
    if k == 0 then 0 else CountUpTo(b, m, k - 1) + CountIn(b[k - 1], m, 9)
  }

  /** The number of cells 0..8 of the whole board equal to `m`; outcome slots are not counted. */
  function Count(b: Board, m: Cell): nat
    requires WellFormed(b)
  {
    CountUpTo(b, m, 9)
  }

  /** The symbol to move next as derived from the marks: O when X marks outnumber O marks, else X. */
  function TurnFor(b: Board): Mark
    requires WellFormed(b)
  {
    if Count(b, X) > Count(b, O) then O else X
  }

  /** Marks alternate starting with X: there are as many X marks as O marks, or one more. */
  predicate Balanced(b: Board)
    requires WellFormed(b)
  {
    Count(b, X) == Count(b, O) || Count(b, X) == Count(b, O) + 1
  }

  /**
   * `calculatePlayerTurn` (server) and `playerTurn` (hot-seat page): two nested loops over sub-boards
   * 0..8 and cells 0..8 that count X and O marks.
   */
  method PlayerTurn(b: Board) returns (t: Mark)
    requires WellFormed(b)
    ensures t == O <==> Count(b, X) > Count(b, O)
    ensures t == TurnFor(b)
  {
    var xCount, oCount := 0, 0;
    for i := 0 to 9
      invariant xCount == CountUpTo(b, X, i) && oCount == CountUpTo(b, O, i)
    {
      for j := 0 to 9
        invariant xCount == CountUpTo(b, X, i) + CountIn(b[i], X, j)
        invariant oCount == CountUpTo(b, O, i) + CountIn(b[i], O, j)
      {
        if b[i][j] == X {
          xCount := xCount + 1;
        } else if b[i][j] == O {
          oCount := oCount + 1;
        }
      }
    }
    t := if xCount > oCount then O else X;
  }

  lemma {:induction false} CountInAgree(r1: seq<Cell>, r2: seq<Cell>, m: Cell, n: nat)
    requires n <= |r1| && n <= |r2|
    requires forall j :: 0 <= j < n ==> r1[j] == r2[j]
    ensures CountIn(r1, m, n) == CountIn(r2, m, n)
  {
    if n > 0 {
      CountInAgree(r1, r2, m, n - 1);
    }
  }

  lemma {:induction false} CountInWrite(row: seq<Cell>, j: nat, v: Cell, m: Cell, n: nat)
    requires j < n <= |row|
    ensures CountIn(row[j := v], m, n)
            == CountIn(row, m, n) - (if row[j] == m then 1 else 0) + (if v == m then 1 else 0)
  {
    if j == n - 1 {
      CountInAgree(row[j := v], row, m, n - 1);
    } else {
      CountInWrite(row, j, v, m, n - 1);
    }
  }

  lemma {:induction false} CountUpToAgree(b1: Board, b2: Board, m: Cell, k: nat)
    requires WellFormed(b1) && WellFormed(b2) && k <= 9
    requires forall i, j :: 0 <= i < k && 0 <= j < 9 ==> b1[i][j] == b2[i][j]
    ensures CountUpTo(b1, m, k) == CountUpTo(b2, m, k)
  {
    if k > 0 {
      CountUpToAgree(b1, b2, m, k - 1);
      CountInAgree(b1[k - 1], b2[k - 1], m, 9);
    }
  }

  lemma {:induction false} CountUpToWrite(b: Board, i: Index, j: nat, v: Cell, m: Cell, k: nat)
    requires WellFormed(b) && j < 9 && k <= 9
    ensures CountUpTo(Write(b, i, j, v), m, k)
            == CountUpTo(b, m, k) + (if i < k then (if v == m then 1 else 0) - (if b[i][j] == m then 1 else 0) else 0)
  {
    if k > 0 {
      CountUpToWrite(b, i, j, v, m, k - 1);
      if i == k - 1 {
        CountInWrite(b[i], j, v, m, 9);
      } else {
        assert Write(b, i, j, v)[k - 1] == b[k - 1];
      }
    }
  }

  /** Counting looks at cells 0..8 only: boards that agree there have the same counts and turn. */
  lemma CountIgnoresOutcomes(b1: Board, b2: Board)
    requires WellFormed(b1) && WellFormed(b2)
    requires forall i, j :: 0 <= i < 9 && 0 <= j < 9 ==> b1[i][j] == b2[i][j]
    ensures forall m :: Count(b1, m) == Count(b2, m)
    ensures TurnFor(b1) == TurnFor(b2)
  {
    forall m: Cell ensures Count(b1, m) == Count(b2, m) {
      CountUpToAgree(b1, b2, m, 9);
    }
  }

  /** Writing `v` over entry `j < 9` moves one unit of count from the old value to `v`. */
  lemma CountAfterWrite(b: Board, i: Index, j: nat, v: Cell, m: Cell)
    requires WellFormed(b) && j < 9
    ensures Count(Write(b, i, j, v), m)
            == Count(b, m) + (if v == m then 1 else 0) - (if b[i][j] == m then 1 else 0)
  {
    CountUpToWrite(b, i, j, v, m, 9);
  }

  /** Writing into an outcome slot changes no count. */
  lemma CountAfterOutcomeWrite(b: Board, i: Index, v: Cell)
    requires WellFormed(b)
    ensures forall m :: Count(Write(b, i, OutcomeSlot, v), m) == Count(b, m)
    ensures TurnFor(Write(b, i, OutcomeSlot, v)) == TurnFor(b)
  {
    CountIgnoresOutcomes(Write(b, i, OutcomeSlot, v), b);
  }

  /**
   * Writing the derived turn symbol into an empty cell keeps the marks balanced and hands the turn
   * to the opponent: accepted writes alternate X, O, X, ...
   */
  lemma TurnAlternates(b: Board, i: Index, j: nat)
    requires WellFormed(b) && Balanced(b) && j < 9 && b[i][j] == Empty
    ensures Balanced(Write(b, i, j, TurnFor(b)))
    ensures TurnFor(Write(b, i, j, TurnFor(b))) == Opponent(TurnFor(b))
  {
    CountAfterWrite(b, i, j, TurnFor(b), X);
    CountAfterWrite(b, i, j, TurnFor(b), O);
  }

  lemma {:induction false} CountUpToEmpty(m: Cell, k: nat)
    requires k <= 9 && m != Empty
    ensures CountUpTo(EmptyBoard(), m, k) == 0
  {
    if k > 0 {
      CountUpToEmpty(m, k - 1);
      CountInEmptyRow(m, 9);
    }
  }

  lemma {:induction false} CountInEmptyRow(m: Cell, n: nat)
    requires n <= 10 && m != Empty
    ensures CountIn(EmptyRow(), m, n) == 0
  {
    if n > 0 {
      CountInEmptyRow(m, n - 1);
    }
  }

  /** A cleared board holds no marks, so it is balanced and X is to move; no line is aligned. */
  lemma EmptyBoardFresh()
    ensures forall m: Cell :: m != Empty ==> Count(EmptyBoard(), m) == 0
    ensures Balanced(EmptyBoard()) && TurnFor(EmptyBoard()) == X
    ensures forall i :: 0 <= i < 9 ==> !HasLine(EmptyBoard()[i], {Empty})
    ensures !HasLine(Slots(EmptyBoard()), {Empty})
  {
    forall m: Cell | m != Empty ensures Count(EmptyBoard(), m) == 0 {
      CountUpToEmpty(m, 9);
    }
  }

  /** Nine values of which at most entries `p` and `q` are non-empty have no aligned line. */
  lemma NoLineWithTwoEntries(v: seq<Cell>, p: Index, q: Index, ignored: set<Cell>)
    requires |v| >= 9 && Empty in ignored
    requires forall j :: 0 <= j < 9 && j != p && j != q ==> v[j] == Empty
    ensures !HasLine(v, ignored)
  {
    forall n | 0 <= n < |Lines| ensures !Aligned(v, Lines[n], ignored) {
      var l := Lines[n];
      assert l.a != l.b && l.a != l.c && l.b != l.c;
    }
  }

  /** When sub-boards 1..8 are empty, the marks counted are those of sub-board 0. */
  lemma CountFirstRowOnly(b: Board, m: Cell)
    requires WellFormed(b) && m != Empty
    requires forall i :: 1 <= i < 9 ==> b[i] == EmptyRow()
    ensures Count(b, m) == CountIn(b[0], m, 9)
  {
    CountInEmptyRow(m, 9);
    var k := 1;
    while k < 9
      invariant 1 <= k <= 9 && CountUpTo(b, m, k) == CountIn(b[0], m, 9)
    {
      k := k + 1;
    }
  }
}
