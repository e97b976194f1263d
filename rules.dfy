/** The rules evaluator: the board, the two marks, win and draw detection,
    and the row-major list of empty cells. Everything here is pure. */
module Rules {

  /** A cell of the 3×3 grid; `Empty` is the blank `' '` of the source. */
  datatype Cell = Empty | X | O

  /** The human's mark. */
  const Player: Cell := X

  /** The computer's mark. */
  const Ai: Cell := O

  /** A snapshot of the grid in row-major order: row `i`, column `j` is at index `3 * i + j`. */
  type Board = b: seq<Cell> | |b| == 9
    witness [Empty, Empty, Empty, Empty, Empty, Empty, Empty, Empty, Empty]

  /** A (row, column) coordinate pair. */
  datatype Move = Move(row: nat, col: nat)

  predicate OnBoard(m: Move) {
    m.row < 3 && m.col < 3
  }

  /** Position of an on-board coordinate in the row-major snapshot. */
  function Index(m: Move): (k: nat)
    requires OnBoard(m)
    ensures k < 9
  {
    3 * m.row + m.col
  }

  /** The coordinate at a row-major position; the inverse of `Index`. */
  function CellAt(k: nat): (m: Move)
    requires k < 9
    ensures OnBoard(m) && Index(m) == k
  {
    Move(k / 3, k % 3)
  }

  lemma IndexInjective(m: Move, m': Move)
    requires OnBoard(m) && OnBoard(m')
    ensures Index(m) == Index(m') <==> m == m'
  {
  }

  function At(b: Board, i: nat, j: nat): Cell
    requires i < 3 && j < 3
  {
    b[3 * i + j]
  }

  // ---------------------------------------------------------------------------
  // Win detection: three rows, three columns, two diagonals.

  /** Row `i` holds `p` in all three cells. */
  predicate RowFull(b: Board, p: Cell, i: nat)
    requires i < 3
  {
    At(b, i, 0) == p && At(b, i, 1) == p && At(b, i, 2) == p
  }

  /** Column `j` holds `p` in all three cells. */
  predicate ColumnFull(b: Board, p: Cell, j: nat)
    requires j < 3
  {
    At(b, 0, j) == p && At(b, 1, j) == p && At(b, 2, j) == p
  }

  /** The diagonal (i, i) holds `p` in all three cells. */
  predicate DiagonalFull(b: Board, p: Cell) {
    At(b, 0, 0) == p && At(b, 1, 1) == p && At(b, 2, 2) == p
  }

  /** The anti-diagonal (i, 2 - i) holds `p` in all three cells. */
  predicate AntiDiagonalFull(b: Board, p: Cell) {
    At(b, 0, 2) == p && At(b, 1, 1) == p && At(b, 2, 0) == p
  }

  /** Whether mark `p` occupies a whole row, column or diagonal. */
  predicate IsWinner(b: Board, p: Cell) {
    || RowFull(b, p, 0) || RowFull(b, p, 1) || RowFull(b, p, 2)
    || ColumnFull(b, p, 0) || ColumnFull(b, p, 1) || ColumnFull(b, p, 2)
    || DiagonalFull(b, p)
    || AntiDiagonalFull(b, p)
  }

  /** The eight winning lines as row-major positions: an independent table of the same rule. */
  const Lines: seq<(nat, nat, nat)> :=
    [(0, 1, 2), (3, 4, 5), (6, 7, 8),
     (0, 3, 6), (1, 4, 7), (2, 5, 8),
     (0, 4, 8), (2, 4, 6)]

  predicate Holds(b: Board, p: Cell, line: (nat, nat, nat)) {
    line.0 < 9 && line.1 < 9 && line.2 < 9 &&
    b[line.0] == p && b[line.1] == p && b[line.2] == p
  }

  /** Whether the board has no empty cell; it says nothing about complete lines. */
  predicate IsDraw(b: Board) {
    forall i: nat, j: nat | i < 3 && j < 3 :: At(b, i, j) != Empty
  }

  // ---------------------------------------------------------------------------
  // Empty cells in row-major order.

  /** The empty cells at row-major positions `k` and later, in row-major order. */
  function EmptyCellsFrom(b: Board, k: nat): (cells: seq<Move>)
    requires k <= 9
    ensures forall m :: m in cells <==> OnBoard(m) && k <= Index(m) && b[Index(m)] == Empty
    ensures forall n, n' | 0 <= n < n' < |cells| ::
              OnBoard(cells[n]) && OnBoard(cells[n']) && Index(cells[n]) < Index(cells[n'])
    decreases 9 - k
  {
    if k == 9 then []
    else if b[k] == Empty then [CellAt(k)] + EmptyCellsFrom(b, k + 1)
    else EmptyCellsFrom(b, k + 1)
  }

  /** The source's `empty_cells` list: every empty cell once, in row-major order. */
  function EmptyCells(b: Board): (cells: seq<Move>)
    ensures forall m :: m in cells <==> OnBoard(m) && b[Index(m)] == Empty
    ensures forall n, n' | 0 <= n < n' < |cells| ::
              OnBoard(cells[n]) && OnBoard(cells[n']) && Index(cells[n]) < Index(cells[n'])
  {
    EmptyCellsFrom(b, 0)
  }

  /** The number of empty cells among `s`: the measure that the search decreases. */
  function EmptyCount(s: seq<Cell>): nat {
    if s == [] then 0 else (if s[0] == Empty then 1 else 0) + EmptyCount(s[1..])
  }

  // ---------------------------------------------------------------------------
  // Lemmas.

  /** `IsWinner` agrees with the table of eight lines. */
  lemma WinnerIffLine(b: Board, p: Cell)
    ensures IsWinner(b, p) <==> exists line | line in Lines :: Holds(b, p, line)
  {
    if IsWinner(b, p) {
      var n :=
        if RowFull(b, p, 0) then 0 else if RowFull(b, p, 1) then 1 else if RowFull(b, p, 2) then 2
        else if ColumnFull(b, p, 0) then 3 else if ColumnFull(b, p, 1) then 4
        else if ColumnFull(b, p, 2) then 5 else if DiagonalFull(b, p) then 6 else 7;
      assert Holds(b, p, Lines[n]);
    }
  }

  /** A full board is a draw, and only a full board is. */
  lemma DrawIffNoEmptyCell(b: Board)
    ensures IsDraw(b) <==> Empty !in b
  {
    if !IsDraw(b) {
      var i: nat, j: nat :| i < 3 && j < 3 && At(b, i, j) == Empty;
      assert b[3 * i + j] == Empty;
    } else {
      forall k | 0 <= k < 9 ensures b[k] != Empty {
        var m := CellAt(k);
        assert At(b, m.row, m.col) != Empty;
      }
    }
  }

  /** The list of empty cells is empty exactly on a full board. */
  lemma DrawIffNoEmptyCells(b: Board)
    ensures IsDraw(b) <==> EmptyCells(b) == []
  {
    DrawIffNoEmptyCell(b);
    var cells := EmptyCells(b);
    if Empty in b {
      var k :| 0 <= k < 9 && b[k] == Empty;
      assert CellAt(k) in cells;
    }
  }

  /** Placing a mark on an empty cell leaves exactly one empty cell fewer. */
  lemma {:induction false} PlaceShrinks(s: seq<Cell>, p: nat, mark: Cell)
    requires p < |s| && s[p] == Empty && mark != Empty
    ensures EmptyCount(s[p := mark]) == EmptyCount(s) - 1
  {
    if p == 0 {
      assert s[p := mark][1..] == s[1..];
    } else {
      assert s[p := mark][1..] == s[1..][p - 1 := mark];
      PlaceShrinks(s[1..], p - 1, mark);
    }
  }

  /** The number of empty cells is the length of the list of empty cells. */
  lemma {:induction false} CountMatchesCells(b: Board, k: nat)
    requires k <= 9
    ensures |EmptyCellsFrom(b, k)| == EmptyCount(b[k..])
    decreases 9 - k
  {
    if k < 9 {
      assert b[k..][1..] == b[k + 1..];
      CountMatchesCells(b, k + 1);
    }
  }

  /** The measure the search decreases is zero exactly on a full board, where the search stops. */
  lemma DrawIffCountZero(b: Board)
    ensures IsDraw(b) <==> EmptyCount(b) == 0
  {
    CountMatchesCells(b, 0);
    DrawIffNoEmptyCells(b);
    assert b[0..] == b;
  }

  /** An illustration on one board, not a further property (the general fact is
      `DrawIffNoEmptyCell`): a full board may still hold a complete line, so `IsDraw`
      alone does not rule out a win. */
  lemma FullWonBoardIsDraw()
    ensures var b: Board := [X, X, X, O, O, X, X, O, O];
            IsWinner(b, Player) && IsDraw(b)
  {
    var b: Board := [X, X, X, O, O, X, X, O, O];
    assert RowFull(b, Player, 0);
  }
}
