/** The move selector as the source runs it: one shared 3×3 grid that the search
    marks and unmarks in place, nested row/column loops, and running best scores.
    Each method is proved against the pure specification in module GameTree. */
module Engine {
  import opened Wrappers
  import opened Rules
  import opened GameTree

  /** The minimax score of the grid; every hypothetical mark is removed again before
      the next cell is tried, so the grid is returned exactly as it was found. */
  method Minimax(grid: array<Cell>, depth: nat, isMaximizing: bool, difficulty: Difficulty)
    returns (score: int)
    requires grid.Length == 9
    modifies grid
    ensures unchanged(grid)
    ensures score == Value(old(grid[..]), depth, isMaximizing, difficulty)
    ensures -1 <= score <= 1
    decreases EmptyCount(grid[..]), 1
  {
    var b: Board := grid[..];
    ValueInRange(b, depth, isMaximizing, difficulty);
    if IsWinner(b, Ai) {
      return 1;
    }
    if IsWinner(b, Player) {
      return -1;
    }
    if IsDraw(b) {
      return 0;
    }
    if difficulty == Medium && depth >= MediumDepth {
      return 0;
    }
    var bestScore := if isMaximizing then NegInf else PosInf;
    for i := 0 to 3
      invariant unchanged(grid) && grid[..] == b
      invariant Sweep(b, depth, isMaximizing, difficulty, 3 * i, bestScore) == Value(b, depth, isMaximizing, difficulty)
    {
      for j := 0 to 3
        invariant unchanged(grid) && grid[..] == b
        invariant Sweep(b, depth, isMaximizing, difficulty, 3 * i + j, bestScore) == Value(b, depth, isMaximizing, difficulty)
      {
        SweepStep(b, depth, isMaximizing, difficulty, 3 * i + j, bestScore);
        if grid[3 * i + j] == Empty {
          var s := TryCell(grid, 3 * i + j, depth, isMaximizing, difficulty);
          bestScore := if isMaximizing then Max(s, bestScore) else Min(s, bestScore);
        }
      }
    }
    score := bestScore;
  }

  /** One branch of the search: mark empty position `k` for the current layer, score the
      child one level deeper for the other side, and clear the cell again. */
  method TryCell(grid: array<Cell>, k: nat, depth: nat, isMaximizing: bool, difficulty: Difficulty)
    returns (score: int)
    requires grid.Length == 9 && k < 9 && grid[k] == Empty
    modifies grid
    ensures unchanged(grid)
    ensures score == ChildValue(old(grid[..]), depth, isMaximizing, difficulty, k)
    decreases EmptyCount(grid[..]), 0
  {
    ghost var b: Board := grid[..];
    var mark := MarkFor(isMaximizing);
    grid[k] := mark;
    assert grid[..] == b[k := mark];
    PlaceShrinks(b, k, mark);
    score := Minimax(grid, depth + 1, !isMaximizing, difficulty);
    grid[k] := Empty;
    assert grid[..] == b;
  }

  // ---------------------------------------------------------------------------
  // The top-level move choice.

  /** Easy play: an element of the row-major list of empty cells. The source draws it with
      `random.choice`; here the draw is the parameter `rand`, reduced modulo the list's length. */
  function EasyMove(b: Board, rand: nat): (move: Option<Move>)
    ensures move.None? <==> IsDraw(b)
    ensures move.Some? ==> move.value in EmptyCells(b)
    ensures move.Some? ==> OnBoard(move.value) && b[Index(move.value)] == Empty
  {
    DrawIffNoEmptyCells(b);
    var cells := EmptyCells(b);
    if cells == [] then None else Some(cells[rand % |cells|])
  }

  /** Medium and Hard play: try the computer's mark on every empty cell in row-major order,
      score each with `Minimax` from the human's side, and clear the cell again. The result is
      the first empty cell, in row-major order, of greatest score: a later cell replaces the
      candidate only when its score is strictly greater. */
  method SearchMove(grid: array<Cell>, difficulty: Difficulty) returns (move: Option<Move>)
    requires grid.Length == 9
    modifies grid
    ensures unchanged(grid)
    ensures move.None? <==> IsDraw(grid[..])
    ensures move.Some? ==> IsBestMove(grid[..], difficulty, move.value)
  {
    ghost var b: Board := grid[..];
    ghost var seen: seq<int> := [];
    var bestScore := NegInf;
    move := None;
    for i := 0 to 3
      invariant unchanged(grid) && grid[..] == b
      invariant |seen| == 3 * i && ScoresAgree(b, difficulty, seen) && Scan(b, seen) == (move, bestScore)
    {
      for j := 0 to 3
        invariant unchanged(grid) && grid[..] == b
        invariant |seen| == 3 * i + j && ScoresAgree(b, difficulty, seen) && Scan(b, seen) == (move, bestScore)
      {
        if grid[3 * i + j] == Empty {
          var score := ScoreMove(grid, 3 * i + j, difficulty);
          ScanExtend(b, difficulty, seen, i, j, score);
          if score > bestScore {
            bestScore := score;
            move := Some(Move(i, j));
          }
          seen := seen + [score];
        } else {
          ScanExtend(b, difficulty, seen, i, j, NegInf);
          seen := seen + [NegInf];
        }
      }
    }
    ScanIsBest(b, difficulty, seen);
  }

  /** One candidate of the top-level choice: mark empty position `k` with the computer's mark,
      score the position with `Minimax` at depth 0 from the human's side, clear the cell. */
  method ScoreMove(grid: array<Cell>, k: nat, difficulty: Difficulty) returns (score: int)
    requires grid.Length == 9 && k < 9 && grid[k] == Empty
    modifies grid
    ensures unchanged(grid)
    ensures score == MoveScore(old(grid[..]), difficulty, k)
  {
    ghost var b: Board := grid[..];
    grid[k] := Ai;
    assert grid[..] == b[k := Ai];
    score := Minimax(grid, 0, false, difficulty);
    grid[k] := Empty;
    assert grid[..] == b;
  }

  /** The computer's move for the configured difficulty; `None` exactly when no cell is empty. */
  method BestMove(grid: array<Cell>, difficulty: Difficulty, rand: nat) returns (move: Option<Move>)
    requires grid.Length == 9
    modifies grid
    ensures unchanged(grid)
    ensures move.None? <==> IsDraw(grid[..])
    ensures move.Some? ==> OnBoard(move.value) && grid[Index(move.value)] == Empty
    ensures difficulty == Easy ==> move == EasyMove(grid[..], rand)
    ensures difficulty != Easy && move.Some? ==> IsBestMove(grid[..], difficulty, move.value)
  {
    if difficulty == Easy {
      move := EasyMove(grid[..], rand);
    } else {
      move := SearchMove(grid, difficulty);
    }
  }

  /** With exactly one empty cell left, every level of play chooses that cell. */
  lemma SingleEmptyCellChosen(b: Board, k: nat, d: Difficulty, rand: nat)
    requires k < 9 && b[k] == Empty
    requires forall j | 0 <= j < 9 && j != k :: b[j] != Empty
    ensures EasyMove(b, rand) == Some(CellAt(k))
    ensures forall m | IsBestMove(b, d, m) :: m == CellAt(k)
  {
    var m := EasyMove(b, rand).value;
    IndexInjective(m, CellAt(k));
    forall m' | IsBestMove(b, d, m') ensures m' == CellAt(k) {
      IndexInjective(m', CellAt(k));
    }
  }
}
