/** The value of a position under the source's minimax search, as a pure
    specification, and what is proved about it: the order of terminal checks,
    the range of scores, optimality over the children, and the role of depth. */
module GameTree {
  import opened Wrappers
  import opened Rules

  /** The three tiers of play. */
  datatype Difficulty = Easy | Medium | Hard

  /** The configured string is compared against "Easy" and "Medium" only;
      every other string selects the full search. */
  function DifficultyOf(s: string): (d: Difficulty)
    ensures d == Easy <==> s == "Easy"
    ensures d == Medium <==> s == "Medium"
    ensures s != "Easy" && s != "Medium" ==> d == Hard
  {
    if s == "Easy" then Easy
    else if s == "Medium" then Medium
    else Hard
  }

  /** Depth at which Medium stops searching. */
  const MediumDepth: nat := 2

  /** Integer stand-ins for the source's -inf and +inf starting scores. */
  const NegInf: int := -2
  const PosInf: int := 2

  /** The mark placed at a layer: the computer's when maximizing, the human's otherwise. */
  function MarkFor(isMaximizing: bool): (c: Cell)
    ensures c != Empty
  {
    if isMaximizing then Ai else Player
  }

  function Max(a: int, b: int): int {
    if a >= b then a else b
  }

  function Min(a: int, b: int): int {
    if a <= b then a else b
  }

  /** The first four checks of a node: no recursion happens when this holds. */
  predicate Stops(b: Board, depth: nat, d: Difficulty) {
    IsWinner(b, Ai) || IsWinner(b, Player) || IsDraw(b) || (d == Medium && depth >= MediumDepth)
  }

  /** The score the search returns for board `b` at `depth`, with the layer's role given by `isMaximizing`. */
  ghost function Value(b: Board, depth: nat, isMaximizing: bool, d: Difficulty): int
    decreases EmptyCount(b), 1
  {
    if IsWinner(b, Ai) then 1
    else if IsWinner(b, Player) then -1
    else if IsDraw(b) then 0
    else if d == Medium && depth >= MediumDepth then 0
    else Sweep(b, depth, isMaximizing, d, 0, if isMaximizing then NegInf else PosInf)
  }

  /** The scan over row-major positions `k` to 8: `best` is the running best score so far,
      and every empty cell is tried with the layer's mark. */
  ghost function Sweep(b: Board, depth: nat, isMaximizing: bool, d: Difficulty, k: nat, best: int): int
    requires k <= 9
    decreases EmptyCount(b), 0, 9 - k
  {
    if k == 9 then best
    else if b[k] != Empty then Sweep(b, depth, isMaximizing, d, k + 1, best)
    else
      PlaceShrinks(b, k, MarkFor(isMaximizing));
      var score := Value(b[k := MarkFor(isMaximizing)], depth + 1, !isMaximizing, d);
      Sweep(b, depth, isMaximizing, d, k + 1, if isMaximizing then Max(score, best) else Min(score, best))
  }

  /** One step of the scan, unfolded once. */
  lemma SweepStep(b: Board, depth: nat, isMaximizing: bool, d: Difficulty, k: nat, best: int)
    requires k < 9
    ensures b[k] != Empty ==> Sweep(b, depth, isMaximizing, d, k, best) == Sweep(b, depth, isMaximizing, d, k + 1, best)
    ensures b[k] == Empty ==>
              var score := ChildValue(b, depth, isMaximizing, d, k);
              Sweep(b, depth, isMaximizing, d, k, best)
              == Sweep(b, depth, isMaximizing, d, k + 1, if isMaximizing then Max(score, best) else Min(score, best))
  {
  }

  /** The score of the child reached by marking empty position `k`. */
  ghost function ChildValue(b: Board, depth: nat, isMaximizing: bool, d: Difficulty, k: nat): int
    requires k < 9
  {
    Value(b[k := MarkFor(isMaximizing)], depth + 1, !isMaximizing, d)
  }

  // ---------------------------------------------------------------------------
  // Terminal checks.

  /** The checks run in a fixed order: a computer win, then a human win, then a full
      board, then the Medium cut-off; each is consulted only when the earlier ones fail. */
  lemma TerminalOrder(b: Board, depth: nat, isMaximizing: bool, d: Difficulty)
    ensures IsWinner(b, Ai) ==> Value(b, depth, isMaximizing, d) == 1
    ensures !IsWinner(b, Ai) && IsWinner(b, Player) ==> Value(b, depth, isMaximizing, d) == -1
    ensures !IsWinner(b, Ai) && !IsWinner(b, Player) && IsDraw(b) ==> Value(b, depth, isMaximizing, d) == 0
    ensures !IsWinner(b, Ai) && !IsWinner(b, Player) && !IsDraw(b) && d == Medium && depth >= MediumDepth
            ==> Value(b, depth, isMaximizing, d) == 0
  {
  }

  /** An illustration on one board of the order stated by `TerminalOrder`, not a further
      property: a board on which both marks have a line scores as a computer win. */
  lemma BothWinScoresOne(depth: nat, isMaximizing: bool, d: Difficulty)
    ensures var b: Board := [O, O, O, X, X, X, Empty, Empty, Empty];
            IsWinner(b, Player) && Value(b, depth, isMaximizing, d) == 1
  {
    var b: Board := [O, O, O, X, X, X, Empty, Empty, Empty];
    assert RowFull(b, Ai, 0);
    assert RowFull(b, Player, 1);
  }

  // ---------------------------------------------------------------------------
  // Range: the sentinels never escape.

  /** Every score is -1, 0 or 1. */
  lemma {:induction false} ValueInRange(b: Board, depth: nat, isMaximizing: bool, d: Difficulty)
    ensures -1 <= Value(b, depth, isMaximizing, d) <= 1
    decreases EmptyCount(b), 1
  {
    if !Stops(b, depth, d) {
      DrawIffNoEmptyCell(b);
      SweepInRange(b, depth, isMaximizing, d, 0, if isMaximizing then NegInf else PosInf);
    }
  }

  /** The scan ends in range when it starts from a score in range, or from the sentinel
      with an empty cell still ahead. */
  lemma {:induction false} SweepInRange(b: Board, depth: nat, isMaximizing: bool, d: Difficulty, k: nat, best: int)
    requires k <= 9
    requires -1 <= best <= 1 || (best == (if isMaximizing then NegInf else PosInf) && Empty in b[k..])
    ensures -1 <= Sweep(b, depth, isMaximizing, d, k, best) <= 1
    decreases EmptyCount(b), 0, 9 - k
  {
    if k < 9 {
      assert b[k..] == [b[k]] + b[k + 1..];
      if b[k] != Empty {
        SweepInRange(b, depth, isMaximizing, d, k + 1, best);
      } else {
        var mark := MarkFor(isMaximizing);
        PlaceShrinks(b, k, mark);
        ValueInRange(b[k := mark], depth + 1, !isMaximizing, d);
        var score := Value(b[k := mark], depth + 1, !isMaximizing, d);
        SweepInRange(b, depth, isMaximizing, d, k + 1, if isMaximizing then Max(score, best) else Min(score, best));
      }
    }
  }

  // ---------------------------------------------------------------------------
  // Optimality: the maximizing layer takes the best child, the minimizing layer the worst.

  lemma {:induction false} SweepBounds(b: Board, depth: nat, isMaximizing: bool, d: Difficulty, k: nat, best: int)
    requires k <= 9
    ensures isMaximizing ==> best <= Sweep(b, depth, isMaximizing, d, k, best)
    ensures !isMaximizing ==> Sweep(b, depth, isMaximizing, d, k, best) <= best
    ensures forall j | k <= j < 9 && b[j] == Empty ::
              if isMaximizing then ChildValue(b, depth, isMaximizing, d, j) <= Sweep(b, depth, isMaximizing, d, k, best)
              else Sweep(b, depth, isMaximizing, d, k, best) <= ChildValue(b, depth, isMaximizing, d, j)
    ensures || Sweep(b, depth, isMaximizing, d, k, best) == best
            || exists j | k <= j < 9 && b[j] == Empty ::
                 Sweep(b, depth, isMaximizing, d, k, best) == ChildValue(b, depth, isMaximizing, d, j)
    decreases 9 - k
  {
    if k < 9 {
      if b[k] != Empty {
        SweepBounds(b, depth, isMaximizing, d, k + 1, best);
      } else {
        var score := ChildValue(b, depth, isMaximizing, d, k);
        SweepBounds(b, depth, isMaximizing, d, k + 1, if isMaximizing then Max(score, best) else Min(score, best));
      }
    }
  }

  /** Past the terminal checks, the score is the maximum (when maximizing) or the
      minimum (when minimizing) of the children's scores, and some child attains it. */
  lemma ValueIsOptimal(b: Board, depth: nat, isMaximizing: bool, d: Difficulty)
    requires !Stops(b, depth, d)
    ensures forall k | 0 <= k < 9 && b[k] == Empty ::
              if isMaximizing then ChildValue(b, depth, isMaximizing, d, k) <= Value(b, depth, isMaximizing, d)
              else Value(b, depth, isMaximizing, d) <= ChildValue(b, depth, isMaximizing, d, k)
    ensures exists k | 0 <= k < 9 && b[k] == Empty ::
              Value(b, depth, isMaximizing, d) == ChildValue(b, depth, isMaximizing, d, k)
  {
    var start := if isMaximizing then NegInf else PosInf;
    SweepBounds(b, depth, isMaximizing, d, 0, start);
    DrawIffNoEmptyCell(b);
    var k :| 0 <= k < 9 && b[k] == Empty;
    ValueInRange(b[k := MarkFor(isMaximizing)], depth + 1, !isMaximizing, d);
  }

  // ---------------------------------------------------------------------------
  // Depth matters only for Medium.

  /** Without the Medium cut-off the score does not depend on the depth. */
  lemma {:induction false} DepthOnlyCutsMedium(b: Board, depth: nat, depth': nat, isMaximizing: bool, d: Difficulty)
    requires d != Medium
    ensures Value(b, depth, isMaximizing, d) == Value(b, depth', isMaximizing, d)
    decreases EmptyCount(b), 1
  {
    if !Stops(b, depth, d) {
      var start := if isMaximizing then NegInf else PosInf;
      SweepDepth(b, depth, depth', isMaximizing, d, 0, start);
    }
  }

  lemma {:induction false} SweepDepth(b: Board, depth: nat, depth': nat, isMaximizing: bool, d: Difficulty, k: nat, best: int)
    requires d != Medium && k <= 9
    ensures Sweep(b, depth, isMaximizing, d, k, best) == Sweep(b, depth', isMaximizing, d, k, best)
    decreases EmptyCount(b), 0, 9 - k
  {
    if k < 9 {
      if b[k] != Empty {
        SweepDepth(b, depth, depth', isMaximizing, d, k + 1, best);
      } else {
        var mark := MarkFor(isMaximizing);
        PlaceShrinks(b, k, mark);
        DepthOnlyCutsMedium(b[k := mark], depth + 1, depth' + 1, !isMaximizing, d);
        var score := Value(b[k := mark], depth + 1, !isMaximizing, d);
        SweepDepth(b, depth, depth', isMaximizing, d, k + 1, if isMaximizing then Max(score, best) else Min(score, best));
      }
    }
  }

  // ---------------------------------------------------------------------------
  // The top-level move choice.

  /** The score of a top-level candidate: the computer marks position `k`, and the
      resulting position is scored from the human's (minimizing) side at depth 0. */
  ghost function MoveScore(b: Board, d: Difficulty, k: nat): int
    requires k < 9
  {
    Value(b[k := Ai], 0, false, d)
  }

  /** `m` is an empty cell whose score is greatest over all empty cells, and no earlier
      empty cell (in row-major order) reaches that score. */
  ghost predicate IsBestMove(b: Board, d: Difficulty, m: Move) {
    && OnBoard(m)
    && b[Index(m)] == Empty
    && (forall k | 0 <= k < 9 && b[k] == Empty :: MoveScore(b, d, k) <= MoveScore(b, d, Index(m)))
    && (forall k | 0 <= k < Index(m) && b[k] == Empty :: MoveScore(b, d, k) < MoveScore(b, d, Index(m)))
  }

  /** The tie-break makes the choice deterministic: at most one cell is the best move. */
  lemma BestMoveUnique(b: Board, d: Difficulty, m: Move, m': Move)
    requires IsBestMove(b, d, m) && IsBestMove(b, d, m')
    ensures m == m'
  {
    IndexInjective(m, m');
  }

  /** `seen` holds the top-level scores of the first `|seen|` row-major positions: the entry
      of every empty position among them is that cell's `MoveScore`. */
  ghost predicate ScoresAgree(b: Board, d: Difficulty, seen: seq<int>) {
    |seen| <= 9 && forall k | 0 <= k < |seen| && b[k] == Empty :: seen[k] == MoveScore(b, d, k)
  }

  /** The top-level scan after the positions `0 .. |seen| - 1`, as the pair (chosen cell, its
      score): an empty cell replaces the candidate only when its score is strictly greater, so a
      tie keeps the earlier cell; before any empty cell the candidate is `None` with `NegInf`. */
  function Scan(b: Board, seen: seq<int>): (Option<Move>, int)
    requires |seen| <= 9
    decreases |seen|
  {
    if seen == [] then (None, NegInf)
    else
      var k := |seen| - 1;
      var (move, best) := Scan(b, seen[..k]);
      if b[k] == Empty && seen[k] > best then (Some(CellAt(k)), seen[k]) else (move, best)
  }

  /** Scoring (row `i`, column `j`) extends `seen` by one entry; on an empty cell that entry is
      the cell's score, and the scan moves to the cell exactly when the score is strictly greater. */
  lemma ScanExtend(b: Board, d: Difficulty, seen: seq<int>, i: nat, j: nat, score: int)
    requires i < 3 && j < 3 && |seen| == 3 * i + j && ScoresAgree(b, d, seen)
    requires b[3 * i + j] == Empty ==> score == MoveScore(b, d, 3 * i + j)
    ensures ScoresAgree(b, d, seen + [score])
    ensures Scan(b, seen + [score]) ==
              if b[3 * i + j] == Empty && score > Scan(b, seen).1 then (Some(Move(i, j)), score)
              else Scan(b, seen)
  {
    assert (seen + [score])[..3 * i + j] == seen;
    assert CellAt(3 * i + j) == Move(i, j);
  }

  /** What the scan has established after the first `k` row-major positions: `move` is
      the first empty cell, in row-major order, of greatest score so far, and `best` is its score. */
  predicate Scanned(b: Board, scores: seq<int>, k: nat, move: Option<Move>, best: int)
    requires |scores| == 9 && k <= 9
  {
    && (move.None? <==> Empty !in b[..k])
    && (move.None? ==> best == NegInf)
    && (move.Some? ==>
          && OnBoard(move.value) && Index(move.value) < k && b[Index(move.value)] == Empty
          && best == scores[Index(move.value)]
          && forall k' | 0 <= k' < Index(move.value) && b[k'] == Empty :: scores[k'] < best)
    && (forall k' | 0 <= k' < k && b[k'] == Empty :: scores[k'] <= best)
  }

  /** Visiting position `k` keeps `Scanned`, whether or not the cell is taken. */
  lemma ScanStep(b: Board, scores: seq<int>, k: nat, move: Option<Move>, best: int)
    requires |scores| == 9 && k < 9 && Scanned(b, scores, k, move, best)
    requires b[k] == Empty ==> scores[k] > NegInf
    ensures b[k] != Empty ==> Scanned(b, scores, k + 1, move, best)
    ensures b[k] == Empty ==>
              if scores[k] > best then Scanned(b, scores, k + 1, Some(CellAt(k)), scores[k])
              else Scanned(b, scores, k + 1, move, best)
  {
    assert b[..k + 1] == b[..k] + [b[k]];
  }

  /** The scan over the first `n` positions is in a `Scanned` state. */
  lemma {:induction false} ScanPrefix(b: Board, scores: seq<int>, n: nat)
    requires |scores| == 9 && n <= 9
    requires forall k | 0 <= k < 9 && b[k] == Empty :: scores[k] > NegInf
    ensures Scanned(b, scores, n, Scan(b, scores[..n]).0, Scan(b, scores[..n]).1)
  {
    if n == 0 {
      assert b[..0] == [];
    } else {
      assert scores[..n][..n - 1] == scores[..n - 1];
      ScanPrefix(b, scores, n - 1);
      ScanStep(b, scores, n - 1, Scan(b, scores[..n - 1]).0, Scan(b, scores[..n - 1]).1);
    }
  }

  /** After all nine positions the scan is `None` exactly on a full board, and otherwise the
      best move. */
  lemma ScanIsBest(b: Board, d: Difficulty, seen: seq<int>)
    requires |seen| == 9 && ScoresAgree(b, d, seen)
    ensures Scan(b, seen).0.None? <==> IsDraw(b)
    ensures Scan(b, seen).0.Some? ==> IsBestMove(b, d, Scan(b, seen).0.value)
  {
    forall k | 0 <= k < 9 && b[k] == Empty ensures seen[k] > NegInf {
      ValueInRange(b[k := Ai], 0, false, d);
    }
    ScanPrefix(b, seen, 9);
    assert seen[..9] == seen;
    assert b[..9] == b;
    DrawIffNoEmptyCell(b);
  }

  /** A board with an empty cell has a best move. */
  lemma BestMoveExists(b: Board, d: Difficulty)
    requires Empty in b
    ensures exists m :: IsBestMove(b, d, m)
  {
    var seen := seq(9, k requires 0 <= k < 9 => MoveScore(b, d, k));
    ScanIsBest(b, d, seen);
    DrawIffNoEmptyCell(b);
    var m := Scan(b, seen).0.value;
    assert IsBestMove(b, d, m);
  }
}
