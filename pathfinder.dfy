/**
 * The greedy route finder: find the start 'S' and the target 'X', then move
 * one cell at a time to the open neighbour closest to the target (Manhattan
 * distance), trying up, down, left, right in that order, and record each
 * move as one of the letters u, d, l, r.
 *
 * The stepping loop of the original has no bound; here it is driven by a
 * fuel parameter, and a cell without any open neighbour ends the walk with
 * `Stuck` instead of stepping to (-1, -1).
 */
module PathFinder {
  import opened MazeGrid

  datatype Option<T> = None | Some(value: T)

  /** A cell position: zero-based row and column. */
  datatype Pos = Pos(row: int, col: int)

  /** What a route query ends with. */
  datatype Outcome =
    | Found(path: string)
      /** the grid has no 'S' or no 'X' */
    | MarkerNotFound
      /** no neighbour of `at` is open: the walk cannot go on */
    | Stuck(path: string, at: Pos)
      /** the fuel ran out at `at` before the target was reached */
    | OutOfFuel(path: string, at: Pos)

  /** Java's Integer.MAX_VALUE, the initial "no candidate yet" distance. */
  const INT_MAX: int := 0x7fff_ffff

  /** Column and row deltas of the four moves, in the order up, down, left, right. */
  const DX: seq<int> := [0, 0, -1, 1]
  const DY: seq<int> := [-1, 1, 0, 0]

  /** The letter for each move, in the same order. */
  const TOKENS: string := "udlr"

  // ---------------------------------------------------------------------
  // Cells and distances

  predicate InBounds(g: Grid, p: Pos) {
    0 <= p.row < |g| && 0 <= p.col < |g[p.row]|
  }

  /** A cell the walk may enter: inside the grid and not a wall. */
  predicate Open(g: Grid, p: Pos) {
    InBounds(g, p) && g[p.row][p.col] != '#'
  }

  /**
   * The bounds check of the finder, on the dimensions stored in the maze:
   * true exactly when (row, col) names a cell of the grid.
   */
  function IsValid(m: Maze, row: int, col: int): (b: bool)
    requires m.Valid()
    ensures b <==> InBounds(m.grid, Pos(row, col))
  {
    row >= 0 && row < m.GetRows() && col >= 0 && col < m.GetCols()
  }

  function Abs(x: int): nat {
    if x < 0 then -x else x
  }

  function Manhattan(a: Pos, b: Pos): nat {
    Abs(a.row - b.row) + Abs(a.col - b.col)
  }

  predicate Adjacent(a: Pos, b: Pos) {
    Manhattan(a, b) == 1
  }

  /** The neighbour in direction i (0 up, 1 down, 2 left, 3 right). */
  function Neighbour(p: Pos, i: nat): Pos
    requires i < 4
  {
    Pos(p.row + DY[i], p.col + DX[i])
  }

  // ---------------------------------------------------------------------
  // One step

  /** No neighbour of `cur` is open. */
  predicate Stranded(g: Grid, cur: Pos) {
    forall j :: 0 <= j < 4 ==> !Open(g, Neighbour(cur, j))
  }

  /**
   * Direction k is the greedy choice: its neighbour is open, no open
   * neighbour is closer to the target, and every open neighbour tried
   * before it is strictly farther (earlier directions win ties).
   */
  predicate IsGreedyChoice(g: Grid, cur: Pos, target: Pos, k: nat) {
    k < 4 && Open(g, Neighbour(cur, k)) &&
    (forall j :: 0 <= j < 4 && Open(g, Neighbour(cur, j)) ==>
      Manhattan(Neighbour(cur, k), target) <= Manhattan(Neighbour(cur, j), target)) &&
    (forall j :: 0 <= j < k && Open(g, Neighbour(cur, j)) ==>
      Manhattan(Neighbour(cur, k), target) < Manhattan(Neighbour(cur, j), target))
  }

  /**
   * The direction kept after trying the first n directions in order,
   * replacing the kept one only on a strictly smaller distance.
   */
  function BestAmong(g: Grid, cur: Pos, target: Pos, n: nat): (r: Option<nat>)
    requires n <= 4
    ensures r.Some? ==> r.value < n
  {
    if n == 0 then None
    else
      var prev := BestAmong(g, cur, target, n - 1);
      var q := Neighbour(cur, n - 1);
      if Open(g, q) && (prev.None? || Manhattan(q, target) < Manhattan(Neighbour(cur, prev.value), target))
      then Some(n - 1)
      else prev
  }

  /**
   * After n directions, the kept one is open, as close to the target as any
   * open one tried, and strictly closer than every open one tried before
   * it; nothing is kept only when none of them is open.
   */
  lemma {:induction false} BestAmongSpec(g: Grid, cur: Pos, target: Pos, n: nat)
    requires n <= 4
    ensures var r := BestAmong(g, cur, target, n);
      (r.None? <==> forall j :: 0 <= j < n ==> !Open(g, Neighbour(cur, j))) &&
      (r.Some? ==> Open(g, Neighbour(cur, r.value))) &&
      (r.Some? ==> forall j :: 0 <= j < n && Open(g, Neighbour(cur, j)) ==>
        Manhattan(Neighbour(cur, r.value), target) <= Manhattan(Neighbour(cur, j), target)) &&
      (r.Some? ==> forall j :: 0 <= j < r.value && Open(g, Neighbour(cur, j)) ==>
        Manhattan(Neighbour(cur, r.value), target) < Manhattan(Neighbour(cur, j), target))
  {
    if n > 0 {
      BestAmongSpec(g, cur, target, n - 1);
    }
  }

  /**
   * The cell the walk moves to from `cur`, or None when no neighbour is
   * open.
   */
  function Step(g: Grid, cur: Pos, target: Pos): Option<Pos> {
    match BestAmong(g, cur, target, 4)
    case None => None
    case Some(k) => Some(Neighbour(cur, k))
  }

  /**
   * A step is taken exactly when some neighbour is open, and it goes to an
   * open neighbour one cell away.
   */
  lemma StepMoves(g: Grid, cur: Pos, target: Pos)
    ensures Step(g, cur, target).None? <==> Stranded(g, cur)
    ensures Step(g, cur, target).Some? ==>
      Open(g, Step(g, cur, target).value) && Adjacent(cur, Step(g, cur, target).value)
  {
    BestAmongSpec(g, cur, target, 4);
  }

  /** The step goes to the neighbour in direction k exactly when k is the greedy choice. */
  lemma StepSpec(g: Grid, cur: Pos, target: Pos)
    ensures forall k :: 0 <= k < 4 ==>
      (Step(g, cur, target) == Some(Neighbour(cur, k)) <==> IsGreedyChoice(g, cur, target, k))
  {
    BestAmongSpec(g, cur, target, 4);
    var r := BestAmong(g, cur, target, 4);
    if r.Some? {
      assert IsGreedyChoice(g, cur, target, r.value);
      forall k | 0 <= k < 4 && IsGreedyChoice(g, cur, target, k)
        ensures k == r.value
      {
      }
    }
  }

  /**
   * The letter the finder appends for a move from `cur` to `next`: it
   * compares the row first, then the column, and appends nothing when
   * neither differs by one.
   */
  function Encode(cur: Pos, next: Pos): (t: Option<char>)
    ensures Adjacent(cur, next) ==> t.Some? && t.value in TOKENS && Move(cur, t.value) == next
    ensures forall k :: 0 <= k < 4 && next == Neighbour(cur, k) ==> t == Some(TOKENS[k])
  {
    if next.row == cur.row - 1 then Some('u')
    else if next.row == cur.row + 1 then Some('d')
    else if next.col == cur.col - 1 then Some('l')
    else if next.col == cur.col + 1 then Some('r')
    else None
  }

  /** The cell a letter of the path leads to. */
  function Move(p: Pos, t: char): Pos {
    match t
    case 'u' => Pos(p.row - 1, p.col)
    case 'd' => Pos(p.row + 1, p.col)
    case 'l' => Pos(p.row, p.col - 1)
    case 'r' => Pos(p.row, p.col + 1)
    case _ => p
  }

  // ---------------------------------------------------------------------
  // Paths

  /** Where following `path` from `p` ends up. */
  function Replay(p: Pos, path: string): Pos
    decreases |path|
  {
    if path == [] then p
    else Move(Replay(p, path[..|path| - 1]), path[|path| - 1])
  }

  /** Every letter of `path` is a move, and every cell it enters is open. */
  predicate Walks(g: Grid, start: Pos, path: string)
    decreases |path|
  {
    path == [] ||
    (Walks(g, start, path[..|path| - 1]) && path[|path| - 1] in TOKENS &&
     Open(g, Replay(start, path)))
  }

  /**
   * The stepping loop from `cur` with `path` emitted so far and `fuel`
   * steps left.
   */
  function Walk(g: Grid, cur: Pos, target: Pos, fuel: nat, path: string): (r: Outcome)
    ensures !r.MarkerNotFound?
    decreases fuel
  {
    if cur == target then Found(path)
    else if fuel == 0 then OutOfFuel(path, cur)
    else match Step(g, cur, target)
      case None => Stuck(path, cur)
      case Some(next) =>
        var path' := match Encode(cur, next) case Some(t) => path + [t] case None => path;
        Walk(g, next, target, fuel - 1, path')
  }

  /**
   * Continuing the walk from `cur` with `path` and `fuel` ends in `result`.
   * This is `Walk(...) == result` under a name of its own, not a separate
   * notion: naming the final outcome keeps loop invariants and proofs that
   * carry it from step to step small for the verifier.
   */
  predicate Resumes(g: Grid, cur: Pos, target: Pos, fuel: nat, path: string, result: Outcome) {
    Walk(g, cur, target, fuel, path) == result
  }

  /** The stepping loop ends in `Stuck` when the finder keeps no neighbour. */
  lemma WalkStuck(g: Grid, cur: Pos, target: Pos, fuel: nat, path: string, result: Outcome)
    requires cur != target && fuel > 0 && Coords(Step(g, cur, target)).0 == -1
    requires Resumes(g, cur, target, fuel, path, result)
    ensures result == Stuck(path, cur)
  {
    StepMoves(g, cur, target);
  }

  /** One turn of the stepping loop when a neighbour is open. */
  lemma WalkAdvance(g: Grid, cur: Pos, target: Pos, fuel: nat, path: string, next: Pos, result: Outcome)
    requires cur != target && fuel > 0 && Step(g, cur, target) == Some(next)
    requires Resumes(g, cur, target, fuel, path, result)
    ensures Encode(cur, next).Some?
    ensures Resumes(g, next, target, fuel - 1, path + [Encode(cur, next).value], result)
  {
    StepMoves(g, cur, target);
  }

  // ---------------------------------------------------------------------
  // Markers

  /** Row-major order: q is scanned before p. */
  predicate Before(q: Pos, p: Pos) {
    q.row < p.row || (q.row == p.row && q.col < p.col)
  }

  /** (i, j) is a point the row-major scan passes: a cell, the end of a row, or the end of the grid. */
  predicate ScanPoint(g: Grid, i: nat, j: nat) {
    (i < |g| && j <= |g[i]|) || (i == |g| && j == 0)
  }

  /**
   * What the scan has recorded for ch on reaching (i, j): the cell holding
   * ch scanned most recently, since each one overwrites the one before.
   */
  function LastScanned(g: Grid, ch: char, i: nat, j: nat): (r: Option<Pos>)
    requires ScanPoint(g, i, j)
    ensures r.Some? ==> InBounds(g, r.value) && g[r.value.row][r.value.col] == ch
    decreases i, j
  {
    if j > 0 then
      if g[i][j - 1] == ch then Some(Pos(i, j - 1)) else LastScanned(g, ch, i, j - 1)
    else if i > 0 then LastScanned(g, ch, i - 1, |g[i - 1]|)
    else None
  }

  /** The marker cell the whole scan records, if any. */
  function Marker(g: Grid, ch: char): (r: Option<Pos>)
    ensures r.Some? ==> InBounds(g, r.value) && g[r.value.row][r.value.col] == ch
  {
    LastScanned(g, ch, |g|, 0)
  }

  /** p holds ch, and every other cell before `bound` holding ch comes before p. */
  ghost predicate IsLastBefore(g: Grid, ch: char, p: Pos, bound: Pos) {
    InBounds(g, p) && Before(p, bound) && g[p.row][p.col] == ch &&
    forall q :: InBounds(g, q) && Before(q, bound) && g[q.row][q.col] == ch ==> q == p || Before(q, p)
  }

  /** No cell before `bound` holds ch. */
  ghost predicate NoneBefore(g: Grid, ch: char, bound: Pos) {
    forall q :: InBounds(g, q) && Before(q, bound) ==> g[q.row][q.col] != ch
  }

  /** p holds ch and comes after every other cell holding ch. */
  ghost predicate IsLastMarker(g: Grid, ch: char, p: Pos) {
    IsLastBefore(g, ch, p, Pos(|g|, 0))
  }

  ghost predicate NoMarker(g: Grid, ch: char) {
    NoneBefore(g, ch, Pos(|g|, 0))
  }

  /** The scan records the last cell holding ch before (i, j), or nothing when there is none. */
  lemma {:induction false} LastScannedSpec(g: Grid, ch: char, i: nat, j: nat)
    requires ScanPoint(g, i, j)
    ensures LastScanned(g, ch, i, j).None? ==> NoneBefore(g, ch, Pos(i, j))
    ensures LastScanned(g, ch, i, j).Some? ==> IsLastBefore(g, ch, LastScanned(g, ch, i, j).value, Pos(i, j))
    decreases i, j
  {
    if j > 0 {
      LastScannedSpec(g, ch, i, j - 1);
    } else if i > 0 {
      LastScannedSpec(g, ch, i - 1, |g[i - 1]|);
    }
  }

  /**
   * The recorded marker is the last cell holding ch in row-major order, and
   * nothing is recorded exactly when no cell holds ch.
   */
  lemma MarkerSpec(g: Grid, ch: char)
    ensures Marker(g, ch).None? <==> NoMarker(g, ch)
    ensures forall p :: Marker(g, ch) == Some(p) <==> IsLastMarker(g, ch, p)
  {
    LastScannedSpec(g, ch, |g|, 0);
    var r := Marker(g, ch);
    if r.Some? {
      assert !NoMarker(g, ch) by {
        assert InBounds(g, r.value) && Before(r.value, Pos(|g|, 0));
      }
      forall p | IsLastMarker(g, ch, p)
        ensures p == r.value
      {
      }
    }
  }

  /** The start and target positions as the finder keeps them: (-1, -1) for none. */
  function Coords(p: Option<Pos>): (int, int) {
    match p
    case None => (-1, -1)
    case Some(q) => (q.row, q.col)
  }

  // ---------------------------------------------------------------------
  // The whole query

  /** The result of a route query with at most `fuel` steps. */
  function Route(g: Grid, fuel: nat): (r: Outcome)
    ensures r.MarkerNotFound? <==> Marker(g, 'S').None? || Marker(g, 'X').None?
  {
    match (Marker(g, 'S'), Marker(g, 'X'))
    case (Some(s), Some(x)) => Walk(g, s, x, fuel, [])
    case _ => MarkerNotFound
  }

  /**
   * The marker scan of findPath: every cell in row-major order, a later 'S'
   * or 'X' overwriting an earlier one; (-1, -1) when a marker is absent.
   */
  method FindMarkers(m: Maze) returns (startRow: int, startCol: int, targetRow: int, targetCol: int)
    requires m.Valid()
    ensures (startRow, startCol) == Coords(Marker(m.grid, 'S'))
    ensures (targetRow, targetCol) == Coords(Marker(m.grid, 'X'))
  {
    ghost var g := m.grid;
    startRow, startCol := -1, -1;
    targetRow, targetCol := -1, -1;
    for i := 0 to m.GetRows()
      invariant (startRow, startCol) == Coords(LastScanned(g, 'S', i, 0))
      invariant (targetRow, targetCol) == Coords(LastScanned(g, 'X', i, 0))
    {
      for j := 0 to m.GetCols()
        invariant (startRow, startCol) == Coords(LastScanned(g, 'S', i, j))
        invariant (targetRow, targetCol) == Coords(LastScanned(g, 'X', i, j))
      {
        if m.GetGrid()[i][j] == 'S' {
          startRow, startCol := i, j;
        } else if m.GetGrid()[i][j] == 'X' {
          targetRow, targetCol := i, j;
        }
      }
    }
  }

  /** The finder's (nextRow, nextCol, minDist) for the direction kept so far. */
  function Kept(cur: Pos, target: Pos, r: Option<nat>): (int, int, int)
    requires r.Some? ==> r.value < 4
  {
    match r
    case None => (-1, -1, INT_MAX)
    case Some(k) => (Neighbour(cur, k).row, Neighbour(cur, k).col, Manhattan(Neighbour(cur, k), target))
  }

  /** In a maze whose rows plus columns fit in an int, a distance between two cells stays below INT_MAX. */
  lemma DistanceBelowMax(g: Grid, p: Pos, target: Pos)
    requires Rectangular(g) && |g| + |g[0]| <= INT_MAX
    requires InBounds(g, p) && InBounds(g, target)
    ensures Manhattan(p, target) < INT_MAX
  {
  }

  /**
   * Trying direction i updates the kept neighbour exactly when that
   * neighbour is open and strictly closer than the one kept so far.
   */
  lemma KeptAfter(g: Grid, cur: Pos, target: Pos, i: nat)
    requires i < 4
    requires Open(g, Neighbour(cur, i)) ==> Manhattan(Neighbour(cur, i), target) < INT_MAX
    ensures var kept := Kept(cur, target, BestAmong(g, cur, target, i));
      var q := Neighbour(cur, i);
      Kept(cur, target, BestAmong(g, cur, target, i + 1)) ==
        if Open(g, q) && Manhattan(q, target) < kept.2 then (q.row, q.col, Manhattan(q, target)) else kept
  {
  }

  /**
   * One turn of the neighbour loop for direction i, in the finder's own
   * terms: with `kept` the (nextRow, nextCol, minDist) after the earlier
   * directions, `passes` the bounds and wall test of the new cell and `dist`
   * its distance, the kept triple changes to the new cell exactly when it
   * passes and is strictly nearer.
   */
  lemma ChooseTurn(m: Maze, cur: Pos, target: Pos, i: nat, kept: (int, int, int), newRow: int, newCol: int, passes: bool, dist: int)
    requires m.Valid() && m.rows + m.cols <= INT_MAX
    requires InBounds(m.grid, target) && i < 4
    requires kept == Kept(cur, target, BestAmong(m.grid, cur, target, i))
    requires newRow == cur.row + DY[i] && newCol == cur.col + DX[i]
    requires passes == (IsValid(m, newRow, newCol) && m.grid[newRow][newCol] != '#')
    requires dist == Abs(newRow - target.row) + Abs(newCol - target.col)
    ensures Kept(cur, target, BestAmong(m.grid, cur, target, i + 1)) ==
      if passes && dist < kept.2 then (newRow, newCol, dist) else kept
  {
    var q := Neighbour(cur, i);
    if Open(m.grid, q) {
      DistanceBelowMax(m.grid, q, target);
    }
    KeptAfter(m.grid, cur, target, i);
  }

  /**
   * The neighbour loop of findPath: try the four directions in order and
   * keep the open neighbour with the strictly smallest distance so far;
   * (-1, -1) when no neighbour is open.
   */
  method ChooseNext(m: Maze, currRow: int, currCol: int, targetRow: int, targetCol: int)
    returns (nextRow: int, nextCol: int)
    requires m.Valid()
    requires m.rows + m.cols <= INT_MAX
    requires InBounds(m.grid, Pos(targetRow, targetCol))
    ensures (nextRow, nextCol) == Coords(Step(m.grid, Pos(currRow, currCol), Pos(targetRow, targetCol)))
  {
    ghost var g, cur, target := m.grid, Pos(currRow, currCol), Pos(targetRow, targetCol);
    var minDist := INT_MAX;
    nextRow, nextCol := -1, -1;
    for i := 0 to 4
      invariant (nextRow, nextCol, minDist) == Kept(cur, target, BestAmong(g, cur, target, i))
    {
      var newRow := currRow + DY[i];
      var newCol := currCol + DX[i];
      ChooseTurn(m, cur, target, i, (nextRow, nextCol, minDist), newRow, newCol,
        IsValid(m, newRow, newCol) && m.grid[newRow][newCol] != '#', Abs(newRow - targetRow) + Abs(newCol - targetCol));
      if IsValid(m, newRow, newCol) && m.GetGrid()[newRow][newCol] != '#' {
        var dist := Abs(newRow - targetRow) + Abs(newCol - targetCol);
        if dist < minDist {
          minDist := dist;
          nextRow := newRow;
          nextCol := newCol;
        }
      }
    }
  }

  /**
   * The stepping loop of findPath: from the start, move to the chosen
   * neighbour and append its letter until the target is reached, no
   * neighbour is open, or `fuel` steps have been taken.
   */
  method WalkFrom(m: Maze, startRow: int, startCol: int, targetRow: int, targetCol: int, fuel: nat)
    returns (r: Outcome)
    requires m.Valid()
    requires m.rows + m.cols <= INT_MAX
    requires InBounds(m.grid, Pos(targetRow, targetCol))
    ensures r == Walk(m.grid, Pos(startRow, startCol), Pos(targetRow, targetCol), fuel, [])
  {
    ghost var g, target := m.grid, Pos(targetRow, targetCol);
    ghost var result := Walk(g, Pos(startRow, startCol), target, fuel, []);
    var path: string := [];
    var currRow, currCol := startRow, startCol;
    var left := fuel;
    while currRow != targetRow || currCol != targetCol
      invariant Resumes(g, Pos(currRow, currCol), target, left, path, result)
      decreases left
    {
      if left == 0 {
        return OutOfFuel(path, Pos(currRow, currCol));
      }
      var nextRow, nextCol := ChooseNext(m, currRow, currCol, targetRow, targetCol);
      // The check the original lacks: without it the walk moves to (-1, -1).
      if nextRow == -1 {
        WalkStuck(g, Pos(currRow, currCol), target, left, path, result);
        return Stuck(path, Pos(currRow, currCol));
      }
      match Encode(Pos(currRow, currCol), Pos(nextRow, nextCol)) {
        case Some(t) =>
          WalkAdvance(g, Pos(currRow, currCol), target, left, path, Pos(nextRow, nextCol), result);
          path := path + [t];
        case None =>
          WalkAdvance(g, Pos(currRow, currCol), target, left, path, Pos(nextRow, nextCol), result);
          assert false;
      }
      currRow, currCol := nextRow, nextCol;
      left := left - 1;
    }
    return Found(path);
  }

  /**
   * findPath: scan for the markers, report a missing one, otherwise walk
   * from the start towards the target with at most `fuel` steps.
   */
  method FindPath(m: Maze, fuel: nat) returns (r: Outcome)
    requires m.Valid()
    requires m.rows + m.cols <= INT_MAX
    ensures r == Route(m.grid, fuel)
  {
    var startRow, startCol, targetRow, targetCol := FindMarkers(m);
    LastScannedSpec(m.grid, 'S', |m.grid|, 0);
    LastScannedSpec(m.grid, 'X', |m.grid|, 0);
    if startRow == -1 || startCol == -1 || targetRow == -1 || targetCol == -1 {
      return MarkerNotFound;
    }
    assert Marker(m.grid, 'S') == Some(Pos(startRow, startCol));
    assert Marker(m.grid, 'X') == Some(Pos(targetRow, targetCol));
    r := WalkFrom(m, startRow, startCol, targetRow, targetCol, fuel);
  }
}
