/**
 * The stepping loop of findPath exactly as written, without the check for a
 * cell with no open neighbour. There the loop keeps the placeholder
 * (-1, -1) as the next cell: from row 0 that placeholder reads as a step up,
 * and from (-1, -1) itself every neighbour lies outside the grid, so the
 * loop never reaches the target and never ends. PathFinder.Walk stops with
 * Stuck instead.
 */
module Findings {
  import opened MazeGrid
  import opened PathFinder

  /** The cell the unguarded loop moves to: the greedy step, or (-1, -1) when there is none. */
  function WrittenNext(g: Grid, cur: Pos, target: Pos): (next: Pos)
    ensures Stranded(g, cur) <==> next == Pos(-1, -1)
  {
    StepMoves(g, cur, target);
    match Step(g, cur, target)
    case None => Pos(-1, -1)
    case Some(p) => p
  }

  /**
   * At most `n` turns of the unguarded loop from `cur`, with `path`
   * emitted so far: the cell reached and the path emitted.
   */
  function WrittenLoop(g: Grid, cur: Pos, target: Pos, n: nat, path: string): (Pos, string)
    decreases n
  {
    if cur == target || n == 0 then (cur, path)
    else
      var next := WrittenNext(g, cur, target);
      var path' := match Encode(cur, next) case Some(t) => path + [t] case None => path;
      WrittenLoop(g, next, target, n - 1, path')
  }

  /** Once at (-1, -1) the unguarded loop stays there and emits nothing more. */
  lemma {:induction false} WrittenLoopParked(g: Grid, target: Pos, n: nat, path: string)
    requires target != Pos(-1, -1)
    ensures WrittenLoop(g, Pos(-1, -1), target, n, path) == (Pos(-1, -1), path)
    decreases n
  {
    if n > 0 {
      var p := Pos(-1, -1);
      assert Stranded(g, p) by {
        forall k | 0 <= k < 4
          ensures !Open(g, Neighbour(p, k))
        {
        }
      }
      assert WrittenNext(g, p, target) == p;
      WrittenLoopParked(g, target, n - 1, path);
    }
  }

  /**
   * On a walled-in start the unguarded loop emits "u", a move off the grid,
   * then stays at (-1, -1) for every later turn: it never reaches the target.
   */
  lemma WrittenLoopSpins(n: nat)
    requires n >= 1
    ensures WrittenLoop(["S#X"], Pos(0, 0), Pos(0, 2), n, []) == (Pos(-1, -1), "u")
    ensures !Walks(["S#X"], Pos(0, 0), "u")
  {
    var g: Grid := ["S#X"];
    assert Step(g, Pos(0, 0), Pos(0, 2)) == None;
    assert WrittenNext(g, Pos(0, 0), Pos(0, 2)) == Pos(-1, -1);
    assert Encode(Pos(0, 0), Pos(-1, -1)) == Some('u');
    assert [] + ['u'] == "u";
    WrittenLoopParked(g, Pos(0, 2), n - 1, "u");
    assert Replay(Pos(0, 0), "u") == Pos(-1, 0);
  }

  /** One turn of the unguarded loop where a neighbour is open. */
  lemma WrittenLoopStep(g: Grid, cur: Pos, target: Pos, n: nat, path: string, next: Pos)
    requires cur != target && n > 0 && Step(g, cur, target) == Some(next)
    ensures Encode(cur, next).Some?
    ensures WrittenLoop(g, cur, target, n, path) == WrittenLoop(g, next, target, n - 1, path + [Encode(cur, next).value])
  {
    StepMoves(g, cur, target);
  }

  /**
   * Where the loop with the check does not get stuck, the unguarded loop
   * behaves the same: the check changes only walks that reach a cell with
   * no open neighbour.
   */
  lemma {:induction false} WrittenLoopAgrees(g: Grid, cur: Pos, target: Pos, n: nat, path: string)
    ensures Walk(g, cur, target, n, path).Found? ==>
      WrittenLoop(g, cur, target, n, path) == (target, Walk(g, cur, target, n, path).path)
    ensures Walk(g, cur, target, n, path).OutOfFuel? ==>
      WrittenLoop(g, cur, target, n, path) == (Walk(g, cur, target, n, path).at, Walk(g, cur, target, n, path).path)
    decreases n
  {
    if cur != target && n > 0 {
      match Step(g, cur, target)
      case None =>
      case Some(next) =>
        var r := Walk(g, cur, target, n, path);
        WalkAdvance(g, cur, target, n, path, next, r);
        WrittenLoopStep(g, cur, target, n, path, next);
        var path' := path + [Encode(cur, next).value];
        WrittenLoopAgrees(g, next, target, n - 1, path');
    }
  }

  /** The unguarded loop, given k turns from `cur`, ends at (-1, -1). */
  predicate Parks(g: Grid, cur: Pos, target: Pos, k: nat, path: string) {
    WrittenLoop(g, cur, target, k, path).0 == Pos(-1, -1)
  }

  /** From a cell off the target with no open neighbour, the unguarded loop leaves for (-1, -1) and stays. */
  lemma WrittenLoopLeaves(g: Grid, cur: Pos, target: Pos, k: nat, path: string)
    requires InBounds(g, target) && cur != target && k > 0 && Step(g, cur, target).None?
    ensures Parks(g, cur, target, k, path)
  {
    var p := Pos(-1, -1);
    var path' := match Encode(cur, p) case Some(t) => path + [t] case None => path;
    assert WrittenLoop(g, cur, target, k, path) == WrittenLoop(g, p, target, k - 1, path');
    WrittenLoopParked(g, target, k - 1, path');
  }

  /** Parking after one turn of the unguarded loop is parking before it. */
  lemma ParksBack(g: Grid, cur: Pos, target: Pos, k: nat, path: string, next: Pos)
    requires cur != target && k > 0 && Step(g, cur, target) == Some(next)
    requires Encode(cur, next).Some? && Parks(g, next, target, k - 1, path + [Encode(cur, next).value])
    ensures Parks(g, cur, target, k, path)
  {
    WrittenLoopStep(g, cur, target, k, path, next);
  }

  /** The walk with the check from `cur` is stuck: `result` is its outcome and is Stuck. */
  lemma {:induction false} StrandsFrom(g: Grid, cur: Pos, target: Pos, n: nat, extra: nat, path: string, result: Outcome)
    requires InBounds(g, target) && extra >= 1
    requires Resumes(g, cur, target, n, path, result) && result.Stuck?
    ensures Parks(g, cur, target, n + extra, path)
    decreases n
  {
    assert cur != target && n > 0;
    match Step(g, cur, target)
    case None =>
      WrittenLoopLeaves(g, cur, target, n + extra, path);
    case Some(next) =>
      WalkAdvance(g, cur, target, n, path, next, result);
      var path' := path + [Encode(cur, next).value];
      StrandsFrom(g, next, target, n - 1, extra, path', result);
      ParksBack(g, cur, target, n + extra, path, next);
  }

  /**
   * Where the loop with the check gets stuck, the unguarded loop given any
   * further turn leaves the grid for (-1, -1) and stays there: it never
   * reaches the target.
   */
  lemma WrittenLoopStrands(g: Grid, cur: Pos, target: Pos, n: nat, extra: nat, path: string)
    requires InBounds(g, target) && extra >= 1
    requires Walk(g, cur, target, n, path).Stuck?
    ensures WrittenLoop(g, cur, target, n + extra, path).0 == Pos(-1, -1)
  {
    StrandsFrom(g, cur, target, n, extra, path, Walk(g, cur, target, n, path));
  }
}
