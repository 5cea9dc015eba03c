/**
 * Concrete mazes and what the route finder answers for them, including the
 * two ways the greedy rule fails: a start walled in, and two cells that send
 * the walk back and forth forever.
 */
module Scenarios {
  import opened MazeGrid
  import opened PathFinder
  import opened PathProperties

  /** Start and target a diagonal apart, a wall on the right edge. */
  const DIAGONAL: Grid := ["S.#", "..#", "#.X"]
  /** The target directly below the start. */
  const STACKED: Grid := ["S", "X"]
  /** A wall between the start and the target. */
  const WALLED: Grid := ["S#X"]
  /** A grid with a start but no target. */
  const NO_TARGET: Grid := ["S.."]
  /** Two start markers; the later one is used. */
  const TWO_STARTS: Grid := ["S.S.X"]
  /** The only open neighbour of the start leads back to it. */
  const PENDULUM: Grid := ["X#.S"]

  /**
   * From the start of DIAGONAL, down and right are equally close to the
   * target; down is tried first and wins the tie.
   */
  lemma DiagonalTie()
    ensures Open(DIAGONAL, Pos(1, 0)) && Open(DIAGONAL, Pos(0, 1))
    ensures Manhattan(Pos(1, 0), Pos(2, 2)) == Manhattan(Pos(0, 1), Pos(2, 2))
    ensures Step(DIAGONAL, Pos(0, 0), Pos(2, 2)) == Some(Pos(1, 0))
  {
  }

  lemma StackedStep()
    ensures Step(STACKED, Pos(0, 0), Pos(1, 0)) == Some(Pos(1, 0))
  {
  }

  /** With the target right below the start, the finder answers "d". */
  lemma StackedRoute(fuel: nat)
    requires fuel >= 1
    ensures Route(STACKED, fuel) == Found("d")
  {
    assert LastScanned(STACKED, 'S', 2, 0) == Some(Pos(0, 0));
    assert LastScanned(STACKED, 'X', 2, 0) == Some(Pos(1, 0));
    assert Route(STACKED, fuel) == Walk(STACKED, Pos(0, 0), Pos(1, 0), fuel, []);
    StackedStep();
    WalkBack(STACKED, Pos(0, 0), Pos(1, 0), 'd', Pos(1, 0), fuel, [], Found("d"));
  }

  /** A start whose only neighbour is a wall leaves the walk stuck at once. */
  lemma WalledRoute(fuel: nat)
    requires fuel >= 1
    ensures Route(WALLED, fuel) == Stuck([], Pos(0, 0))
  {
    assert LastScanned(WALLED, 'S', 0, 1) == Some(Pos(0, 0));
    assert LastScanned(WALLED, 'S', 1, 0) == Some(Pos(0, 0));
    assert LastScanned(WALLED, 'X', 1, 0) == Some(Pos(0, 2));
    assert Step(WALLED, Pos(0, 0), Pos(0, 2)) == None;
  }

  /** Without a target marker the finder reports the missing marker. */
  lemma NoTargetRoute(fuel: nat)
    ensures Route(NO_TARGET, fuel) == MarkerNotFound
  {
    assert LastScanned(NO_TARGET, 'X', 0, 1) == None;
    assert LastScanned(NO_TARGET, 'X', 0, 2) == None;
    assert LastScanned(NO_TARGET, 'X', 1, 0) == None;
  }

  /** Of two start markers in one row the later one is the start. */
  lemma TwoStartsMarker()
    ensures Marker(TWO_STARTS, 'S') == Some(Pos(0, 2))
  {
    assert LastScanned(TWO_STARTS, 'S', 0, 3) == Some(Pos(0, 2));
    assert LastScanned(TWO_STARTS, 'S', 1, 0) == Some(Pos(0, 2));
  }

  /** From the start of PENDULUM the only open neighbour is to the left. */
  lemma PendulumLeft()
    ensures Step(PENDULUM, Pos(0, 3), Pos(0, 0)) == Some(Pos(0, 2))
  {
  }

  /** From there the wall blocks the way on, and the step goes back right. */
  lemma PendulumRight()
    ensures Step(PENDULUM, Pos(0, 2), Pos(0, 0)) == Some(Pos(0, 3))
  {
  }

  /**
   * On PENDULUM the start steps left onto the only open cell, which steps
   * back right: no budget is ever enough.
   */
  lemma PendulumRoute(fuel: nat)
    ensures Route(PENDULUM, fuel).OutOfFuel?
  {
    assert LastScanned(PENDULUM, 'S', 1, 0) == Some(Pos(0, 3));
    assert LastScanned(PENDULUM, 'X', 1, 0) == Some(Pos(0, 0));
    assert Route(PENDULUM, fuel) == Walk(PENDULUM, Pos(0, 3), Pos(0, 0), fuel, []);
    PendulumLeft();
    PendulumRight();
    Oscillates(PENDULUM, Pos(0, 3), Pos(0, 2), Pos(0, 0), fuel, []);
  }
}
