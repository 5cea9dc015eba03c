/**
 * What the route finder promises about its steps, its paths and its
 * outcomes, proved about the specification functions of PathFinder (and so,
 * through FindPath's postcondition, about the method too).
 */
module PathProperties {
  import opened MazeGrid
  import opened PathFinder

  // ---------------------------------------------------------------------
  // Steps

  /**
   * Ties go to the earlier direction: when an earlier open neighbour is as
   * close to the target as a later one, the step never takes the later one.
   */
  lemma TieGoesToEarlier(g: Grid, cur: Pos, target: Pos, j: nat, k: nat)
    requires j < k < 4
    requires Open(g, Neighbour(cur, j)) && Open(g, Neighbour(cur, k))
    requires Manhattan(Neighbour(cur, j), target) == Manhattan(Neighbour(cur, k), target)
    ensures Step(g, cur, target) != Some(Neighbour(cur, k))
  {
    StepSpec(g, cur, target);
  }

  /**
   * A step goes to an open neighbour that no open neighbour beats on
   * distance to the target.
   */
  lemma StepIsClosest(g: Grid, cur: Pos, target: Pos)
    requires Step(g, cur, target).Some?
    ensures Open(g, Step(g, cur, target).value)
    ensures forall j :: 0 <= j < 4 && Open(g, Neighbour(cur, j)) ==>
      Manhattan(Step(g, cur, target).value, target) <= Manhattan(Neighbour(cur, j), target)
  {
    BestAmongSpec(g, cur, target, 4);
  }

  // ---------------------------------------------------------------------
  // Paths

  lemma ReplayAppend(p: Pos, path: string, t: char)
    ensures Replay(p, path + [t]) == Move(Replay(p, path), t)
  {
    assert (path + [t])[..|path|] == path;
  }

  /** Extending a walk by a move into an open cell keeps it a walk. */
  lemma WalksAppend(g: Grid, start: Pos, path: string, t: char)
    requires Walks(g, start, path) && t in TOKENS
    requires Open(g, Move(Replay(start, path), t))
    ensures Walks(g, start, path + [t])
    ensures Replay(start, path + [t]) == Move(Replay(start, path), t)
  {
    ReplayAppend(start, path, t);
    assert (path + [t])[..|path|] == path;
  }

  /** A walk is made of the letters u, d, l and r only. */
  lemma {:induction false} WalksTokens(g: Grid, start: Pos, path: string)
    requires Walks(g, start, path)
    ensures forall i :: 0 <= i < |path| ==> path[i] in TOKENS
    decreases |path|
  {
    if path != [] {
      var init := path[..|path| - 1];
      WalksTokens(g, start, init);
      forall i | 0 <= i < |path|
        ensures path[i] in TOKENS
      {
        if i < |path| - 1 {
          assert path[i] == init[i];
        }
      }
    }
  }

  /**
   * What an outcome of the stepping loop from `cur` (reached from `start` by
   * `path`) with `fuel` steps left may be: the emitted path extends `path`
   * by at most `fuel` letters, stays on open cells, and replays to where the
   * loop ended; `Found` ends on the target, `Stuck` on a cell other than the
   * target with no open neighbour, `OutOfFuel` after exactly `fuel` more
   * steps.
   */
  ghost predicate SoundOutcome(g: Grid, start: Pos, cur: Pos, target: Pos, fuel: nat, path: string, r: Outcome) {
    !r.MarkerNotFound? && path <= r.path && |r.path| <= |path| + fuel && Walks(g, start, r.path) &&
    (r.Found? ==> Replay(start, r.path) == target && (cur != target ==> |r.path| > |path|)) &&
    (r.Stuck? ==> Replay(start, r.path) == r.at && r.at != target && Stranded(g, r.at)) &&
    (r.OutOfFuel? ==> Replay(start, r.path) == r.at && r.at != target && |r.path| == |path| + fuel)
  }

  /** One step of the loop keeps the outcome of the rest of the walk sound. */
  lemma SoundAfterStep(g: Grid, start: Pos, cur: Pos, target: Pos, fuel: nat, path: string, t: char, r: Outcome)
    requires cur != target && fuel > 0
    requires SoundOutcome(g, start, Move(cur, t), target, fuel - 1, path + [t], r)
    ensures SoundOutcome(g, start, cur, target, fuel, path, r)
  {
    assert path <= path + [t];
  }

  /** A walk that starts on the target or without fuel ends where it stands. */
  lemma WalkSoundHalt(g: Grid, start: Pos, cur: Pos, target: Pos, fuel: nat, path: string)
    requires Walks(g, start, path) && Replay(start, path) == cur
    requires cur == target || fuel == 0
    ensures SoundOutcome(g, start, cur, target, fuel, path, Walk(g, cur, target, fuel, path))
  {
  }

  /** A walk from a cell with no open neighbour is stuck there. */
  lemma WalkSoundStuck(g: Grid, start: Pos, cur: Pos, target: Pos, fuel: nat, path: string)
    requires Walks(g, start, path) && Replay(start, path) == cur
    requires cur != target && fuel > 0 && Step(g, cur, target).None?
    ensures SoundOutcome(g, start, cur, target, fuel, path, Walk(g, cur, target, fuel, path))
  {
    StepMoves(g, cur, target);
  }

  /** A sound outcome of the walk from the next cell is a sound outcome of the walk from `cur`. */
  lemma WalkSoundStep(g: Grid, start: Pos, cur: Pos, target: Pos, fuel: nat, path: string, next: Pos)
    requires cur != target && fuel > 0 && Step(g, cur, target) == Some(next)
    requires Encode(cur, next).Some?
    requires var path' := path + [Encode(cur, next).value];
      SoundOutcome(g, start, next, target, fuel - 1, path', Walk(g, next, target, fuel - 1, path'))
    ensures SoundOutcome(g, start, cur, target, fuel, path, Walk(g, cur, target, fuel, path))
  {
    var r := Walk(g, cur, target, fuel, path);
    WalkAdvance(g, cur, target, fuel, path, next, r);
    StepMoves(g, cur, target);
    SoundAfterStep(g, start, cur, target, fuel, path, Encode(cur, next).value, r);
  }

  /** Every outcome of the stepping loop is sound in the sense above. */
  lemma {:induction false} WalkSound(g: Grid, start: Pos, cur: Pos, target: Pos, fuel: nat, path: string)
    requires Walks(g, start, path) && Replay(start, path) == cur
    ensures SoundOutcome(g, start, cur, target, fuel, path, Walk(g, cur, target, fuel, path))
    decreases fuel
  {
    if cur == target || fuel == 0 {
      WalkSoundHalt(g, start, cur, target, fuel, path);
    } else {
      StepMoves(g, cur, target);
      match Step(g, cur, target)
      case None =>
        WalkSoundStuck(g, start, cur, target, fuel, path);
      case Some(next) =>
        var t := Encode(cur, next).value;
        WalksAppend(g, start, path, t);
        WalkSound(g, start, next, target, fuel - 1, path + [t]);
        WalkSoundStep(g, start, cur, target, fuel, path, next);
    }
  }

  /**
   * One step of the walk, read backwards: when the step from `cur` goes to
   * `next` and appends `t`, the walk from `cur` ends as the walk from
   * `next` with one unit of fuel less and `t` appended.
   */
  lemma WalkBack(g: Grid, cur: Pos, next: Pos, t: char, target: Pos, fuel: nat, path: string, r: Outcome)
    requires cur != target && fuel > 0 && Step(g, cur, target) == Some(next) && Encode(cur, next) == Some(t)
    requires Resumes(g, next, target, fuel - 1, path + [t], r)
    ensures Resumes(g, cur, target, fuel, path, r)
  {
  }

  /**
   * Giving the loop more fuel does not change a result it reached without
   * running out: the bound only cuts off walks that the original would
   * continue.
   */
  lemma {:induction false} MoreFuel(g: Grid, cur: Pos, target: Pos, fuel: nat, more: nat, path: string)
    requires fuel <= more
    requires !Walk(g, cur, target, fuel, path).OutOfFuel?
    ensures Walk(g, cur, target, more, path) == Walk(g, cur, target, fuel, path)
    decreases fuel
  {
    if cur != target && fuel > 0 {
      StepMoves(g, cur, target);
      match Step(g, cur, target)
      case None =>
      case Some(next) =>
        var path' := path + [Encode(cur, next).value];
        assert Walk(g, cur, target, fuel, path) == Walk(g, next, target, fuel - 1, path');
        assert Walk(g, cur, target, more, path) == Walk(g, next, target, more - 1, path');
        MoreFuel(g, next, target, fuel - 1, more - 1, path');
    }
  }

  /**
   * Two cells, neither the target, whose steps lead to each other trap the
   * walk: it swings between them until the fuel runs out, whatever the fuel.
   */
  lemma {:induction false} Oscillates(g: Grid, a: Pos, b: Pos, target: Pos, fuel: nat, path: string)
    requires a != target && b != target
    requires Step(g, a, target) == Some(b) && Step(g, b, target) == Some(a)
    ensures Walk(g, a, target, fuel, path).OutOfFuel?
    decreases fuel
  {
    if fuel > 0 {
      StepMoves(g, a, target);
      var path' := path + [Encode(a, b).value];
      assert Walk(g, a, target, fuel, path) == Walk(g, b, target, fuel - 1, path');
      Oscillates(g, b, a, target, fuel - 1, path');
    }
  }

  // ---------------------------------------------------------------------
  // Queries

  /** A grid without 'S' or without 'X' gives MarkerNotFound, and only such a grid does. */
  lemma RouteMissingMarker(g: Grid, fuel: nat)
    ensures Route(g, fuel) == MarkerNotFound <==> NoMarker(g, 'S') || NoMarker(g, 'X')
  {
    MarkerSpec(g, 'S');
    MarkerSpec(g, 'X');
    match (Marker(g, 'S'), Marker(g, 'X'))
    case (Some(s), Some(x)) =>
      WalkSound(g, s, s, x, fuel, []);
    case _ =>
  }

  /**
   * With start s (the last 'S') and target x (the last 'X'): s and x differ;
   * a found path is non-empty, walks only through open cells and leads from
   * s to x; a stuck walk ends where no neighbour is open; and no outcome
   * holds a path longer than the fuel.
   */
  lemma RouteSound(g: Grid, fuel: nat, s: Pos, x: Pos)
    requires IsLastMarker(g, 'S', s) && IsLastMarker(g, 'X', x)
    ensures s != x
    ensures var r := Route(g, fuel);
      !r.MarkerNotFound? && Walks(g, s, r.path) && |r.path| <= fuel &&
      (r.Found? ==> |r.path| >= 1 && Replay(s, r.path) == x) &&
      (r.Stuck? ==> Replay(s, r.path) == r.at && r.at != x && Stranded(g, r.at)) &&
      (r.OutOfFuel? ==> Replay(s, r.path) == r.at && |r.path| == fuel)
  {
    MarkerSpec(g, 'S');
    MarkerSpec(g, 'X');
    assert Route(g, fuel) == Walk(g, s, x, fuel, []);
    WalkSound(g, s, s, x, fuel, []);
  }
}
