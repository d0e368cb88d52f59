/**
 * The session state of a `Maze` (script.js:133-178, 197-228, 243-271,
 * 318-423, 425-531, 621-732): the player's position, the carved blocks
 * and the flags `solving`, `reseting` and `solved` that decide which
 * operation may start.
 *
 * Each operation that the source runs through `whileAsync` is split at its
 * final `.then`: the method runs the loop to completion, and a separate
 * `...Settled` method performs the closing callback, since other calls may
 * arrive in between.
 */
module Session {
  import opened Optional
  import opened Collections
  import opened Geometry
  import opened Grid
  import Generator
  import opened Search

  /** The options `Maze` reads; a missing one takes its default. */
  datatype Options = Options(gridSize: Option<Point>, startPosition: Option<Point>, targetPosition: Option<Point>)

  function OrElse<T>(o: Option<T>, default: T): T {
    match o
    case Some(v) => v
    case None => default
  }

  /** `gridSize`, by default 20 by 10. */
  function BoundsOf(options: Options): Point {
    OrElse(options.gridSize, Point(20, 10))
  }

  /** `startPosition`, by default the top-left cell. */
  function StartOf(options: Options): Point {
    OrElse(options.startPosition, Point(0, 0))
  }

  /** `targetPosition`, by default `bounds.offset([-1, -1])`. */
  function TargetOf(options: Options): Point {
    OrElse(options.targetPosition, Offset(BoundsOf(options), (-1, -1)))
  }

  /** With no options the maze is 20 by 10 and runs from the top-left to
      the bottom-right corner, both inside the grid. */
  lemma DefaultOptions()
    ensures var o := Options(None, None, None);
      BoundsOf(o) == Point(20, 10) && StartOf(o) == Point(0, 0) && TargetOf(o) == Point(19, 9) &&
      InsideBounds(StartOf(o), BoundsOf(o)) && InsideBounds(TargetOf(o), BoundsOf(o))
  {
  }

  /** A default target is the bottom-right corner of any grid. */
  lemma DefaultTargetIsCorner(options: Options)
    requires options.targetPosition.None? && BoundsOf(options).x > 0 && BoundsOf(options).y > 0
    ensures InsideBounds(TargetOf(options), BoundsOf(options))
    ensures forall p :: InsideBounds(p, BoundsOf(options)) ==> p.x <= TargetOf(options).x && p.y <= TargetOf(options).y
  {
  }

  /** What a call of `movePlayer` does. */
  datatype MoveOutcome = Moved(to: Point) | OffGrid | Blocked

  /** `movePlayer(direction)` from `p`: a move off the grid is refused
      first, then a move through a closed side; any other move goes to the
      neighbour across that side. */
  function Attempt(w: Walls, bounds: Point, p: Point, direction: Side): (r: MoveOutcome)
    requires p in w
    ensures r.Moved? <==> OpenStep(w, bounds, p, Move(p, direction))
    ensures r.Moved? ==> r.to == Move(p, direction)
    ensures r.OffGrid? <==> !InsideBounds(Move(p, direction), bounds)
  {
    SideTowardsMove(p, direction);
    var nextPosition := Offset(p, DELTAS[SideIndex(direction)]);
    if !InsideBounds(nextPosition, bounds) then OffGrid
    else if direction !in w[p] then Blocked
    else Moved(nextPosition)
  }

  /** Across symmetric walls every move can be undone by the opposite key. */
  lemma AttemptReversible(w: Walls, bounds: Point, p: Point, direction: Side)
    requires Symmetric(w, bounds) && p in w && Attempt(w, bounds, p, direction).Moved?
    ensures var q := Attempt(w, bounds, p, direction).to;
      q in w && Attempt(w, bounds, q, Opposite(direction)) == Moved(p)
  {
    OppositeUndoesMove(p, direction);
  }

  /** A sequence of moves that all succeed is a walk through open walls. */
  lemma {:induction false} MovesWalk(w: Walls, bounds: Point, p: Point, directions: seq<Side>)
    requires IsGrid(w, bounds) && InsideBounds(p, bounds)
    ensures var ps := Trace(w, bounds, p, directions); IsWalk(w, bounds, ps) && ps[0] == p
    decreases |directions|
  {
    if directions != [] {
      var r := Attempt(w, bounds, p, directions[0]);
      if r.Moved? {
        MovesWalk(w, bounds, r.to, directions[1..]);
        var rest := Trace(w, bounds, r.to, directions[1..]);
        var ps := [p] + rest;
        forall k | 0 <= k < |ps| - 1 ensures OpenStep(w, bounds, ps[k], ps[k + 1]) {
          if k > 0 {
            assert ps[k] == rest[k - 1] && ps[k + 1] == rest[k];
          }
        }
      } else {
        MovesWalk(w, bounds, p, directions[1..]);
      }
    }
  }

  /** The cells the player occupies along a sequence of key presses,
      refused moves leaving it in place. */
  function Trace(w: Walls, bounds: Point, p: Point, directions: seq<Side>): seq<Point>
    requires IsGrid(w, bounds) && InsideBounds(p, bounds)
    decreases |directions|
  {
    if directions == [] then [p]
    else match Attempt(w, bounds, p, directions[0])
      case Moved(q) => [p] + Trace(w, bounds, q, directions[1..])
      case _ => Trace(w, bounds, p, directions[1..])
  }

  /** A route through open walls, from the last dequeued entry back to the
      start of its search, hits the target through a move exactly when the
      search found the target from elsewhere. */
  lemma RouteHitsTarget(w: Walls, bounds: Point, start: Point, target: Point, last: Trail)
    requires Linked(w, bounds, start, last) && (target in Route(last) ==> last.at == target)
    ensures (exists k :: 0 < k < |Route(last)| && Route(last)[k] == target) <==> last.at == target && start != target
  {
    var r := Route(last);
    if last.at == target && start != target {
      assert last.Via? && r[|r| - 1] == target;
    }
  }

  /** The block layout of `reset` followed by `generate` (script.js:211-224):
      fresh blocks with every wall standing, carved along a spanning tree
      rooted at the start, so that the open walls come in pairs and connect
      every cell. */
  method FreshMaze(bounds: Point, start: Point, rolls: nat -> nat) returns (walls: Walls)
    requires InsideBounds(start, bounds)
    ensures Generator.SpanningTreeOver(bounds, start, ClosedGrid(bounds), walls)
    ensures IsGrid(walls, bounds) && Symmetric(walls, bounds) && Connected(walls, bounds)
  {
    var index;
    ghost var parent;
    walls, index, parent := Generator.Generate(bounds, start, rolls, ClosedGrid(bounds));
  }

  class Maze {
    const bounds: Point
    const startPosition: Point
    const targetPosition: Point
    /** `this.position`: the player's cell. */
    var position: Point
    /** The `open` flags of `this.blocks`. */
    var walls: Walls
    var solving: bool
    var reseting: bool
    var solved: bool
    /** The number of `onSolved()` calls so far. */
    var solvedNotices: nat

    /** The blocks cover the grid with walls carved in pairs, and the start,
        the target and the player lie inside it. */
    ghost predicate Valid()
      reads this
    {
      && IsGrid(walls, bounds) && Symmetric(walls, bounds)
      && InsideBounds(startPosition, bounds) && InsideBounds(targetPosition, bounds)
      && InsideBounds(position, bounds)
    }

    /** `new Maze(options)` (script.js:133-178). The start and the target
        must fall inside the grid: `reset` looks up the target's block and
        `setPlayerPosition` the start's. */
    constructor (options: Options)
      requires InsideBounds(StartOf(options), BoundsOf(options)) && InsideBounds(TargetOf(options), BoundsOf(options))
      ensures bounds == BoundsOf(options) && startPosition == StartOf(options) && targetPosition == TargetOf(options)
      ensures position == startPosition && walls == ClosedGrid(bounds)
      ensures !solving && !reseting && !solved && solvedNotices == 0
      ensures Valid()
    {
      bounds := BoundsOf(options);
      startPosition := StartOf(options);
      targetPosition := TargetOf(options);
      position := StartOf(options);
      walls := ClosedGrid(BoundsOf(options));
      solving, reseting, solved := false, false, false;
      solvedNotices := 0;
    }

    /** `setPlayerPosition(p)` (script.js:261-271): move the player; the
        first arrival on the target sets `solved`, and calls `onSolved`
        unless a solver is replaying its path. */
    method SetPlayerPosition(p: Point)
      requires Valid() && InsideBounds(p, bounds)
      modifies this
      ensures position == p
      ensures solved == (old(solved) || p == targetPosition)
      ensures solvedNotices == old(solvedNotices) + if !old(solved) && p == targetPosition && !solving then 1 else 0
      ensures walls == old(walls) && solving == old(solving) && reseting == old(reseting)
      ensures Valid()
    {
      position := p;
      if !solved && position == targetPosition {
        solved := true;
        if !solving {
          solvedNotices := solvedNotices + 1;
        }
      }
    }

    /** `movePlayer(direction)` (script.js:243-259). */
    method MovePlayer(direction: Side) returns (outcome: MoveOutcome)
      requires Valid()
      modifies this
      ensures walls == old(walls) && solving == old(solving) && reseting == old(reseting)
      ensures outcome == Attempt(walls, bounds, old(position), direction)
      ensures outcome.Moved? ==>
        position == outcome.to && solved == (old(solved) || outcome.to == targetPosition) &&
        solvedNotices == old(solvedNotices) + if !old(solved) && outcome.to == targetPosition && !solving then 1 else 0
      ensures !outcome.Moved? ==> position == old(position) && solved == old(solved) && solvedNotices == old(solvedNotices)
      ensures Valid()
    {
      outcome := Attempt(walls, bounds, position, direction);
      var nextPosition := Offset(position, DELTAS[SideIndex(direction)]);
      if !InsideBounds(nextPosition, bounds) {
        return;
      }
      if direction !in walls[position] {
        return;
      }
      SetPlayerPosition(nextPosition);
    }

    /** `reset()` up to its final callback (script.js:197-224): refused
        while a solver or a reset runs; otherwise it puts the player back
        on the start, clears `solved`, lays out fresh closed blocks and
        carves them with `generate`. */
    method Reset(rolls: nat -> nat) returns (accepted: bool)
      requires Valid()
      modifies this
      ensures accepted <==> !old(solving) && !old(reseting)
      ensures !accepted ==> unchanged(this)
      ensures accepted ==>
        reseting && !solving && !solved && position == startPosition &&
        Generator.SpanningTreeOver(bounds, startPosition, ClosedGrid(bounds), walls) &&
        Connected(walls, bounds) && solvedNotices == old(solvedNotices)
      ensures Valid()
    {
      if solving || reseting {
        return false;
      }
      var carved := FreshMaze(bounds, startPosition, rolls);
      reseting, position, solving, solved, walls := true, startPosition, false, false, carved;
      accepted := true;
    }

    /** The callback `reset` runs once `generate` has settled
        (script.js:224-227). */
    method ResetSettled()
      requires Valid()
      modifies this
      ensures position == startPosition && !reseting
      ensures solved == (old(solved) || startPosition == targetPosition)
      ensures solvedNotices == old(solvedNotices) +
        if !old(solved) && startPosition == targetPosition && !solving then 1 else 0
      ensures walls == old(walls) && solving == old(solving)
      ensures Valid()
    {
      SetPlayerPosition(startPosition);
      reseting := false;
    }

    /** `generateMultipleSolutions()` (script.js:552-596), which no flag
        guards: a second spanning tree carved over the current blocks. Every
        open wall stays open, and the maze stays connected and symmetric. */
    method GenerateMultipleSolutions(draws: nat -> nat -> nat)
      requires Valid()
      modifies this
      ensures Generator.SpanningTreeOver(bounds, startPosition, old(walls), walls)
      ensures forall p :: p in old(walls) ==> p in walls && old(walls)[p] <= walls[p]
      ensures Connected(walls, bounds)
      ensures position == old(position) && solved == old(solved) && solvedNotices == old(solvedNotices)
      ensures solving == old(solving) && reseting == old(reseting)
      ensures Valid()
    {
      var index;
      ghost var parent;
      walls, index, parent := Generator.GenerateMultipleSolutions(bounds, startPosition, draws, walls);
    }

    /** The replay of a solver's `.then` (script.js:394-418), with the
        marking pass left out: walk back from the last dequeued entry, then
        pop the path cell by cell into `setPlayerPosition`. The player
        follows `route`, a walk through open walls. */
    method Replay(last: Trail) returns (ghost route: seq<Point>)
      requires Valid() && solving && Linked(walls, bounds, position, last)
      modifies this
      ensures route == Route(last) && IsWalk(walls, bounds, route) && route[0] == old(position)
      ensures position == last.at
      ensures solved == (old(solved) || exists k :: 0 < k < |route| && route[k] == targetPosition)
      ensures walls == old(walls) && solving && reseting == old(reseting) && solvedNotices == old(solvedNotices)
      ensures Valid()
    {
      route := Route(last);
      RouteIsWalk(walls, bounds, position, last);
      var path := WalkBack(walls, bounds, position, last);
      forall i | 0 <= i < |path| ensures path[i] == route[|route| - 1 - i] {
        assert route[|route| - 1 - i] == Reversed(path)[|path| - 1 - i];
      }
      forall i | 0 <= i < |route| ensures InsideBounds(route[i], bounds) {
        WalkInBounds(walls, bounds, route, i);
      }
      FollowPath(path, route);
    }

    /** The second replay pass: `setPlayerPosition(path.pop())` until the
        path is empty, which takes the player from `route[0]` to the end of
        `route`, one cell at a time. */
    method FollowPath(path: seq<Point>, ghost route: seq<Point>)
      requires Valid() && solving && forall i :: 0 <= i < |route| ==> InsideBounds(route[i], bounds)
      requires |path| < |route| && position == route[|route| - 1 - |path|]
      requires forall i :: 0 <= i < |path| ==> path[i] == route[|route| - 1 - i]
      modifies this
      ensures position == route[|route| - 1]
      ensures solved == (old(solved) || exists k :: |route| - 1 - |path| < k < |route| && route[k] == targetPosition)
      ensures walls == old(walls) && solving && reseting == old(reseting) && solvedNotices == old(solvedNotices)
      ensures Valid()
    {
      var rest := path;
      while |rest| > 0
        invariant Valid() && solving && walls == old(walls) && reseting == old(reseting)
        invariant solvedNotices == old(solvedNotices)
        invariant |rest| <= |path| && position == route[|route| - 1 - |rest|]
        invariant forall i :: 0 <= i < |rest| ==> rest[i] == route[|route| - 1 - i]
        invariant solved == (old(solved) || exists k :: |route| - 1 - |path| < k <= |route| - 1 - |rest| && route[k] == targetPosition)
        decreases |rest|
      {
        var next := rest[|rest| - 1];
        rest := rest[..|rest| - 1];
        SetPlayerPosition(next);
      }
    }

    /** `solveBFS()` up to its final callback (script.js:318-419), searching
        from the player's cell. Refused while a solver or a reset runs;
        otherwise the player ends on the target exactly when it is
        reachable, having walked a shortest route there. */
    method SolveBFS() returns (accepted: bool, ghost route: seq<Point>)
      requires Valid()
      modifies this
      ensures accepted <==> !old(solving) && !old(reseting)
      ensures !accepted ==> unchanged(this)
      ensures accepted ==> walls == old(walls) && reseting == old(reseting)
      ensures accepted ==> Solved(old(position), old(solved), old(solvedNotices), route)
      ensures accepted && position == targetPosition ==>
        Shortest(walls, bounds, old(position), targetPosition, |route| - 1)
      ensures Valid()
    {
      if solving || reseting {
        return false, [];
      }
      solving := true;
      var last, expanded, order := Search.SolveBFS(walls, bounds, position, targetPosition);
      RouteHitsTarget(walls, bounds, position, targetPosition, last);
      route := Replay(last);
      accepted := true;
    }

    /** `solveDFS()` up to its final callback (script.js:425-527). */
    method SolveDFS() returns (accepted: bool, ghost route: seq<Point>)
      requires Valid()
      modifies this
      ensures accepted <==> !old(solving) && !old(reseting)
      ensures !accepted ==> unchanged(this)
      ensures accepted ==> walls == old(walls) && reseting == old(reseting)
      ensures accepted ==> Solved(old(position), old(solved), old(solvedNotices), route)
      ensures Valid()
    {
      if solving || reseting {
        return false, [];
      }
      solving := true;
      var last, expanded, order := Search.SolveDFS(walls, bounds, position, targetPosition);
      RouteHitsTarget(walls, bounds, position, targetPosition, last);
      route := Replay(last);
      accepted := true;
    }

    /** `solveAStar()` up to its final callback (script.js:621-728). */
    method SolveAStar() returns (accepted: bool, ghost route: seq<Point>)
      requires Valid()
      modifies this
      ensures accepted <==> !old(solving) && !old(reseting)
      ensures !accepted ==> unchanged(this)
      ensures accepted ==> walls == old(walls) && reseting == old(reseting)
      ensures accepted ==> Solved(old(position), old(solved), old(solvedNotices), route)
      ensures Valid()
    {
      if solving || reseting {
        return false, [];
      }
      solving := true;
      var last, expanded, order := Search.SolveAStar(walls, bounds, position, targetPosition);
      RouteHitsTarget(walls, bounds, position, targetPosition, last);
      route := Replay(last);
      accepted := true;
    }

    /** What an accepted solver leaves besides the walls and `reseting`,
        which it keeps: `solving` set; the player walked `route` through
        open walls from where it stood and ends on the target exactly when
        the target is reachable; `solved` is set by arriving on the target,
        and `onSolved` is not called. */
    ghost predicate Solved(from: Point, wasSolved: bool, notices: nat, route: seq<Point>)
      reads this
    {
      && solving
      && IsWalk(walls, bounds, route) && route[0] == from && route[|route| - 1] == position
      && (position == targetPosition <==> Reachable(walls, bounds, from, targetPosition))
      && solved == (wasSolved || (position == targetPosition && from != targetPosition))
      && solvedNotices == notices
    }

    /** The last callback of every solver (script.js:420-422, 528-530,
        729-731). */
    method SolveSettled()
      requires Valid()
      modifies this
      ensures !solving
      ensures position == old(position) && walls == old(walls) && solved == old(solved)
      ensures reseting == old(reseting) && solvedNotices == old(solvedNotices)
      ensures Valid()
    {
      solving := false;
    }
  }
}
