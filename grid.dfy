/**
 * The carved grid: the `open` flags of every block, walks through open
 * walls, and `getAdjacents` (script.js:185, 230-241).
 */
module Grid {
  import opened Optional
  import opened Geometry
  import opened Collections

  /** The open sides of every block (`block.open[side] == true`), keyed by
      the block's position. */
  type Walls = map<Point, set<Side>>

  /** Every in-bounds cell has a block, and nothing else does. */
  predicate IsGrid(w: Walls, bounds: Point) {
    w.Keys == AllCells(bounds)
  }

  /** The freshly created blocks of `reset`: every wall standing (script.js:185, 212-218). */
  function ClosedGrid(bounds: Point): (w: Walls)
    ensures IsGrid(w, bounds)
    ensures forall p :: p in w ==> w[p] == {}
  {
    map p | p in AllCells(bounds) :: {}
  }

  /** A move from `a` to the in-bounds cell `b` through an open side of `a`:
      the test every search applies before it queues a neighbour. */
  predicate OpenStep(w: Walls, bounds: Point, a: Point, b: Point) {
    InsideBounds(b, bounds) && a in w &&
    match SideTowards(a, b)
    case Some(s) => s in w[a]
    case None => false
  }

  lemma OpenStepThrough(w: Walls, bounds: Point, a: Point, s: Side)
    requires a in w && s in w[a] && InsideBounds(Move(a, s), bounds)
    ensures OpenStep(w, bounds, a, Move(a, s))
  {
    SideTowardsMove(a, s);
  }

  /** Walls are carved in pairs: an open side leads to an in-bounds block
      whose opposite side is open too. */
  ghost predicate Symmetric(w: Walls, bounds: Point) {
    forall p, s {:trigger Move(p, s)} :: p in w && s in w[p] ==>
      InsideBounds(Move(p, s), bounds) && Move(p, s) in w && Opposite(s) in w[Move(p, s)]
  }

  /** A sequence of cells that starts in bounds and takes only open steps. */
  ghost predicate IsWalk(w: Walls, bounds: Point, ps: seq<Point>) {
    |ps| > 0 && InsideBounds(ps[0], bounds) &&
    forall i :: 0 <= i < |ps| - 1 ==> OpenStep(w, bounds, ps[i], ps[i + 1])
  }

  ghost predicate Reachable(w: Walls, bounds: Point, a: Point, b: Point) {
    exists ps :: IsWalk(w, bounds, ps) && ps[0] == a && ps[|ps| - 1] == b
  }

  /** Every in-bounds cell can be walked to from every other. */
  ghost predicate Connected(w: Walls, bounds: Point) {
    forall a, b :: InsideBounds(a, bounds) && InsideBounds(b, bounds) ==> Reachable(w, bounds, a, b)
  }

  lemma WalkInBounds(w: Walls, bounds: Point, ps: seq<Point>, i: nat)
    requires IsWalk(w, bounds, ps) && i < |ps|
    ensures InsideBounds(ps[i], bounds)
  {
    if i > 0 {
      assert OpenStep(w, bounds, ps[i - 1], ps[i]);
    }
  }

  /** Across symmetric walls a walk can be retraced backwards. */
  lemma ReversedWalk(w: Walls, bounds: Point, ps: seq<Point>)
    requires Symmetric(w, bounds) && IsWalk(w, bounds, ps)
    ensures IsWalk(w, bounds, Reversed(ps))
  {
    var rs := Reversed(ps);
    WalkInBounds(w, bounds, ps, |ps| - 1);
    forall i | 0 <= i < |rs| - 1 ensures OpenStep(w, bounds, rs[i], rs[i + 1]) {
      var a, b := ps[|ps| - 2 - i], ps[|ps| - 1 - i];
      assert OpenStep(w, bounds, a, b);
      var s := SideTowards(a, b).value;
      OppositeUndoesMove(a, s);
      WalkInBounds(w, bounds, ps, |ps| - 2 - i);
      OpenStepThrough(w, bounds, b, Opposite(s));
    }
  }

  /** Two walks that meet can be joined into one. */
  lemma JoinedWalk(w: Walls, bounds: Point, ps: seq<Point>, qs: seq<Point>)
    requires IsWalk(w, bounds, ps) && IsWalk(w, bounds, qs) && ps[|ps| - 1] == qs[0]
    ensures IsWalk(w, bounds, ps + qs[1..])
  {
    var js := ps + qs[1..];
    forall i | 0 <= i < |js| - 1 ensures OpenStep(w, bounds, js[i], js[i + 1]) {
      if i < |ps| - 1 {
        assert js[i] == ps[i] && js[i + 1] == ps[i + 1];
      } else {
        assert js[i] == qs[i - |ps| + 1] && js[i + 1] == qs[i - |ps| + 2];
      }
    }
  }

  /** Reachability is symmetric and transitive when the walls are. */
  lemma ReachableThrough(w: Walls, bounds: Point, a: Point, m: Point, b: Point)
    requires Symmetric(w, bounds) && Reachable(w, bounds, m, a) && Reachable(w, bounds, m, b)
    ensures Reachable(w, bounds, a, b)
  {
    var ps :| IsWalk(w, bounds, ps) && ps[0] == m && ps[|ps| - 1] == a;
    var qs :| IsWalk(w, bounds, qs) && qs[0] == m && qs[|qs| - 1] == b;
    ReversedWalk(w, bounds, ps);
    var rs := Reversed(ps);
    JoinedWalk(w, bounds, rs, qs);
    var js := rs + qs[1..];
    assert js[0] == a;
    assert js[|js| - 1] == b;
  }

  /** A neighbour as `getAdjacents` builds it: the offset point, tagged with
      the side taken and the side that leads back. */
  datatype Adjacent = Adjacent(at: Point, side: Side, oppositeSide: Side)

  /** `a` is an in-bounds, unvisited neighbour of `point`, correctly tagged. */
  predicate IsCandidate(point: Point, bounds: Point, visited: set<Point>, a: Adjacent) {
    a.at == Move(point, a.side) && a.oppositeSide == Opposite(a.side) &&
    InsideBounds(a.at, bounds) && a.at !in visited
  }

  /** The first `i` side-table entries have been scanned: `adjacents` holds,
      in table order, the candidates among them and every one of them. */
  ghost predicate ScannedSides(point: Point, bounds: Point, visited: set<Point>, adjacents: seq<Adjacent>, i: nat) {
    && (forall k :: 0 <= k < |adjacents| ==>
          IsCandidate(point, bounds, visited, adjacents[k]) && SideIndex(adjacents[k].side) < i)
    && (forall j :: 0 <= j < i && j < |SIDES| && InsideBounds(Move(point, SIDES[j]), bounds) && Move(point, SIDES[j]) !in visited ==>
          exists k :: 0 <= k < |adjacents| && adjacents[k].side == SIDES[j])
    && (forall k, l :: 0 <= k < l < |adjacents| ==> SideIndex(adjacents[k].side) < SideIndex(adjacents[l].side))
  }

  /** Scanning a candidate entry appends it. */
  lemma ScanAppends(point: Point, bounds: Point, visited: set<Point>, adjacents: seq<Adjacent>, i: nat)
    requires i < |SIDES| && ScannedSides(point, bounds, visited, adjacents, i)
    requires InsideBounds(Move(point, SIDES[i]), bounds) && Move(point, SIDES[i]) !in visited
    ensures ScannedSides(point, bounds, visited, adjacents + [Adjacent(Move(point, SIDES[i]), SIDES[i], OPPOSITE_SIDES[i])], i + 1)
  {
    SideTables(i);
    var adjacents' := adjacents + [Adjacent(Move(point, SIDES[i]), SIDES[i], OPPOSITE_SIDES[i])];
    forall j | 0 <= j < i + 1 && j < |SIDES| && InsideBounds(Move(point, SIDES[j]), bounds) && Move(point, SIDES[j]) !in visited
      ensures exists k :: 0 <= k < |adjacents'| && adjacents'[k].side == SIDES[j]
    {
      if j < i {
        var k :| 0 <= k < |adjacents| && adjacents[k].side == SIDES[j];
        assert adjacents'[k] == adjacents[k];
      } else {
        assert adjacents'[|adjacents|].side == SIDES[j];
      }
    }
  }

  /** Scanning an entry that is off the grid or visited adds nothing. */
  lemma ScanPasses(point: Point, bounds: Point, visited: set<Point>, adjacents: seq<Adjacent>, i: nat)
    requires i < |SIDES| && ScannedSides(point, bounds, visited, adjacents, i)
    requires !InsideBounds(Move(point, SIDES[i]), bounds) || Move(point, SIDES[i]) in visited
    ensures ScannedSides(point, bounds, visited, adjacents, i + 1)
  {
  }

  /** `getAdjacents(point, visitedSet)` (script.js:230-241): the in-bounds,
      unvisited neighbours of `point`, each exactly once, in table order
      (bottom, right, top, left). */
  method GetAdjacents(point: Point, bounds: Point, visited: set<Point>) returns (adjacents: seq<Adjacent>)
    ensures forall k :: 0 <= k < |adjacents| ==> IsCandidate(point, bounds, visited, adjacents[k])
    ensures forall s :: InsideBounds(Move(point, s), bounds) && Move(point, s) !in visited ==>
      exists k :: 0 <= k < |adjacents| && adjacents[k].side == s
    ensures forall k, l :: 0 <= k < l < |adjacents| ==> SideIndex(adjacents[k].side) < SideIndex(adjacents[l].side)
  {
    adjacents := [];
    for i := 0 to |DELTAS|
      invariant ScannedSides(point, bounds, visited, adjacents, i)
    {
      SideTables(i);
      var cp := Adjacent(Offset(point, DELTAS[i]), SIDES[i], OPPOSITE_SIDES[i]);
      if InsideBounds(cp.at, bounds) && cp.at !in visited {
        ScanAppends(point, bounds, visited, adjacents, i);
        adjacents := adjacents + [cp];
      } else {
        ScanPasses(point, bounds, visited, adjacents, i);
      }
    }
    forall s | InsideBounds(Move(point, s), bounds) && Move(point, s) !in visited
      ensures exists k :: 0 <= k < |adjacents| && adjacents[k].side == s
    {
      assert SIDES[SideIndex(s)] == s;
    }
  }
}
