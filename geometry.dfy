/**
 * Grid geometry of the maze: points, bounds, the side tables of the `Maze`
 * object and the Manhattan heuristic (script.js:106-131, 153-160).
 */
module Geometry {
  import opened Optional

  /** An integer grid coordinate. `serialize` only ever serves as an injective
      set key, so the pair itself plays that role. */
  datatype Point = Point(x: int, y: int)

  /** The four sides of a cell. */
  datatype Side = Bottom | Right | Top | Left

  /** `this.sides`, `this.oppositeSides` and `this.delta`, index for index. */
  const SIDES: seq<Side> := [Bottom, Right, Top, Left]
  const OPPOSITE_SIDES: seq<Side> := [Top, Left, Bottom, Right]
  const DELTAS: seq<(int, int)> := [(0, 1), (1, 0), (0, -1), (-1, 0)]

  /** The keys of a cell's `open` record in the order a `for ... in` loop
      enumerates them: the order in which the record literal lists them. */
  const OPEN_KEYS: seq<Side> := [Left, Top, Bottom, Right]

  /** The position of `s` among the keys of `open`: its rank in the
      enumeration order of a `for ... in` loop over the record. */
  function KeyIndex(s: Side): (i: nat)
    ensures i < |OPEN_KEYS| && OPEN_KEYS[i] == s
  {
    match s
    case Left => 0
    case Top => 1
    case Bottom => 2
    case Right => 3
  }

  /** `this.sides.indexOf(s)`: the first position of `s` in the side table. */
  function SideIndex(s: Side): (i: nat)
    ensures i < |SIDES| && SIDES[i] == s
    ensures forall j :: 0 <= j < i ==> SIDES[j] != s
  {
    match s
    case Bottom => 0
    case Right => 1
    case Top => 2
    case Left => 3
  }

  /** The offset that leads from a cell to its neighbour on side `s`. */
  function Delta(s: Side): (int, int) {
    DELTAS[SideIndex(s)]
  }

  /** The side through which the neighbour on side `s` leads back. */
  function Opposite(s: Side): Side {
    OPPOSITE_SIDES[SideIndex(s)]
  }

  /** `p.insideBounds(bounds)`: the half-open rectangle [0, bounds.x) x [0, bounds.y). */
  predicate InsideBounds(p: Point, bounds: Point) {
    0 <= p.x < bounds.x && 0 <= p.y < bounds.y
  }

  /** `p.offset(delta)`: componentwise addition. */
  function Offset(p: Point, delta: (int, int)): Point {
    Point(p.x + delta.0, p.y + delta.1)
  }

  /** The neighbour of `p` on side `s`. */
  function Move(p: Point, s: Side): Point {
    Offset(p, Delta(s))
  }

  function Abs(n: int): nat {
    if n < 0 then -n else n
  }

  /** `heuristic(a, b)`: the Manhattan distance. */
  function Heuristic(a: Point, b: Point): (h: nat)
    ensures h == 0 <==> a == b
  {
    Abs(b.x - a.x) + Abs(b.y - a.y)
  }

  /** Every side table entry agrees with the functions defined from it. */
  lemma SideTables(i: nat)
    requires i < |SIDES|
    ensures SideIndex(SIDES[i]) == i
    ensures Delta(SIDES[i]) == DELTAS[i] && Opposite(SIDES[i]) == OPPOSITE_SIDES[i]
  {
    if i == 0 {
      assert SIDES[i] == Bottom;
    } else if i == 1 {
      assert SIDES[i] == Right;
    } else if i == 2 {
      assert SIDES[i] == Top;
    } else {
      assert SIDES[i] == Left;
    }
  }

  /** The opposite table pairs top with bottom and left with right, and the
      opposite side undoes the move. */
  lemma OppositeUndoesMove(p: Point, s: Side)
    ensures Opposite(Opposite(s)) == s && Opposite(s) != s
    ensures Move(Move(p, s), Opposite(s)) == p
  {
    match s
    case Bottom =>
    case Right =>
    case Top =>
    case Left =>
  }

  /** Distinct sides lead to distinct neighbours. */
  lemma MoveInjective(p: Point, s: Side, t: Side)
    ensures Move(p, s) == Move(p, t) <==> s == t
  {
    match s
    case Bottom =>
    case Right =>
    case Top =>
    case Left =>
  }

  /** The neighbour on every side is one heuristic unit away: the A* step cost. */
  lemma StepCost(p: Point, s: Side)
    ensures Heuristic(p, Move(p, s)) == 1 && Heuristic(Move(p, s), p) == 1
  {
    match s
    case Bottom =>
    case Right =>
    case Top =>
    case Left =>
  }

  /** The Manhattan distance is symmetric and obeys the triangle inequality. */
  lemma HeuristicMetric(a: Point, b: Point, c: Point)
    ensures Heuristic(a, b) == Heuristic(b, a)
    ensures Heuristic(a, c) <= Heuristic(a, b) + Heuristic(b, c)
  {
  }

  /** The side of `a` whose neighbour is `b`, if `b` is a neighbour at all. */
  function SideTowards(a: Point, b: Point): (r: Option<Side>)
    ensures r.Some? ==> Move(a, r.value) == b
    ensures r.None? ==> forall s :: Move(a, s) != b
  {
    if b == Move(a, Bottom) then Some(Bottom)
    else if b == Move(a, Right) then Some(Right)
    else if b == Move(a, Top) then Some(Top)
    else if b == Move(a, Left) then Some(Left)
    else None
  }

  lemma SideTowardsMove(p: Point, s: Side)
    ensures SideTowards(p, Move(p, s)) == Some(s)
  {
    var r := SideTowards(p, Move(p, s));
    MoveInjective(p, s, r.value);
  }

  /** The cells of a grid of size `bounds`. */
  function AllCells(bounds: Point): (cells: set<Point>)
    ensures forall p :: p in cells <==> InsideBounds(p, bounds)
  {
    set x, y | 0 <= x < bounds.x && 0 <= y < bounds.y :: Point(x, y)
  }

  /** The cells of column `x` of a grid of height `h`. */
  function ColumnCells(x: int, h: int): (cells: set<Point>)
    ensures forall p :: p in cells <==> p.x == x && 0 <= p.y < h
  {
    set y | 0 <= y < h :: Point(x, y)
  }

  lemma {:induction false} ColumnCount(x: int, h: nat)
    ensures |ColumnCells(x, h)| == h
  {
    if h > 0 {
      ColumnCount(x, h - 1);
      var rest := ColumnCells(x, h - 1);
      assert Point(x, h - 1) !in rest;
      assert ColumnCells(x, h) == rest + {Point(x, h - 1)};
    } else {
      assert ColumnCells(x, h) == {};
    }
  }

  /** Cutting off the last column of a grid. */
  lemma CellsSplit(bounds: Point)
    requires bounds.x > 0
    ensures AllCells(bounds) == AllCells(Point(bounds.x - 1, bounds.y)) + ColumnCells(bounds.x - 1, bounds.y)
    ensures AllCells(Point(bounds.x - 1, bounds.y)) * ColumnCells(bounds.x - 1, bounds.y) == {}
  {
  }

  /** A grid of size bounds.x by bounds.y has `blockCount = bounds.x * bounds.y` cells. */
  lemma {:induction false} CellCount(bounds: Point)
    requires bounds.x >= 0 && bounds.y >= 0
    ensures |AllCells(bounds)| == bounds.x * bounds.y
    decreases bounds.x
  {
    if bounds.x > 0 {
      var narrower := Point(bounds.x - 1, bounds.y);
      CellCount(narrower);
      ColumnCount(bounds.x - 1, bounds.y);
      CellsSplit(bounds);
      var a, b := AllCells(narrower), ColumnCells(bounds.x - 1, bounds.y);
      DisjointUnionCount(a, b);
      Distribute(bounds.x - 1, bounds.y, |a|, |a + b|);
    } else {
      assert AllCells(bounds) == {};
    }
  }

  lemma DisjointUnionCount<T>(a: set<T>, b: set<T>)
    requires a * b == {}
    ensures |a + b| == |a| + |b|
  {
  }

  lemma Distribute(w: int, h: int, c: int, d: int)
    requires c == w * h && d == c + h
    ensures d == (w + 1) * h
  {
  }

  /** A set of cells that holds `start` and every in-bounds neighbour of each
      of its cells holds the whole grid: the grid graph is connected. */
  lemma ClosedRegionCoversGrid(region: set<Point>, bounds: Point, start: Point)
    requires start in region && InsideBounds(start, bounds)
    requires forall p, s :: p in region && InsideBounds(Move(p, s), bounds) ==> Move(p, s) in region
    ensures AllCells(bounds) <= region
  {
    forall p | p in AllCells(bounds) ensures p in region {
      RowReached(region, bounds, start, p.x);
      ColumnReached(region, bounds, Point(p.x, start.y), p.y);
    }
  }

  lemma {:induction false} RowReached(region: set<Point>, bounds: Point, start: Point, x: int)
    requires start in region && InsideBounds(start, bounds) && 0 <= x < bounds.x
    requires forall p, s :: p in region && InsideBounds(Move(p, s), bounds) ==> Move(p, s) in region
    ensures Point(x, start.y) in region
    decreases Abs(x - start.x)
  {
    if x > start.x {
      RowReached(region, bounds, start, x - 1);
      assert Move(Point(x - 1, start.y), Right) == Point(x, start.y);
    } else if x < start.x {
      RowReached(region, bounds, start, x + 1);
      assert Move(Point(x + 1, start.y), Left) == Point(x, start.y);
    }
  }

  lemma {:induction false} ColumnReached(region: set<Point>, bounds: Point, start: Point, y: int)
    requires start in region && InsideBounds(start, bounds) && 0 <= y < bounds.y
    requires forall p, s :: p in region && InsideBounds(Move(p, s), bounds) ==> Move(p, s) in region
    ensures Point(start.x, y) in region
    decreases Abs(y - start.y)
  {
    if y > start.y {
      ColumnReached(region, bounds, start, y - 1);
      assert Move(Point(start.x, y - 1), Bottom) == Point(start.x, y);
    } else if y < start.y {
      ColumnReached(region, bounds, start, y + 1);
      assert Move(Point(start.x, y + 1), Top) == Point(start.x, y);
    }
  }
}
