/**
 * The three pathfinders `solveBFS` (script.js:318-423), `solveDFS`
 * (script.js:425-531) and `solveAStar` (script.js:621-732), minus their
 * description text and cell colouring, and the path reconstruction they
 * share.
 *
 * Every queued entry is a fresh `Point` whose `previous` field names the
 * entry it was reached from, and is never changed after that; an entry is
 * therefore a `Trail` value: the search start, or a cell with the trail it
 * was reached by.
 */
module Search {
  import opened Optional
  import opened Collections
  import opened Geometry
  import opened Grid
  import opened Heap

  /** A frontier entry and its chain of `previous` links. */
  datatype Trail = Root(at: Point) | Via(at: Point, previous: Trail)

  /** The chain leads back to `start`, each link an open step, and only the
      root sits on the start cell (the walk-back stops at the first cell
      equal to the start). */
  ghost predicate Linked(w: Walls, bounds: Point, start: Point, t: Trail) {
    match t
    case Root(p) => p == start
    case Via(p, prev) => p != start && Linked(w, bounds, start, prev) && OpenStep(w, bounds, prev.at, p)
  }

  /** The number of links back to the root: the cost `g` of the entry. */
  function Depth(t: Trail): nat {
    match t
    case Root(_) => 0
    case Via(_, prev) => Depth(prev) + 1
  }

  /** The cells of the chain, from the root to `t`. */
  function Route(t: Trail): (r: seq<Point>)
    ensures |r| == Depth(t) + 1 && r[0] == RootOf(t) && r[|r| - 1] == t.at
  {
    match t
    case Root(p) => [p]
    case Via(p, prev) => Route(prev) + [p]
  }

  function RootOf(t: Trail): Point {
    match t
    case Root(p) => p
    case Via(_, prev) => RootOf(prev)
  }

  /** A linked chain is a walk through open walls from the start. */
  lemma {:induction false} RouteIsWalk(w: Walls, bounds: Point, start: Point, t: Trail)
    requires InsideBounds(start, bounds) && Linked(w, bounds, start, t)
    ensures IsWalk(w, bounds, Route(t)) && Route(t)[0] == start
  {
    match t
    case Root(p) =>
    case Via(p, prev) =>
      RouteIsWalk(w, bounds, start, prev);
      var r := Route(t);
      assert r == Route(prev) + [p];
      forall k | 0 <= k < |r| - 1 ensures OpenStep(w, bounds, r[k], r[k + 1]) {
        if k < |r| - 2 {
          assert r[k] == Route(prev)[k] && r[k + 1] == Route(prev)[k + 1];
        }
      }
  }

  /** The `.then` walk-back: `path` collects the cells from the last
      dequeued one back to, but not including, the search start, so that
      popping it replays the route forwards. */
  method WalkBack(ghost w: Walls, ghost bounds: Point, start: Point, last: Trail) returns (path: seq<Point>)
    requires Linked(w, bounds, start, last)
    ensures Route(last) == [start] + Reversed(path)
    ensures |path| == Depth(last)
  {
    path := [];
    var position := last;
    while position.at != start
      invariant Linked(w, bounds, start, position)
      invariant Route(last) == Route(position) + Reversed(path)
      decreases Depth(position)
    {
      ReversedAppend(path, position.at);
      path := path + [position.at];
      position := position.previous;
    }
  }

  // ---------------------------------------------------------------- one expansion

  /** The cells of a set of frontier entries. */
  function AtCells(frontier: set<Trail>): (cells: set<Point>)
    ensures forall t :: t in frontier ==> t.at in cells
  {
    set t | t in frontier :: t.at
  }

  function Elements(s: seq<Trail>): (r: set<Trail>)
    ensures forall t :: t in r <==> t in s
  {
    set t | t in s
  }

  lemma ElementsPrefix(s: seq<Trail>, k: nat)
    requires k < |s|
    ensures Elements(s[..k + 1]) == Elements(s[..k]) + {s[k]}
  {
    assert s[..k + 1] == s[..k] + [s[k]];
  }

  /** `next` are the entries for exactly the open, in-bounds, unexpanded
      neighbours of `t`, each linked back to `t`. */
  ghost predicate Expands(w: Walls, bounds: Point, visited: set<Point>, t: Trail, next: seq<Trail>) {
    && t.at in w
    && (forall k :: 0 <= k < |next| ==>
          next[k] == Via(next[k].at, t) && OpenStep(w, bounds, t.at, next[k].at) && next[k].at !in visited)
    && (forall s :: s in w[t.at] && InsideBounds(Move(t.at, s), bounds) && Move(t.at, s) !in visited ==>
          exists k :: 0 <= k < |next| && next[k].at == Move(t.at, s))
  }

  /** The rank among the `open` keys of the side of `a` facing `b`. */
  function KeyRank(a: Point, b: Point): int {
    match SideTowards(a, b)
    case Some(s) => KeyIndex(s)
    case None => -1
  }

  /** The entries queued by the scan after its first `k` keys. */
  ghost predicate Scanned(w: Walls, bounds: Point, visited: set<Point>, t: Trail, next: seq<Trail>, k: nat)
    requires t.at in w
  {
    && (forall j :: 0 <= j < |next| ==>
          next[j] == Via(next[j].at, t) && OpenStep(w, bounds, t.at, next[j].at) && next[j].at !in visited &&
          KeyRank(t.at, next[j].at) < k)
    && (forall j :: (0 <= j < k && j < |OPEN_KEYS| && OPEN_KEYS[j] in w[t.at] &&
          InsideBounds(Move(t.at, OPEN_KEYS[j]), bounds) && Move(t.at, OPEN_KEYS[j]) !in visited) ==>
          exists i :: 0 <= i < |next| && next[i].at == Move(t.at, OPEN_KEYS[j]))
    && (forall i, l :: 0 <= i < l < |next| ==> KeyRank(t.at, next[i].at) < KeyRank(t.at, next[l].at))
  }

  /** Scanning a key whose side is closed, out of bounds or expanded queues nothing. */
  lemma ScanSkips(w: Walls, bounds: Point, visited: set<Point>, t: Trail, next: seq<Trail>, k: nat)
    requires t.at in w && k < |OPEN_KEYS| && Scanned(w, bounds, visited, t, next, k)
    requires !(OPEN_KEYS[k] in w[t.at] && InsideBounds(Move(t.at, OPEN_KEYS[k]), bounds) && Move(t.at, OPEN_KEYS[k]) !in visited)
    ensures Scanned(w, bounds, visited, t, next, k + 1)
  {
  }

  /** Scanning an open key appends the neighbour behind it. */
  lemma ScanQueues(w: Walls, bounds: Point, visited: set<Point>, t: Trail, next: seq<Trail>, k: nat)
    requires t.at in w && k < |OPEN_KEYS| && Scanned(w, bounds, visited, t, next, k)
    requires OPEN_KEYS[k] in w[t.at] && InsideBounds(Move(t.at, OPEN_KEYS[k]), bounds) && Move(t.at, OPEN_KEYS[k]) !in visited
    ensures Scanned(w, bounds, visited, t, next + [Via(Move(t.at, OPEN_KEYS[k]), t)], k + 1)
  {
    var side := OPEN_KEYS[k];
    var q := Move(t.at, side);
    var next' := next + [Via(q, t)];
    SideTowardsMove(t.at, side);
    OpenStepThrough(w, bounds, t.at, side);
    assert KeyRank(t.at, q) == k;
    forall j | 0 <= j <= k && OPEN_KEYS[j] in w[t.at] &&
      InsideBounds(Move(t.at, OPEN_KEYS[j]), bounds) && Move(t.at, OPEN_KEYS[j]) !in visited
      ensures exists i :: 0 <= i < |next'| && next'[i].at == Move(t.at, OPEN_KEYS[j])
    {
      if j < k {
        var i :| 0 <= i < |next| && next[i].at == Move(t.at, OPEN_KEYS[j]);
        assert next'[i] == next[i];
      } else {
        assert next'[|next|].at == q;
      }
    }
  }

  /** The scan `for (var side in block.open)` of an expanded cell: every side
      whose flag is set and whose neighbour is in bounds and unexpanded
      gives a new entry linked back to `t`, in key order (left, top, bottom,
      right). */
  method Successors(w: Walls, bounds: Point, visited: set<Point>, t: Trail) returns (next: seq<Trail>)
    requires t.at in w
    ensures Expands(w, bounds, visited, t, next)
    ensures forall k, l :: 0 <= k < l < |next| ==> KeyRank(t.at, next[k].at) < KeyRank(t.at, next[l].at)
  {
    next := [];
    var position := t.at;
    for k := 0 to |OPEN_KEYS|
      invariant Scanned(w, bounds, visited, t, next, k)
    {
      var side := OPEN_KEYS[k];
      var nextPosition := Offset(position, DELTAS[SideIndex(side)]);
      if side in w[position] && InsideBounds(nextPosition, bounds) && nextPosition !in visited {
        ScanQueues(w, bounds, visited, t, next, k);
        next := next + [Via(nextPosition, t)];
      } else {
        ScanSkips(w, bounds, visited, t, next, k);
      }
    }
    forall s | s in w[t.at] && InsideBounds(Move(t.at, s), bounds) && Move(t.at, s) !in visited
      ensures exists k :: 0 <= k < |next| && next[k].at == Move(t.at, s)
    {
      assert OPEN_KEYS[KeyIndex(s)] == s;
    }
  }

  // ---------------------------------------------------------------- the shared search invariant

  /** Every open, in-bounds neighbour of an expanded cell is expanded or
      waits in the frontier. */
  ghost predicate Closed(w: Walls, bounds: Point, visited: set<Point>, frontier: set<Trail>) {
    forall p, s :: p in visited && p in w && s in w[p] && InsideBounds(Move(p, s), bounds) ==>
      Move(p, s) in visited || Move(p, s) in AtCells(frontier)
  }

  /** Each expanded cell with the entry it was expanded from. */
  ghost predicate ExpandedFrom(w: Walls, bounds: Point, start: Point, expandedBy: map<Point, Trail>) {
    forall p :: p in expandedBy ==> expandedBy[p].at == p && Linked(w, bounds, start, expandedBy[p])
  }

  /** `order` lists the expanded cells, each once. */
  ghost predicate Listed(visited: set<Point>, order: seq<Point>) {
    && (forall k, l :: 0 <= k < l < |order| ==> order[k] != order[l])
    && (forall p :: p in visited <==> p in order)
  }

  /** Every cell on the route to `t` before `t` itself is expanded. */
  ghost predicate AncestorsIn(t: Trail, visited: set<Point>) {
    forall k :: 0 <= k < Depth(t) ==> Route(t)[k] in visited
  }

  /** What holds between two calls of a search body: `visited` is the
      expanded set, `frontier` the entries of the queue or stack and `last`
      the last entry taken from it (`position`). */
  ghost predicate SearchInv(w: Walls, bounds: Point, start: Point, target: Point, frontier: set<Trail>,
                            visited: set<Point>, expandedBy: map<Point, Trail>, order: seq<Point>, last: Trail) {
    && IsGrid(w, bounds) && InsideBounds(start, bounds)
    && visited == expandedBy.Keys && visited <= AllCells(bounds)
    && ExpandedFrom(w, bounds, start, expandedBy)
    && Listed(visited, order)
    && (forall t :: t in frontier ==> Linked(w, bounds, start, t) && AncestorsIn(t, visited))
    && Linked(w, bounds, start, last) && AncestorsIn(last, visited)
    && (target in visited ==> last.at == target)
    && (visited == {} ==> frontier == {Root(start)} && last == Root(start))
    && (visited != {} ==> start in visited)
    && Closed(w, bounds, visited, frontier)
  }

  /** What a search promises once its loop stops: the last entry is linked
      to the start, it is the target exactly when the target is reachable,
      every expanded cell is reachable and listed once in `order`, and a
      search that ran dry expanded every reachable cell. The route to the
      last entry passes through the target only at its end. */
  ghost predicate SearchResult(w: Walls, bounds: Point, start: Point, target: Point, last: Trail,
                               visited: set<Point>, order: seq<Point>) {
    && Linked(w, bounds, start, last)
    && (last.at == target <==> Reachable(w, bounds, start, target))
    && (forall q :: q in visited ==> Reachable(w, bounds, start, q))
    && (last.at != target ==> forall q :: Reachable(w, bounds, start, q) ==> q in visited)
    && (target in Route(last) ==> last.at == target)
    && Listed(visited, order)
  }

  lemma LinkedInBounds(w: Walls, bounds: Point, start: Point, t: Trail)
    requires InsideBounds(start, bounds) && Linked(w, bounds, start, t)
    ensures InsideBounds(t.at, bounds)
  {
  }

  /** The number of cells not yet expanded: the first half of every
      search's termination measure. */
  ghost function Unexpanded(bounds: Point, visited: set<Point>): nat {
    |AllCells(bounds) - visited|
  }

  lemma ExpandShrinks(bounds: Point, visited: set<Point>, p: Point)
    requires InsideBounds(p, bounds) && p !in visited
    ensures Unexpanded(bounds, visited + {p}) < Unexpanded(bounds, visited)
  {
    var a, b := AllCells(bounds) - (visited + {p}), AllCells(bounds) - visited;
    assert p in b && p !in a;
    SubsetCount(a, b);
  }

  /** Taking an entry whose cell is already expanded changes nothing but
      the frontier and `position`. */
  lemma SkipKeepsInv(w: Walls, bounds: Point, start: Point, target: Point, frontier: set<Trail>, mid: set<Trail>,
                     visited: set<Point>, expandedBy: map<Point, Trail>, order: seq<Point>, last: Trail, t: Trail)
    requires SearchInv(w, bounds, start, target, frontier, visited, expandedBy, order, last) && last.at != target
    requires t in frontier && t.at in visited && mid <= frontier && frontier <= mid + {t}
    ensures SearchInv(w, bounds, start, target, mid, visited, expandedBy, order, t)
  {
    forall p, s | p in visited && p in w && s in w[p] && InsideBounds(Move(p, s), bounds) && Move(p, s) !in visited
      ensures Move(p, s) in AtCells(mid)
    {
      var e :| e in frontier && e.at == Move(p, s);
      assert e in mid;
    }
  }

  /** Expanding the cell of entry `t` and adding its successors keeps the
      invariant. */
  lemma ExpandKeepsInv(w: Walls, bounds: Point, start: Point, target: Point, frontier: set<Trail>, mid: set<Trail>,
                       next: seq<Trail>, visited: set<Point>, expandedBy: map<Point, Trail>, order: seq<Point>,
                       last: Trail, t: Trail)
    requires SearchInv(w, bounds, start, target, frontier, visited, expandedBy, order, last) && last.at != target
    requires t in frontier && t.at !in visited && mid <= frontier && frontier <= mid + {t}
    requires Expands(w, bounds, visited + {t.at}, t, next)
    ensures SearchInv(w, bounds, start, target, mid + Elements(next), visited + {t.at},
                      expandedBy[t.at := t], order + [t.at], t)
  {
    var visited', frontier' := visited + {t.at}, mid + Elements(next);
    LinkedInBounds(w, bounds, start, t);
    assert start in visited' by {
      if visited == {} {
        assert t == Root(start);
      }
    }
    SuccessorsLinked(w, bounds, start, visited, t, next);
    ExpandKeepsClosed(w, bounds, visited, frontier, mid, next, t);
    ExpandKeepsListed(visited, order, t.at);
  }

  /** The successors of an expanded entry are linked, and their ancestors
      are expanded. */
  lemma SuccessorsLinked(w: Walls, bounds: Point, start: Point, visited: set<Point>, t: Trail, next: seq<Trail>)
    requires Linked(w, bounds, start, t) && AncestorsIn(t, visited)
    requires Expands(w, bounds, visited + {t.at}, t, next) && start in visited + {t.at}
    ensures forall u :: u in Elements(next) ==> Linked(w, bounds, start, u) && AncestorsIn(u, visited + {t.at})
  {
    forall u | u in Elements(next) ensures Linked(w, bounds, start, u) && AncestorsIn(u, visited + {t.at}) {
      var k :| 0 <= k < |next| && next[k] == u;
      assert Route(u) == Route(t) + [u.at];
      forall j | 0 <= j < Depth(u) ensures Route(u)[j] in visited + {t.at} {
        assert Route(u)[j] == Route(t)[j];
      }
    }
  }

  /** Expanding `t` and queueing its successors keeps the frontier closed. */
  lemma ExpandKeepsClosed(w: Walls, bounds: Point, visited: set<Point>, frontier: set<Trail>, mid: set<Trail>,
                          next: seq<Trail>, t: Trail)
    requires Closed(w, bounds, visited, frontier) && frontier <= mid + {t}
    requires Expands(w, bounds, visited + {t.at}, t, next)
    ensures Closed(w, bounds, visited + {t.at}, mid + Elements(next))
  {
    var visited', frontier' := visited + {t.at}, mid + Elements(next);
    forall p, s | p in visited' && p in w && s in w[p] && InsideBounds(Move(p, s), bounds) && Move(p, s) !in visited'
      ensures Move(p, s) in AtCells(frontier')
    {
      if p == t.at {
        var k :| 0 <= k < |next| && next[k].at == Move(p, s);
        assert next[k] in frontier';
      } else {
        var e :| e in frontier && e.at == Move(p, s);
        assert e in frontier';
      }
    }
  }

  /** Appending a newly expanded cell keeps the order listed. */
  lemma ExpandKeepsListed(visited: set<Point>, order: seq<Point>, p: Point)
    requires Listed(visited, order) && p !in visited
    ensures Listed(visited + {p}, order + [p])
  {
    var order' := order + [p];
    forall k, l | 0 <= k < l < |order'| ensures order'[k] != order'[l] {
      if l == |order| {
        assert order[k] in visited;
      }
    }
  }

  /** A walk that starts in a set closed under open steps stays in it. */
  lemma {:induction false} WalkStaysIn(w: Walls, bounds: Point, region: set<Point>, ps: seq<Point>, i: nat)
    requires IsWalk(w, bounds, ps) && ps[0] in region && i < |ps|
    requires forall p, s :: p in region && p in w && s in w[p] && InsideBounds(Move(p, s), bounds) ==> Move(p, s) in region
    ensures ps[i] in region
  {
    if i > 0 {
      WalkStaysIn(w, bounds, region, ps, i - 1);
      assert OpenStep(w, bounds, ps[i - 1], ps[i]);
      var s := SideTowards(ps[i - 1], ps[i]).value;
      assert Move(ps[i - 1], s) == ps[i];
    }
  }

  /** Before the first round, only the start entry waits and nothing is
      expanded. */
  lemma SearchStarts(w: Walls, bounds: Point, start: Point, target: Point)
    requires IsGrid(w, bounds) && InsideBounds(start, bounds)
    ensures SearchInv(w, bounds, start, target, {Root(start)}, {}, map[], [], Root(start))
  {
    assert Route(Root(start)) == [start];
  }

  /** The loop stops when the frontier is empty or the target was taken;
      the invariant then gives the search result. */
  lemma SearchDone(w: Walls, bounds: Point, start: Point, target: Point, frontier: set<Trail>,
                   visited: set<Point>, expandedBy: map<Point, Trail>, order: seq<Point>, last: Trail)
    requires SearchInv(w, bounds, start, target, frontier, visited, expandedBy, order, last)
    requires frontier == {} || last.at == target
    ensures SearchResult(w, bounds, start, target, last, visited, order)
  {
    RouteIsWalk(w, bounds, start, last);
    if last.at != target {
      forall k | 0 <= k < |Route(last)| ensures Route(last)[k] != target {
      }
    }
    forall q | q in visited ensures Reachable(w, bounds, start, q) {
      RouteIsWalk(w, bounds, start, expandedBy[q]);
    }
    if last.at != target {
      forall q | Reachable(w, bounds, start, q) ensures q in visited {
        var ps :| IsWalk(w, bounds, ps) && ps[0] == start && ps[|ps| - 1] == q;
        WalkStaysIn(w, bounds, visited, ps, |ps| - 1);
      }
    }
  }

  // ---------------------------------------------------------------- breadth-first

  /** No walk from `start` to `p` takes fewer than `d` steps. */
  ghost predicate Shortest(w: Walls, bounds: Point, start: Point, p: Point, d: nat) {
    forall ps :: IsWalk(w, bounds, ps) && ps[0] == start && ps[|ps| - 1] == p ==> d <= |ps| - 1
  }

  /** A shortest depth bounds the route of every search that reaches `p`:
      no depth-first or best-first route is shorter than the breadth-first one. */
  lemma ShortestBoundsRoutes(w: Walls, bounds: Point, start: Point, p: Point, d: nat, t: Trail)
    requires InsideBounds(start, bounds) && Shortest(w, bounds, start, p, d)
    requires Linked(w, bounds, start, t) && t.at == p
    ensures d <= Depth(t)
  {
    RouteIsWalk(w, bounds, start, t);
  }

  /** Queue depths never decrease from head to tail. */
  ghost predicate DepthsSorted(queue: seq<Trail>) {
    forall a, b :: 0 <= a < b < |queue| ==> Depth(queue[a]) <= Depth(queue[b])
  }

  /** Every queued depth is `d` or `d + 1`. */
  ghost predicate DepthsWithin(queue: seq<Trail>, d: nat) {
    forall a :: 0 <= a < |queue| ==> d <= Depth(queue[a]) <= d + 1
  }

  /** Each open neighbour of an expanded cell is expanded, or queued at most
      one deeper than the entry that expanded the cell. */
  ghost predicate QueuedWithin(w: Walls, bounds: Point, expandedBy: map<Point, Trail>, queue: seq<Trail>) {
    forall p, s :: p in expandedBy && p in w && s in w[p] && InsideBounds(Move(p, s), bounds) ==>
      Move(p, s) in expandedBy ||
      exists a :: 0 <= a < |queue| && queue[a].at == Move(p, s) && Depth(queue[a]) <= Depth(expandedBy[p]) + 1
  }

  /** Every cell was expanded from an entry of shortest depth. */
  ghost predicate ExpandedShortest(w: Walls, bounds: Point, start: Point, expandedBy: map<Point, Trail>) {
    forall p :: p in expandedBy ==> Shortest(w, bounds, start, p, Depth(expandedBy[p]))
  }

  /** The breadth-first queue: depths ascend and lie within one of the last
      depth taken, each open neighbour of an expanded cell is expanded or
      queued at most one deeper, and every cell was expanded by a shortest
      route. */
  ghost predicate BfsInv(w: Walls, bounds: Point, start: Point, target: Point, queue: seq<Trail>,
                         expandedBy: map<Point, Trail>, last: Trail) {
    && DepthsSorted(queue)
    && DepthsWithin(queue, Depth(last))
    && QueuedWithin(w, bounds, expandedBy, queue)
    && ExpandedShortest(w, bounds, start, expandedBy)
    && (last.at == target ==> Shortest(w, bounds, start, target, Depth(last)))
  }

  lemma WalkPrefix(w: Walls, bounds: Point, ps: seq<Point>, j: nat)
    requires IsWalk(w, bounds, ps) && 0 < j <= |ps|
    ensures IsWalk(w, bounds, ps[..j])
  {
    forall i | 0 <= i < j - 1 ensures OpenStep(w, bounds, ps[..j][i], ps[..j][i + 1]) {
      assert OpenStep(w, bounds, ps[i], ps[i + 1]);
    }
  }

  /** The head of the queue is no deeper than any route to its cell: a
      route must leave the expanded region somewhere, and the cell it
      enters there is queued no deeper than the route's length so far. */
  lemma HeadIsShortest(w: Walls, bounds: Point, start: Point, queue: seq<Trail>, expandedBy: map<Point, Trail>)
    requires DepthsSorted(queue) && QueuedWithin(w, bounds, expandedBy, queue)
    requires ExpandedShortest(w, bounds, start, expandedBy)
    requires |queue| > 0 && queue[0].at !in expandedBy && start in expandedBy
    ensures Shortest(w, bounds, start, queue[0].at, Depth(queue[0]))
  {
    forall ps | IsWalk(w, bounds, ps) && ps[0] == start && ps[|ps| - 1] == queue[0].at
      ensures Depth(queue[0]) <= |ps| - 1
    {
      Crossing(ps, expandedBy.Keys);
      var j :| 0 < j < |ps| && ps[j - 1] in expandedBy.Keys && ps[j] !in expandedBy.Keys;
      EntersQueue(w, bounds, start, queue, expandedBy, ps, j);
    }
  }

  /** A walk that steps from expanded cell `ps[j - 1]` to unexpanded `ps[j]`
      meets a queued entry for `ps[j]` no deeper than `j`. */
  lemma EntersQueue(w: Walls, bounds: Point, start: Point, queue: seq<Trail>, expandedBy: map<Point, Trail>,
                    ps: seq<Point>, j: nat)
    requires DepthsSorted(queue) && QueuedWithin(w, bounds, expandedBy, queue)
    requires ExpandedShortest(w, bounds, start, expandedBy)
    requires IsWalk(w, bounds, ps) && ps[0] == start && 0 < j < |ps|
    requires ps[j - 1] in expandedBy && ps[j] !in expandedBy
    ensures |queue| > 0 && Depth(queue[0]) <= j
  {
    var p := ps[j - 1];
    assert OpenStep(w, bounds, p, ps[j]);
    var s := SideTowards(p, ps[j]).value;
    assert Move(p, s) == ps[j];
    var a :| 0 <= a < |queue| && queue[a].at == ps[j] && Depth(queue[a]) <= Depth(expandedBy[p]) + 1;
    WalkPrefix(w, bounds, ps, j);
    assert ps[..j][0] == start && ps[..j][j - 1] == p;
    assert Depth(expandedBy[p]) <= j - 1;
    if a > 0 {
      assert Depth(queue[0]) <= Depth(queue[a]);
    }
  }

  lemma BfsSkipKeeps(w: Walls, bounds: Point, start: Point, target: Point, queue: seq<Trail>,
                     expandedBy: map<Point, Trail>, last: Trail)
    requires BfsInv(w, bounds, start, target, queue, expandedBy, last)
    requires |queue| > 0 && queue[0].at in expandedBy && queue[0].at != target
    ensures BfsInv(w, bounds, start, target, queue[1..], expandedBy, queue[0])
  {
    var rest := queue[1..];
    forall p, s | p in expandedBy && p in w && s in w[p] && InsideBounds(Move(p, s), bounds) && Move(p, s) !in expandedBy
      ensures exists a :: 0 <= a < |rest| && rest[a].at == Move(p, s) && Depth(rest[a]) <= Depth(expandedBy[p]) + 1
    {
      var a :| 0 <= a < |queue| && queue[a].at == Move(p, s) && Depth(queue[a]) <= Depth(expandedBy[p]) + 1;
      assert rest[a - 1] == queue[a];
    }
    forall a | 0 <= a < |rest| ensures Depth(queue[0]) <= Depth(rest[a]) <= Depth(queue[0]) + 1 {
      assert rest[a] == queue[a + 1];
    }
  }

  /** Appending entries one deeper than the head keeps the depths sorted and
      within one of the head's. */
  lemma AppendDepths(queue: seq<Trail>, next: seq<Trail>, d: nat)
    requires |queue| > 0 && DepthsSorted(queue) && DepthsWithin(queue, d) && d <= Depth(queue[0])
    requires forall a :: 0 <= a < |next| ==> Depth(next[a]) == Depth(queue[0]) + 1
    ensures DepthsSorted(queue[1..] + next) && DepthsWithin(queue[1..] + next, Depth(queue[0]))
  {
    var queue' := queue[1..] + next;
    forall a | 0 <= a < |queue'| ensures Depth(queue[0]) <= Depth(queue'[a]) <= Depth(queue[0]) + 1 {
      if a < |queue| - 1 {
        assert queue'[a] == queue[a + 1];
      }
    }
    forall a, b | 0 <= a < b < |queue'| ensures Depth(queue'[a]) <= Depth(queue'[b]) {
      if b < |queue| - 1 {
        assert queue'[a] == queue[a + 1] && queue'[b] == queue[b + 1];
      } else if a < |queue| - 1 {
        assert queue'[a] == queue[a + 1];
      }
    }
  }

  /** Expanding the head and appending its successors keeps every open
      neighbour of an expanded cell expanded or queued within reach. */
  lemma AppendQueuedWithin(w: Walls, bounds: Point, queue: seq<Trail>, next: seq<Trail>, expandedBy: map<Point, Trail>)
    requires |queue| > 0 && QueuedWithin(w, bounds, expandedBy, queue)
    requires Expands(w, bounds, expandedBy.Keys + {queue[0].at}, queue[0], next)
    requires forall a :: 0 <= a < |next| ==> Depth(next[a]) == Depth(queue[0]) + 1
    ensures QueuedWithin(w, bounds, expandedBy[queue[0].at := queue[0]], queue[1..] + next)
  {
    var t := queue[0];
    var queue', expandedBy' := queue[1..] + next, expandedBy[t.at := t];
    forall p, s | p in expandedBy' && p in w && s in w[p] && InsideBounds(Move(p, s), bounds) && Move(p, s) !in expandedBy'
      ensures exists a :: 0 <= a < |queue'| && queue'[a].at == Move(p, s) && Depth(queue'[a]) <= Depth(expandedBy'[p]) + 1
    {
      if p == t.at {
        var k :| 0 <= k < |next| && next[k].at == Move(p, s);
        assert queue'[|queue| - 1 + k] == next[k];
      } else {
        var a :| 0 <= a < |queue| && queue[a].at == Move(p, s) && Depth(queue[a]) <= Depth(expandedBy[p]) + 1;
        assert queue'[a - 1] == queue[a];
      }
    }
  }

  lemma BfsExpandKeeps(w: Walls, bounds: Point, start: Point, target: Point, queue: seq<Trail>, next: seq<Trail>,
                       expandedBy: map<Point, Trail>, last: Trail)
    requires BfsInv(w, bounds, start, target, queue, expandedBy, last)
    requires |queue| > 0 && queue[0].at !in expandedBy && (start in expandedBy || queue[0] == Root(start))
    requires Expands(w, bounds, expandedBy.Keys + {queue[0].at}, queue[0], next)
    ensures BfsInv(w, bounds, start, target, queue[1..] + next, expandedBy[queue[0].at := queue[0]], queue[0])
  {
    var t := queue[0];
    if start in expandedBy {
      HeadIsShortest(w, bounds, start, queue, expandedBy);
    }
    assert Shortest(w, bounds, start, t.at, Depth(t));
    forall a | 0 <= a < |next| ensures Depth(next[a]) == Depth(t) + 1 {
      assert next[a] == Via(next[a].at, t);
    }
    AppendDepths(queue, next, Depth(last));
    AppendQueuedWithin(w, bounds, queue, next, expandedBy);
  }

  lemma QueueElements(queue: seq<Trail>, next: seq<Trail>)
    requires |queue| > 0
    ensures Elements(queue[1..]) <= Elements(queue) <= Elements(queue[1..]) + {queue[0]}
    ensures Elements(queue[1..] + next) == Elements(queue[1..]) + Elements(next)
  {
    assert queue == [queue[0]] + queue[1..];
  }

  /** The body passed to `whileAsync` by `solveBFS` (script.js:362-392):
      take the head of the queue; unless its cell is already expanded,
      expand it and append its successors. */
  method BfsStep(w: Walls, bounds: Point, start: Point, target: Point, queue: seq<Trail>, visited: set<Point>,
                 ghost expandedBy: map<Point, Trail>, ghost order: seq<Point>, last: Trail)
    returns (position: Trail, queue': seq<Trail>, visited': set<Point>,
             ghost expandedBy': map<Point, Trail>, ghost order': seq<Point>)
    requires SearchInv(w, bounds, start, target, Elements(queue), visited, expandedBy, order, last)
    requires BfsInv(w, bounds, start, target, queue, expandedBy, last)
    requires |queue| > 0 && last.at != target
    ensures SearchInv(w, bounds, start, target, Elements(queue'), visited', expandedBy', order', position)
    ensures BfsInv(w, bounds, start, target, queue', expandedBy', position)
    ensures position == queue[0]
    ensures position.at in visited ==> visited' == visited && order' == order
    ensures position.at !in visited ==> visited' == visited + {position.at} && order' == order + [position.at]
    ensures Unexpanded(bounds, visited') < Unexpanded(bounds, visited) || (visited' == visited && |queue'| < |queue|)
  {
    position := queue[0];
    queue' := queue[1..];
    QueueElements(queue, []);
    if position.at in visited {
      SkipKeepsInv(w, bounds, start, target, Elements(queue), Elements(queue'), visited, expandedBy, order, last, position);
      BfsSkipKeeps(w, bounds, start, target, queue, expandedBy, last);
      visited', expandedBy', order' := visited, expandedBy, order;
      return;
    }
    LinkedInBounds(w, bounds, start, position);
    visited' := visited + {position.at};
    expandedBy', order' := expandedBy[position.at := position], order + [position.at];
    var next := Successors(w, bounds, visited', position);
    QueueElements(queue, next);
    ExpandKeepsInv(w, bounds, start, target, Elements(queue), Elements(queue'), next, visited, expandedBy, order, last, position);
    assert start in visited || position == Root(start) by {
      if visited == {} {
        assert position in Elements(queue);
      }
    }
    BfsExpandKeeps(w, bounds, start, target, queue, next, expandedBy, last);
    ExpandShrinks(bounds, visited, position.at);
    queue' := queue' + next;
  }

  /** `solveBFS` from `start` (script.js:351-393): breadth-first search that
      stops when the queue runs dry or the target is taken from it. The
      target, when found, is found along a shortest route. */
  method SolveBFS(w: Walls, bounds: Point, start: Point, target: Point)
    returns (last: Trail, ghost expanded: set<Point>, ghost order: seq<Point>)
    requires IsGrid(w, bounds) && InsideBounds(start, bounds)
    ensures Linked(w, bounds, start, last) && (last.at == target <==> Reachable(w, bounds, start, target))
    ensures SearchResult(w, bounds, start, target, last, expanded, order)
    ensures last.at == target ==> Shortest(w, bounds, start, target, Depth(last))
  {
    var visited: set<Point> := {};
    ghost var expandedBy: map<Point, Trail> := map[];
    order := [];
    last := Root(start);
    var queue := [last];
    assert Elements(queue) == {Root(start)};
    SearchStarts(w, bounds, start, target);
    while |queue| > 0 && last.at != target
      invariant SearchInv(w, bounds, start, target, Elements(queue), visited, expandedBy, order, last)
      invariant BfsInv(w, bounds, start, target, queue, expandedBy, last)
      decreases Unexpanded(bounds, visited), |queue|
    {
      last, queue, visited, expandedBy, order := BfsStep(w, bounds, start, target, queue, visited, expandedBy, order, last);
    }
    SearchDone(w, bounds, start, target, Elements(queue), visited, expandedBy, order, last);
    expanded := visited;
  }

  // ---------------------------------------------------------------- depth-first

  lemma StackElements(stack: seq<Trail>, next: seq<Trail>)
    requires |stack| > 0
    ensures Elements(stack[..|stack| - 1]) <= Elements(stack) <= Elements(stack[..|stack| - 1]) + {stack[|stack| - 1]}
    ensures Elements(stack[..|stack| - 1] + next) == Elements(stack[..|stack| - 1]) + Elements(next)
  {
    assert stack == stack[..|stack| - 1] + [stack[|stack| - 1]];
  }

  /** The body passed to `whileAsync` by `solveDFS` (script.js:469-500):
      pop the top of the stack; unless its cell is already expanded, expand
      it and push its successors. */
  method DfsStep(w: Walls, bounds: Point, start: Point, target: Point, stack: seq<Trail>, visited: set<Point>,
                 ghost expandedBy: map<Point, Trail>, ghost order: seq<Point>, last: Trail)
    returns (position: Trail, stack': seq<Trail>, visited': set<Point>,
             ghost expandedBy': map<Point, Trail>, ghost order': seq<Point>)
    requires SearchInv(w, bounds, start, target, Elements(stack), visited, expandedBy, order, last)
    requires |stack| > 0 && last.at != target
    ensures SearchInv(w, bounds, start, target, Elements(stack'), visited', expandedBy', order', position)
    ensures position == stack[|stack| - 1]
    ensures position.at in visited ==> visited' == visited && order' == order
    ensures position.at !in visited ==> visited' == visited + {position.at} && order' == order + [position.at]
    ensures Unexpanded(bounds, visited') < Unexpanded(bounds, visited) || (visited' == visited && |stack'| < |stack|)
  {
    position := stack[|stack| - 1];
    stack' := stack[..|stack| - 1];
    StackElements(stack, []);
    if position.at in visited {
      SkipKeepsInv(w, bounds, start, target, Elements(stack), Elements(stack'), visited, expandedBy, order, last, position);
      visited', expandedBy', order' := visited, expandedBy, order;
      return;
    }
    LinkedInBounds(w, bounds, start, position);
    visited' := visited + {position.at};
    expandedBy', order' := expandedBy[position.at := position], order + [position.at];
    var next := Successors(w, bounds, visited', position);
    StackElements(stack, next);
    ExpandKeepsInv(w, bounds, start, target, Elements(stack), Elements(stack'), next, visited, expandedBy, order, last, position);
    ExpandShrinks(bounds, visited, position.at);
    stack' := stack' + next;
  }

  /** `solveDFS` from `start` (script.js:458-501): depth-first search that
      stops when the stack runs dry or the target is popped. */
  method SolveDFS(w: Walls, bounds: Point, start: Point, target: Point)
    returns (last: Trail, ghost expanded: set<Point>, ghost order: seq<Point>)
    requires IsGrid(w, bounds) && InsideBounds(start, bounds)
    ensures Linked(w, bounds, start, last) && (last.at == target <==> Reachable(w, bounds, start, target))
    ensures SearchResult(w, bounds, start, target, last, expanded, order)
  {
    var visited: set<Point> := {};
    ghost var expandedBy: map<Point, Trail> := map[];
    order := [];
    last := Root(start);
    var stack := [last];
    assert Elements(stack) == {Root(start)};
    SearchStarts(w, bounds, start, target);
    while |stack| > 0 && last.at != target
      invariant SearchInv(w, bounds, start, target, Elements(stack), visited, expandedBy, order, last)
      decreases Unexpanded(bounds, visited), |stack|
    {
      last, stack, visited, expandedBy, order := DfsStep(w, bounds, start, target, stack, visited, expandedBy, order, last);
    }
    SearchDone(w, bounds, start, target, Elements(stack), visited, expandedBy, order, last);
    expanded := visited;
  }

  // ---------------------------------------------------------------- A*

  /** A record `{ position, f, g }` of the A* queue. */
  datatype SearchNode = SearchNode(trail: Trail, f: int, g: int)

  /** The A* comparator `(a, b) => a.f - b.f`. */
  function ByCost(a: SearchNode, b: SearchNode): int {
    a.f - b.f
  }

  /** The comparator is consistent: the sift loops' order lemmas apply to it. */
  lemma ByCostConsistent()
    ensures ConsistentComparator(ByCost)
  {
  }

  /** The entries held by a heap. */
  function Trails(h: seq<SearchNode>): (r: set<Trail>)
    ensures forall t :: t in r <==> exists n :: n in h && n.trail == t
  {
    set n | n in h :: n.trail
  }

  /** `g` counts the steps of the entry's route and `f` adds the Manhattan
      estimate to the target, except on the start record `{ f: 0, g: 0 }`. */
  ghost predicate CostsExact(h: seq<SearchNode>, target: Point) {
    forall n :: n in h ==>
      n.g == Depth(n.trail) && n.f == if n.trail.Root? then 0 else n.g + Heuristic(n.trail.at, target)
  }

  lemma Queued(h: seq<SearchNode>, h': seq<SearchNode>, v: SearchNode)
    requires multiset(h') == multiset(h) + multiset{v}
    ensures Trails(h') == Trails(h) + {v.trail}
  {
    assert forall n :: n in h' <==> n in multiset(h');
    assert forall n :: n in h <==> n in multiset(h);
  }

  lemma QueuedCosts(h: seq<SearchNode>, h': seq<SearchNode>, v: SearchNode, target: Point)
    requires multiset(h') == multiset(h) + multiset{v}
    requires CostsExact(h, target) && CostsExact([v], target)
    ensures CostsExact(h', target)
  {
    forall n | n in h' ensures n in h || n == v {
      assert n in multiset(h');
    }
  }

  lemma Dequeued(h: seq<SearchNode>, h': seq<SearchNode>)
    requires |h| > 0 && multiset(h') == multiset(h) - multiset{h[0]}
    ensures Trails(h') <= Trails(h) <= Trails(h') + {h[0].trail}
    ensures forall n :: n in h' ==> n in h
  {
    assert forall n :: n in h' <==> n in multiset(h');
    assert forall n :: n in h <==> n in multiset(h);
    forall t | t in Trails(h) && t != h[0].trail ensures t in Trails(h') {
      var n :| n in h && n.trail == t;
      assert n != h[0] && multiset(h')[n] == multiset(h)[n];
    }
  }

  /** The record queued for a successor carries its exact step count and
      estimate: a neighbour is one heuristic unit away. */
  lemma SuccessorCost(w: Walls, bounds: Point, target: Point, node: SearchNode, record: SearchNode)
    requires node.g == Depth(node.trail)
    requires record.trail == Via(record.trail.at, node.trail) && OpenStep(w, bounds, node.trail.at, record.trail.at)
    requires record.g == node.g + Heuristic(node.trail.at, record.trail.at)
    requires record.f == record.g + Heuristic(record.trail.at, target)
    ensures CostsExact([record], target)
  {
    StepCost(node.trail.at, SideTowards(node.trail.at, record.trail.at).value);
  }

  /** One round of the queueing loop of `solveAStar` (script.js:694-699):
      the successor's record, with `g` one step more than the expanded
      record's and `f` adding the estimate to the target. */
  method QueueSuccessor(ghost w: Walls, ghost bounds: Point, target: Point, queue: PriorityQueue<SearchNode>,
                        node: SearchNode, t: Trail)
    requires CostsExact(queue.heap, target) && node.g == Depth(node.trail)
    requires t == Via(t.at, node.trail) && OpenStep(w, bounds, node.trail.at, t.at)
    modifies queue
    ensures Trails(queue.heap) == Trails(old(queue.heap)) + {t}
    ensures CostsExact(queue.heap, target)
  {
    var g := node.g + Heuristic(node.trail.at, t.at);
    var h := Heuristic(t.at, target);
    var f := g + h;
    var record := SearchNode(t, f, g);
    SuccessorCost(w, bounds, target, node, record);
    ghost var pre := queue.heap;
    queue.Queue(record);
    Queued(pre, queue.heap, record);
    QueuedCosts(pre, queue.heap, record, target);
  }

  /** The queueing half of the neighbour scan of `solveAStar`
      (script.js:678-700): one record per successor, `g` one step more than
      the expanded record's and `f` adding the estimate to the target. */
  method QueueSuccessors(ghost w: Walls, ghost bounds: Point, target: Point, queue: PriorityQueue<SearchNode>,
                         node: SearchNode, next: seq<Trail>)
    requires CostsExact(queue.heap, target) && node.g == Depth(node.trail)
    requires forall k :: 0 <= k < |next| ==> next[k] == Via(next[k].at, node.trail) && OpenStep(w, bounds, node.trail.at, next[k].at)
    modifies queue
    ensures Trails(queue.heap) == Trails(old(queue.heap)) + Elements(next)
    ensures CostsExact(queue.heap, target)
  {
    ghost var before := Trails(queue.heap);
    ghost var queued: set<Trail> := {};
    for k := 0 to |next|
      invariant queued == Elements(next[..k])
      invariant Trails(queue.heap) == before + queued
      invariant CostsExact(queue.heap, target)
    {
      QueueSuccessor(w, bounds, target, queue, node, next[k]);
      ElementsPrefix(next, k);
      queued := queued + {next[k]};
    }
    assert next[..|next|] == next;
  }

  /** The body passed to `whileAsync` by `solveAStar` (script.js:666-701):
      dequeue a record; unless its cell is already expanded, expand it and
      queue a record for each successor with its step count `g` and its
      estimate `f = g + h`. */
  method AStarStep(w: Walls, bounds: Point, start: Point, target: Point, queue: PriorityQueue<SearchNode>,
                   visited: set<Point>, ghost expandedBy: map<Point, Trail>, ghost order: seq<Point>, last: Trail)
    returns (position: Trail, visited': set<Point>, ghost expandedBy': map<Point, Trail>, ghost order': seq<Point>)
    requires SearchInv(w, bounds, start, target, Trails(queue.heap), visited, expandedBy, order, last)
    requires CostsExact(queue.heap, target)
    requires |queue.heap| > 0 && last.at != target
    modifies queue
    ensures SearchInv(w, bounds, start, target, Trails(queue.heap), visited', expandedBy', order', position)
    ensures CostsExact(queue.heap, target)
    ensures position == old(queue.heap)[0].trail
    ensures position.at in visited ==> visited' == visited && order' == order
    ensures position.at !in visited ==> visited' == visited + {position.at} && order' == order + [position.at]
    ensures Unexpanded(bounds, visited') < Unexpanded(bounds, visited) ||
            (visited' == visited && |queue.heap| < |old(queue.heap)|)
  {
    ghost var before := queue.heap;
    var root := queue.Dequeue();
    var node := root.value;
    position := node.trail;
    Dequeued(before, queue.heap);
    assert node in before;
    if position.at in visited {
      SkipKeepsInv(w, bounds, start, target, Trails(before), Trails(queue.heap), visited, expandedBy, order, last, position);
      visited', expandedBy', order' := visited, expandedBy, order;
      return;
    }
    LinkedInBounds(w, bounds, start, position);
    visited' := visited + {position.at};
    expandedBy', order' := expandedBy[position.at := position], order + [position.at];
    var next := Successors(w, bounds, visited', position);
    ghost var mid := queue.heap;
    QueueSuccessors(w, bounds, target, queue, node, next);
    ExpandKeepsInv(w, bounds, start, target, Trails(before), Trails(mid), next, visited, expandedBy, order, last, position);
    ExpandShrinks(bounds, visited, position.at);
  }

  /** `solveAStar` from `start` (script.js:654-702): best-first search on
      the estimate `f`, over the priority queue as written, that stops when
      the queue runs dry or the target is dequeued. */
  method SolveAStar(w: Walls, bounds: Point, start: Point, target: Point)
    returns (last: Trail, ghost expanded: set<Point>, ghost order: seq<Point>)
    requires IsGrid(w, bounds) && InsideBounds(start, bounds)
    ensures Linked(w, bounds, start, last) && (last.at == target <==> Reachable(w, bounds, start, target))
    ensures SearchResult(w, bounds, start, target, last, expanded, order)
  {
    var visited: set<Point> := {};
    ghost var expandedBy: map<Point, Trail> := map[];
    order := [];
    last := Root(start);
    var queue := new PriorityQueue<SearchNode>(ByCost);
    queue.Queue(SearchNode(last, 0, 0));
    Queued([], queue.heap, SearchNode(last, 0, 0));
    QueuedCosts([], queue.heap, SearchNode(last, 0, 0), target);
    assert Trails([]) == {};
    SearchStarts(w, bounds, start, target);
    while queue.Length() > 0 && last.at != target
      invariant SearchInv(w, bounds, start, target, Trails(queue.heap), visited, expandedBy, order, last)
      invariant CostsExact(queue.heap, target)
      decreases Unexpanded(bounds, visited), |queue.heap|
    {
      last, visited, expandedBy, order := AStarStep(w, bounds, start, target, queue, visited, expandedBy, order, last);
    }
    SearchDone(w, bounds, start, target, Trails(queue.heap), visited, expandedBy, order, last);
    expanded := visited;
  }
}
