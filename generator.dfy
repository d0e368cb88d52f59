/**
 * The randomized depth-first maze carver: `generate` (script.js:273-316),
 * `generateMultipleSolutions` (script.js:552-596) and `shuffleArray`
 * (script.js:598-603).
 *
 * `Math.random` is an input. For `generate` it is the sequence of values
 * `rolls(step)` that `parseInt(Math.random() * 1000)` produces at each call
 * of the loop body; for `generateMultipleSolutions` it is the family
 * `draws(step)(i)` of values behind `Math.floor(Math.random() * (i + 1))`,
 * one family per shuffle.
 */
module Generator {
  import opened Optional
  import opened Collections
  import opened Geometry
  import opened Grid

  /** Where the carver takes its random choices from. */
  datatype Choice =
    | RandomIndex(rolls: nat -> nat)
    | ShuffleAndPop(draws: nat -> nat -> nat)

  // ---------------------------------------------------------------- shuffle

  /** The Fisher-Yates rounds of `shuffleArray` from index `i` down to 1. */
  function ShuffleDown<T>(s: seq<T>, draw: nat -> nat, i: int): (r: seq<T>)
    requires -1 <= i < |s|
    ensures |r| == |s|
    decreases i
  {
    if i <= 0 then s
    else ShuffleDown(Swapped(s, i, draw(i) % (i + 1)), draw, i - 1)
  }

  /** The arrangement `shuffleArray` leaves, given its random draws. */
  function Shuffled<T>(s: seq<T>, draw: nat -> nat): (r: seq<T>)
    ensures |r| == |s|
  {
    ShuffleDown(s, draw, |s| - 1)
  }

  lemma {:induction false} ShuffleDownPermutes<T>(s: seq<T>, draw: nat -> nat, i: int)
    requires -1 <= i < |s|
    ensures multiset(ShuffleDown(s, draw, i)) == multiset(s)
    decreases i
  {
    if i > 0 {
      var j := draw(i) % (i + 1);
      SwappedPermutes(s, i, j);
      ShuffleDownPermutes(Swapped(s, i, j), draw, i - 1);
    }
  }

  /** A shuffle is a permutation: every element is kept, as often as before. */
  lemma ShuffledPermutes<T>(s: seq<T>, draw: nat -> nat)
    ensures multiset(Shuffled(s, draw)) == multiset(s)
  {
    ShuffleDownPermutes(s, draw, |s| - 1);
  }

  /** `shuffleArray(array)`: in-place Fisher-Yates with `j = draw(i) % (i + 1)`. */
  method ShuffleArray<T>(a: array<T>, draw: nat -> nat)
    modifies a
    ensures a[..] == Shuffled(old(a[..]), draw)
    ensures multiset(a[..]) == multiset(old(a[..]))
  {
    var i := a.Length - 1;
    while i > 0
      invariant -1 <= i < a.Length
      invariant ShuffleDown(a[..], draw, i) == Shuffled(old(a[..]), draw)
      decreases i
    {
      var j := draw(i) % (i + 1);
      ghost var before := a[..];
      a[i], a[j] := a[j], a[i];
      assert a[..] == Swapped(before, i, j);
      i := i - 1;
    }
    ShuffledPermutes(old(a[..]), draw);
  }

  /** The neighbour one loop body carves into: `adjacents[rand % length]` in
      `generate` (script.js:303-304), the last element after shuffling in
      `generateMultipleSolutions` (script.js:582-584). */
  method Choose(adjacents: seq<Adjacent>, choice: Choice, step: nat) returns (np: Adjacent)
    requires |adjacents| > 0
    ensures np in adjacents
    ensures choice.RandomIndex? ==> np == adjacents[choice.rolls(step) % |adjacents|]
    ensures choice.ShuffleAndPop? ==> np == Last(Shuffled(adjacents, choice.draws(step)))
  {
    match choice
    case RandomIndex(rolls) =>
      np := adjacents[rolls(step) % |adjacents|];
    case ShuffleAndPop(draws) =>
      var a := new Adjacent[|adjacents|](k requires 0 <= k < |adjacents| => adjacents[k]);
      assert a[..] == adjacents;
      ShuffleArray(a, draws(step));
      np := a[a.Length - 1];
      assert np in multiset(a[..]);
  }

  // ---------------------------------------------------------------- the carved tree

  /** `a` is the parent of `b` in the carving tree, or `b` is the parent of `a`. */
  predicate TreeEdge(parent: map<Point, Point>, a: Point, b: Point) {
    (b in parent && parent[b] == a) || (a in parent && parent[a] == b)
  }

  /** The open sides of each block are exactly those it had before carving
      began and those that lead along a tree edge. */
  ghost predicate TreeWalls(w: Walls, initial: Walls, parent: map<Point, Point>) {
    forall p, s :: p in w && p in initial ==> (s in w[p] <==> s in initial[p] || TreeEdge(parent, p, Move(p, s)))
  }

  /** The walls `initial` with the links of a tree rooted at `start` opened:
      every cell but the start hangs below an adjacent parent ranked before
      it, so following parents always ends at the start. */
  ghost predicate RootedTree(bounds: Point, start: Point, initial: Walls, walls: Walls, rank: map<Point, nat>, parent: map<Point, Point>) {
    && IsGrid(walls, bounds) && IsGrid(initial, bounds)
    && rank.Keys == AllCells(bounds)
    && start in rank && rank[start] == 0
    && parent.Keys == AllCells(bounds) - {start}
    && (forall c :: c in parent ==> parent[c] in rank && SideTowards(parent[c], c).Some?)
    && (forall c :: c in parent ==> rank[parent[c]] < rank[c])
    && TreeWalls(walls, initial, parent)
  }

  /** What the carver leaves behind: every cell visited once, with the visit
      indices 0..n-1 (`block.dataset.index`), and the walls it opened
      forming a tree rooted at `start` in which every parent was visited
      before its child, on top of the walls open before. */
  ghost predicate CarvedTree(bounds: Point, start: Point, initial: Walls, walls: Walls, index: map<Point, nat>, parent: map<Point, Point>) {
    && RootedTree(bounds, start, initial, walls, index, parent)
    && (forall p :: p in index ==> index[p] < |AllCells(bounds)|)
    && (forall p, q :: p in index && q in index && p != q ==> index[p] != index[q])
  }

  /** `walls` is `initial` with the links of a spanning tree rooted at
      `start` opened, for some visit order. */
  ghost predicate SpanningTreeOver(bounds: Point, start: Point, initial: Walls, walls: Walls) {
    exists rank, parent :: RootedTree(bounds, start, initial, walls, rank, parent)
  }

  /** Carving keeps every wall that was open, opens exactly
      `bounds.x * bounds.y - 1` wall pairs, keeps symmetric walls symmetric,
      and connects every cell with every other. */
  lemma CarvedTreeProperties(bounds: Point, start: Point, initial: Walls, walls: Walls, index: map<Point, nat>, parent: map<Point, Point>)
    requires InsideBounds(start, bounds) && CarvedTree(bounds, start, initial, walls, index, parent)
    ensures forall p :: p in initial ==> p in walls && initial[p] <= walls[p]
    ensures Symmetric(initial, bounds) ==> Symmetric(walls, bounds)
    ensures |parent| == bounds.x * bounds.y - 1
    ensures Connected(walls, bounds)
  {
    if Symmetric(initial, bounds) {
      CarvedTreeSymmetric(bounds, start, initial, walls, index, parent);
    }
    CellCount(bounds);
    assert parent.Keys == AllCells(bounds) - {start};
    CarvedTreeConnected(bounds, start, initial, walls, index, parent);
  }

  /** Every tree link and its two cells stay inside the grid. */
  ghost predicate TreeInBounds(bounds: Point, parent: map<Point, Point>) {
    forall c :: c in parent ==> InsideBounds(c, bounds) && InsideBounds(parent[c], bounds)
  }

  lemma CarvedTreeSymmetric(bounds: Point, start: Point, initial: Walls, walls: Walls, index: map<Point, nat>, parent: map<Point, Point>)
    requires CarvedTree(bounds, start, initial, walls, index, parent) && Symmetric(initial, bounds)
    ensures Symmetric(walls, bounds)
  {
    assert TreeInBounds(bounds, parent);
    forall p, s | p in walls && s in walls[p]
      ensures InsideBounds(Move(p, s), bounds) && Move(p, s) in walls && Opposite(s) in walls[Move(p, s)]
    {
      SymmetricAt(bounds, initial, walls, parent, p, s);
    }
  }

  lemma SymmetricAt(bounds: Point, initial: Walls, walls: Walls, parent: map<Point, Point>, p: Point, s: Side)
    requires IsGrid(walls, bounds) && IsGrid(initial, bounds) && Symmetric(initial, bounds)
    requires TreeWalls(walls, initial, parent) && TreeInBounds(bounds, parent)
    requires p in walls && s in walls[p]
    ensures InsideBounds(Move(p, s), bounds) && Move(p, s) in walls && Opposite(s) in walls[Move(p, s)]
  {
    var q := Move(p, s);
    OppositeUndoesMove(p, s);
    assert Move(q, Opposite(s)) == p;
    if s !in initial[p] {
      assert TreeEdge(parent, p, q);
    }
  }

  /** Each tree link is open in both directions. */
  ghost predicate TreeOpen(w: Walls, bounds: Point, parent: map<Point, Point>) {
    forall c :: c in parent ==> OpenStep(w, bounds, parent[c], c) && OpenStep(w, bounds, c, parent[c])
  }

  lemma CarvedTreeOpen(bounds: Point, start: Point, initial: Walls, walls: Walls, index: map<Point, nat>, parent: map<Point, Point>)
    requires CarvedTree(bounds, start, initial, walls, index, parent)
    ensures TreeOpen(walls, bounds, parent)
  {
    forall c | c in parent ensures OpenStep(walls, bounds, parent[c], c) && OpenStep(walls, bounds, c, parent[c]) {
      var p := parent[c];
      var s := SideTowards(p, c).value;
      OppositeUndoesMove(p, s);
      assert TreeEdge(parent, p, Move(p, s));
      assert TreeEdge(parent, c, Move(c, Opposite(s)));
      OpenStepThrough(walls, bounds, p, s);
      OpenStepThrough(walls, bounds, c, Opposite(s));
    }
  }

  lemma CarvedTreeConnected(bounds: Point, start: Point, initial: Walls, walls: Walls, index: map<Point, nat>, parent: map<Point, Point>)
    requires InsideBounds(start, bounds) && CarvedTree(bounds, start, initial, walls, index, parent)
    ensures Connected(walls, bounds)
  {
    CarvedTreeOpen(bounds, start, initial, walls, index, parent);
    forall a, b | InsideBounds(a, bounds) && InsideBounds(b, bounds)
      ensures Reachable(walls, bounds, a, b)
    {
      ReachesStart(bounds, start, walls, index, parent, a);
      ReachedFromStart(bounds, start, walls, index, parent, b);
      var ps :| IsWalk(walls, bounds, ps) && ps[0] == a && ps[|ps| - 1] == start;
      var qs :| IsWalk(walls, bounds, qs) && qs[0] == start && qs[|qs| - 1] == b;
      JoinedWalk(walls, bounds, ps, qs);
      var js := ps + qs[1..];
      assert js[0] == a && js[|js| - 1] == b;
    }
  }

  /** The tree part of `CarvedTree`: every cell but the start hangs below a
      parent with a smaller visit index. */
  ghost predicate Rooted(bounds: Point, start: Point, index: map<Point, nat>, parent: map<Point, Point>) {
    && index.Keys == AllCells(bounds) && start in index
    && parent.Keys == AllCells(bounds) - {start}
    && (forall c :: c in parent ==> parent[c] in index && index[parent[c]] < index[c])
  }

  /** Following parents leads back to the start, along open walls. */
  lemma {:induction false} ReachesStart(bounds: Point, start: Point, walls: Walls, index: map<Point, nat>, parent: map<Point, Point>, c: Point)
    requires InsideBounds(start, bounds) && Rooted(bounds, start, index, parent) && TreeOpen(walls, bounds, parent)
    requires InsideBounds(c, bounds)
    ensures Reachable(walls, bounds, c, start)
    decreases index[c]
  {
    if c == start {
      assert IsWalk(walls, bounds, [start]);
    } else {
      var p := parent[c];
      ReachesStart(bounds, start, walls, index, parent, p);
      var ps :| IsWalk(walls, bounds, ps) && ps[0] == p && ps[|ps| - 1] == start;
      assert IsWalk(walls, bounds, [c, p]);
      JoinedWalk(walls, bounds, [c, p], ps);
      var qs := [c, p] + ps[1..];
      assert qs[0] == c && qs[|qs| - 1] == start;
    }
  }

  /** Following parents from the start leads to every cell, along open walls. */
  lemma {:induction false} ReachedFromStart(bounds: Point, start: Point, walls: Walls, index: map<Point, nat>, parent: map<Point, Point>, c: Point)
    requires InsideBounds(start, bounds) && Rooted(bounds, start, index, parent) && TreeOpen(walls, bounds, parent)
    requires InsideBounds(c, bounds)
    ensures Reachable(walls, bounds, start, c)
    decreases index[c]
  {
    if c == start {
      assert IsWalk(walls, bounds, [start]);
    } else {
      var p := parent[c];
      ReachedFromStart(bounds, start, walls, index, parent, p);
      var ps :| IsWalk(walls, bounds, ps) && ps[0] == start && ps[|ps| - 1] == p;
      assert IsWalk(walls, bounds, [p, c]);
      JoinedWalk(walls, bounds, ps, [p, c]);
      var qs := ps + [p, c][1..];
      assert qs[0] == start && qs[|qs| - 1] == c;
    }
  }

  /** Knocking down the wall between `point` and its unvisited neighbour
      `np` opens exactly the two flags `point.open[np.side]` and
      `neighbour.open[np.oppositeSide]`, and the walls still follow the tree
      once `np` hangs below `point`. */
  lemma KnockDownKeepsTree(w: Walls, initial: Walls, parent: map<Point, Point>, point: Point, np: Adjacent)
    requires TreeWalls(w, initial, parent) && w.Keys == initial.Keys
    requires point in w && np.at in w
    requires np.at == Move(point, np.side) && np.oppositeSide == Opposite(np.side)
    requires np.at !in parent && forall c :: c in parent ==> parent[c] != np.at
    ensures TreeWalls(w[point := w[point] + {np.side}][np.at := w[np.at] + {np.oppositeSide}], initial, parent[np.at := point])
  {
    var a, b := point, np.at;
    OppositeUndoesMove(a, np.side);
    assert a != b by {
      MoveInjective(a, np.side, np.oppositeSide);
    }
    var w' := w[a := w[a] + {np.side}][b := w[b] + {np.oppositeSide}];
    var parent' := parent[b := a];
    forall p, s | p in w' && p in initial ensures s in w'[p] <==> s in initial[p] || TreeEdge(parent', p, Move(p, s)) {
      var q := Move(p, s);
      assert q != p by {
        OppositeUndoesMove(p, s);
        MoveInjective(p, s, Opposite(s));
      }
      if p == b {
        assert !TreeEdge(parent, b, q);
        MoveInjective(b, s, np.oppositeSide);
      } else if p == a {
        MoveInjective(a, s, np.side);
      } else if q == b {
        assert !TreeEdge(parent, p, b);
      }
    }
  }

  // ---------------------------------------------------------------- the carver

  /** Visited cells off the stack have no unvisited neighbour left. */
  ghost predicate Finished(bounds: Point, visited: set<Point>, stack: seq<Point>) {
    forall p, s :: p in visited && p !in stack && InsideBounds(Move(p, s), bounds) ==> Move(p, s) in visited
  }

  /** Once the stack runs dry every cell has been visited: the stack is never
      empty while `visited.size < blockCount`. */
  lemma DryStackCoversGrid(bounds: Point, start: Point, visited: set<Point>, stack: seq<Point>)
    requires InsideBounds(start, bounds) && Finished(bounds, visited, stack) && stack == []
    requires visited == {} ==> stack == [start]
    requires visited != {} ==> start in visited
    ensures AllCells(bounds) <= visited
  {
    ClosedRegionCoversGrid(visited, bounds, start);
  }

  /** The stack runs from `start`, stays in bounds, and all of it but the
      top is visited. */
  ghost predicate StackShape(bounds: Point, start: Point, stack: seq<Point>, visited: set<Point>) {
    && (forall k :: 0 <= k < |stack| ==> InsideBounds(stack[k], bounds))
    && (stack != [] ==> stack[0] == start)
    && (forall k :: 0 <= k < |stack| - 1 ==> stack[k] in visited)
    && (visited == {} ==> stack == [start])
  }

  /** The visited cells carry the distinct indices 0..i-1, the start 0. */
  ghost predicate Numbered(start: Point, visited: set<Point>, index: map<Point, nat>, i: nat) {
    && i == |visited| && index.Keys == visited
    && (visited != {} ==> start in visited && index[start] == 0)
    && (forall p :: p in index ==> index[p] < i)
    && (forall p, q :: p in index && q in index && p != q ==> index[p] != index[q])
  }

  /** Every cell seen so far but the start hangs below a visited, adjacent
      parent with a smaller index, and the stack is a chain of such links. */
  ghost predicate Hanging(start: Point, stack: seq<Point>, visited: set<Point>, index: map<Point, nat>, parent: map<Point, Point>) {
    && (forall p :: p in parent <==> p != start && (p in visited || p in stack))
    && (forall k :: 0 < k < |stack| ==> stack[k] in parent && parent[stack[k]] == stack[k - 1])
    && (forall c :: c in parent ==> parent[c] in visited && SideTowards(parent[c], c).Some?)
    && (forall c :: c in parent && c in visited && parent[c] in index && c in index ==> index[parent[c]] < index[c])
  }

  /** The invariant of the carving loop. */
  ghost predicate CarverState(bounds: Point, start: Point, initial: Walls, walls: Walls, stack: seq<Point>, visited: set<Point>,
                              index: map<Point, nat>, i: nat, parent: map<Point, Point>) {
    && IsGrid(walls, bounds) && IsGrid(initial, bounds) && visited <= AllCells(bounds)
    && StackShape(bounds, start, stack, visited)
    && Numbered(start, visited, index, i)
    && Finished(bounds, visited, stack)
    && Hanging(start, stack, visited, index, parent)
    && TreeWalls(walls, initial, parent)
  }

  /** The body's first part: the top of the stack is marked visited with the
      next index. */
  lemma VisitKeepsState(bounds: Point, start: Point, initial: Walls, walls: Walls, stack: seq<Point>, visited: set<Point>,
                        index: map<Point, nat>, i: nat, parent: map<Point, Point>)
    requires CarverState(bounds, start, initial, walls, stack, visited, index, i, parent)
    requires stack != [] && Last(stack) !in visited
    ensures CarverState(bounds, start, initial, walls, stack, visited + {Last(stack)}, index[Last(stack) := i], i + 1, parent)
  {
    var point := Last(stack);
    var visited', index' := visited + {point}, index[point := i];
    assert StackShape(bounds, start, stack, visited');
    VisitKeepsNumbered(start, stack, visited, index, i);
    assert Finished(bounds, visited', stack) by {
      forall p, s | p in visited' && p !in stack && InsideBounds(Move(p, s), bounds)
        ensures Move(p, s) in visited'
      {
        assert p in visited;
      }
    }
    VisitKeepsHanging(start, stack, visited, index, i, parent);
  }

  lemma VisitKeepsNumbered(start: Point, stack: seq<Point>, visited: set<Point>, index: map<Point, nat>, i: nat)
    requires Numbered(start, visited, index, i) && stack != [] && Last(stack) !in visited
    requires visited == {} ==> stack == [start]
    ensures Numbered(start, visited + {Last(stack)}, index[Last(stack) := i], i + 1)
  {
  }

  lemma VisitKeepsHanging(start: Point, stack: seq<Point>, visited: set<Point>, index: map<Point, nat>, i: nat, parent: map<Point, Point>)
    requires Numbered(start, visited, index, i) && Hanging(start, stack, visited, index, parent)
    requires stack != [] && Last(stack) !in visited
    ensures Hanging(start, stack, visited + {Last(stack)}, index[Last(stack) := i], parent)
  {
  }

  /** A visited top without unvisited neighbours is popped. */
  lemma PopKeepsState(bounds: Point, start: Point, initial: Walls, walls: Walls, stack: seq<Point>, visited: set<Point>,
                      index: map<Point, nat>, i: nat, parent: map<Point, Point>)
    requires CarverState(bounds, start, initial, walls, stack, visited, index, i, parent)
    requires stack != [] && Last(stack) in visited
    requires forall s :: InsideBounds(Move(Last(stack), s), bounds) ==> Move(Last(stack), s) in visited
    ensures CarverState(bounds, start, initial, walls, stack[..|stack| - 1], visited, index, i, parent)
  {
    var stack' := stack[..|stack| - 1];
    assert stack == stack' + [Last(stack)];
    assert StackShape(bounds, start, stack', visited);
    assert Finished(bounds, visited, stack') by {
      forall p, s | p in visited && p !in stack' && InsideBounds(Move(p, s), bounds)
        ensures Move(p, s) in visited
      {
        if p != Last(stack) {
          assert p !in stack;
        }
      }
    }
    PopKeepsHanging(start, stack, visited, index, parent);
  }

  lemma PopKeepsHanging(start: Point, stack: seq<Point>, visited: set<Point>, index: map<Point, nat>, parent: map<Point, Point>)
    requires Hanging(start, stack, visited, index, parent) && stack != [] && Last(stack) in visited
    ensures Hanging(start, stack[..|stack| - 1], visited, index, parent)
  {
    var stack' := stack[..|stack| - 1];
    assert stack == stack' + [Last(stack)];
    forall p | p in parent ensures p != start && (p in visited || p in stack') {
      if p !in visited {
        assert p in stack && p != Last(stack);
      }
    }
  }

  /** A visited top with an unvisited neighbour `np` knocks down the wall
      between them and pushes `np`. */
  lemma PushKeepsState(bounds: Point, start: Point, initial: Walls, walls: Walls, stack: seq<Point>, visited: set<Point>,
                       index: map<Point, nat>, i: nat, parent: map<Point, Point>, np: Adjacent)
    requires CarverState(bounds, start, initial, walls, stack, visited, index, i, parent)
    requires stack != [] && Last(stack) in visited && IsCandidate(Last(stack), bounds, visited, np)
    ensures var point := Last(stack);
      CarverState(bounds, start, initial,
                  walls[point := walls[point] + {np.side}][np.at := walls[np.at] + {np.oppositeSide}],
                  stack + [np.at], visited, index, i, parent[np.at := point])
  {
    var point := Last(stack);
    assert np.at !in stack;
    assert np.at !in parent && forall c :: c in parent ==> parent[c] != np.at;
    KnockDownKeepsTree(walls, initial, parent, point, np);
    var stack' := stack + [np.at];
    assert StackShape(bounds, start, stack', visited) by {
      forall k | 0 <= k < |stack'| - 1 ensures stack'[k] in visited {
        assert stack'[k] == stack[k];
      }
    }
    PushKeepsHanging(start, stack, visited, index, parent, np);
  }

  lemma PushKeepsHanging(start: Point, stack: seq<Point>, visited: set<Point>, index: map<Point, nat>, parent: map<Point, Point>, np: Adjacent)
    requires Hanging(start, stack, visited, index, parent) && stack != [] && Last(stack) in visited
    requires start in visited && np.at !in visited && np.at !in stack && np.at == Move(Last(stack), np.side)
    ensures Hanging(start, stack + [np.at], visited, index, parent[np.at := Last(stack)])
  {
    var point := Last(stack);
    SideTowardsMove(point, np.side);
    var stack' := stack + [np.at];
    var parent' := parent[np.at := point];
    assert np.at != start;
    forall p ensures p in parent' <==> p != start && (p in visited || p in stack') {
      assert p in stack' <==> p in stack || p == np.at;
    }
    forall k | 0 < k < |stack'| ensures stack'[k] in parent' && parent'[stack'[k]] == stack'[k - 1] {
      if k < |stack| {
        assert stack'[k] == stack[k] && stack'[k - 1] == stack[k - 1];
      }
    }
    forall c | c in parent' ensures parent'[c] in visited && SideTowards(parent'[c], c).Some? {
      if c != np.at {
        assert parent'[c] == parent[c];
      }
    }
    forall c | c in parent' && c in visited && parent'[c] in index && c in index ensures index[parent'[c]] < index[c] {
      assert c != np.at;
    }
  }

  /** What is left to do: unvisited cells count twice, stacked cells once,
      and an unvisited top is already half done. */
  ghost function Remaining(bounds: Point, stack: seq<Point>, visited: set<Point>): int {
    2 * (|AllCells(bounds)| - |visited|) + |stack| - (if stack != [] && Last(stack) !in visited then 2 else 0)
  }

  lemma VisitRemaining(bounds: Point, stack: seq<Point>, visited: set<Point>)
    requires stack != [] && Last(stack) !in visited
    ensures Remaining(bounds, stack, visited + {Last(stack)}) == Remaining(bounds, stack, visited)
  {
  }

  lemma PopRemaining(bounds: Point, stack: seq<Point>, visited: set<Point>)
    requires stack != [] && Last(stack) in visited && visited <= AllCells(bounds)
    requires forall k :: 0 <= k < |stack| - 1 ==> stack[k] in visited
    ensures 0 <= Remaining(bounds, stack[..|stack| - 1], visited) < Remaining(bounds, stack, visited)
  {
    SubsetCount(visited, AllCells(bounds));
    if |stack| > 1 {
      assert Last(stack[..|stack| - 1]) == stack[|stack| - 2];
    }
  }

  lemma PushRemaining(bounds: Point, stack: seq<Point>, visited: set<Point>, q: Point)
    requires stack != [] && Last(stack) in visited && visited <= AllCells(bounds)
    requires q !in visited && InsideBounds(q, bounds)
    ensures 0 <= Remaining(bounds, stack + [q], visited) < Remaining(bounds, stack, visited)
  {
    SubsetCount(visited, AllCells(bounds));
    assert q in AllCells(bounds);
  }

  /** One call of the loop body (script.js:283-313): mark the top of the stack
      visited, then pop it if it has no unvisited neighbour, or else carve
      into the chosen one and push it. The stack is never empty while cells
      remain unvisited, so the body never reads past it. */
  method CarveStep(bounds: Point, start: Point, choice: Choice, step: nat, ghost initial: Walls,
                   walls: Walls, stack: seq<Point>, visited: set<Point>, index: map<Point, nat>, i: nat,
                   ghost parent: map<Point, Point>)
    returns (walls': Walls, stack': seq<Point>, visited': set<Point>, index': map<Point, nat>, i': nat,
             ghost parent': map<Point, Point>)
    requires InsideBounds(start, bounds) && |visited| < |AllCells(bounds)|
    requires CarverState(bounds, start, initial, walls, stack, visited, index, i, parent)
    ensures CarverState(bounds, start, initial, walls', stack', visited', index', i', parent')
    ensures 0 <= Remaining(bounds, stack', visited') < Remaining(bounds, stack, visited)
  {
    walls', stack', visited', index', i', parent' := walls, stack, visited, index, i, parent;
    if stack' == [] {
      DryStackCoversGrid(bounds, start, visited', stack');
      SubsetCount(AllCells(bounds), visited');
      assert false;
    }
    var point := stack'[|stack'| - 1];
    if point !in visited' {
      VisitKeepsState(bounds, start, initial, walls', stack', visited', index', i', parent');
      VisitRemaining(bounds, stack', visited');
      visited' := visited' + {point};
      index' := index'[point := i'];
      i' := i' + 1;
    }
    assert Remaining(bounds, stack', visited') == Remaining(bounds, stack, visited);
    var adjacents := GetAdjacents(point, bounds, visited');
    if |adjacents| == 0 {
      PopKeepsState(bounds, start, initial, walls', stack', visited', index', i', parent');
      PopRemaining(bounds, stack', visited');
      stack' := stack'[..|stack'| - 1];
    } else {
      var np := Choose(adjacents, choice, step);
      assert IsCandidate(point, bounds, visited', np);
      PushKeepsState(bounds, start, initial, walls', stack', visited', index', i', parent', np);
      PushRemaining(bounds, stack', visited', np.at);
      stack' := stack' + [np.at];
      walls' := walls'[point := walls'[point] + {np.side}];
      walls' := walls'[np.at := walls'[np.at] + {np.oppositeSide}];
      parent' := parent'[np.at := point];
    }
  }

  /** The loop of `generate` and `generateMultipleSolutions`, run by
      `whileAsync` until `visited.size == blockCount`, over the blocks as
      they stand: carving only ever sets `open` flags. Besides the walls it
      returns the visit index of every block and, as a ghost, the tree of
      the carving. */
  method Carve(bounds: Point, start: Point, choice: Choice, initial: Walls)
    returns (walls: Walls, index: map<Point, nat>, ghost parent: map<Point, Point>)
    requires InsideBounds(start, bounds) && IsGrid(initial, bounds)
    ensures IsGrid(walls, bounds) && index.Keys == AllCells(bounds) && start in index && index[start] == 0
    ensures forall p, q :: p in index && q in index && p != q ==> index[p] != index[q]
    ensures forall p :: p in index ==> index[p] < bounds.x * bounds.y
    ensures CarvedTree(bounds, start, initial, walls, index, parent)
  {
    var blockCount := bounds.x * bounds.y;
    CellCount(bounds);
    walls := initial;
    var stack := [start];
    var visited: set<Point> := {};
    index := map[];
    parent := map[];
    var i := 0;
    var step := 0;
    while |visited| < blockCount
      invariant CarverState(bounds, start, initial, walls, stack, visited, index, i, parent)
      decreases Remaining(bounds, stack, visited)
    {
      walls, stack, visited, index, i, parent := CarveStep(bounds, start, choice, step, initial, walls, stack, visited, index, i, parent);
      step := step + 1;
    }
    CarverDone(bounds, start, initial, walls, stack, visited, index, i, parent);
  }

  /** A loop that has visited all `blockCount` cells leaves a carved tree. */
  lemma CarverDone(bounds: Point, start: Point, initial: Walls, walls: Walls, stack: seq<Point>, visited: set<Point>,
                   index: map<Point, nat>, i: nat, parent: map<Point, Point>)
    requires InsideBounds(start, bounds)
    requires CarverState(bounds, start, initial, walls, stack, visited, index, i, parent)
    requires |visited| >= bounds.x * bounds.y
    ensures CarvedTree(bounds, start, initial, walls, index, parent)
  {
    CellCount(bounds);
    SubsetCount(visited, AllCells(bounds));
    assert visited == AllCells(bounds);
    DoneNumbered(bounds, start, visited, index, i);
    DoneHanging(bounds, start, stack, visited, index, parent);
  }

  lemma DoneNumbered(bounds: Point, start: Point, visited: set<Point>, index: map<Point, nat>, i: nat)
    requires InsideBounds(start, bounds) && Numbered(start, visited, index, i) && visited == AllCells(bounds)
    ensures index.Keys == AllCells(bounds) && start in index && index[start] == 0
    ensures forall p :: p in index ==> index[p] < |AllCells(bounds)|
  {
    assert start in visited;
  }

  lemma DoneHanging(bounds: Point, start: Point, stack: seq<Point>, visited: set<Point>, index: map<Point, nat>, parent: map<Point, Point>)
    requires StackShape(bounds, start, stack, visited) && Hanging(start, stack, visited, index, parent)
    requires visited == AllCells(bounds) && index.Keys == visited
    ensures parent.Keys == AllCells(bounds) - {start}
    ensures forall c :: c in parent ==> parent[c] in index && SideTowards(parent[c], c).Some?
    ensures forall c :: c in parent ==> index[parent[c]] < index[c]
  {
  }

  /** `generate()`: the carver choosing `adjacents[rand % adjacents.length]`,
      over the blocks `reset` has just created. */
  method Generate(bounds: Point, start: Point, rolls: nat -> nat, initial: Walls)
    returns (walls: Walls, index: map<Point, nat>, ghost parent: map<Point, Point>)
    requires InsideBounds(start, bounds) && IsGrid(initial, bounds)
    ensures CarvedTree(bounds, start, initial, walls, index, parent)
    ensures Symmetric(initial, bounds) ==> Symmetric(walls, bounds)
    ensures Connected(walls, bounds)
  {
    walls, index, parent := Carve(bounds, start, RandomIndex(rolls), initial);
    CarvedTreeProperties(bounds, start, initial, walls, index, parent);
  }

  /** `generateMultipleSolutions()`: the carver popping the last neighbour
      after a shuffle, over the blocks as they stand. On an already carved
      maze it overlays a second spanning tree on the first, which is what
      opens alternative routes. */
  method GenerateMultipleSolutions(bounds: Point, start: Point, draws: nat -> nat -> nat, initial: Walls)
    returns (walls: Walls, index: map<Point, nat>, ghost parent: map<Point, Point>)
    requires InsideBounds(start, bounds) && IsGrid(initial, bounds)
    ensures CarvedTree(bounds, start, initial, walls, index, parent)
    ensures forall p :: p in initial ==> initial[p] <= walls[p]
    ensures Symmetric(initial, bounds) ==> Symmetric(walls, bounds)
    ensures Connected(walls, bounds)
  {
    walls, index, parent := Carve(bounds, start, ShuffleAndPop(draws), initial);
    CarvedTreeProperties(bounds, start, initial, walls, index, parent);
  }
}
