/** Sequence and set facts shared by the heap, the carver and the searches. */
module Collections {

  /** `[array[i], array[j]] = [array[j], array[i]]` on a sequence. */
  function Swapped<T>(s: seq<T>, i: nat, j: nat): (r: seq<T>)
    requires i < |s| && j < |s|
    ensures |r| == |s| && r[i] == s[j] && r[j] == s[i]
    ensures forall k :: 0 <= k < |s| && k != i && k != j ==> r[k] == s[k]
  {
    s[i := s[j]][j := s[i]]
  }

  /** A swap rearranges the elements and loses none. */
  lemma SwappedPermutes<T>(s: seq<T>, i: nat, j: nat)
    requires i < |s| && j < |s|
    ensures multiset(Swapped(s, i, j)) == multiset(s)
  {
  }

  function Reversed<T>(s: seq<T>): (r: seq<T>)
    ensures |r| == |s|
    ensures forall i :: 0 <= i < |s| ==> r[i] == s[|s| - 1 - i]
  {
    if s == [] then [] else [s[|s| - 1]] + Reversed(s[..|s| - 1])
  }

  lemma ReversedAppend<T>(s: seq<T>, x: T)
    ensures Reversed(s + [x]) == [x] + Reversed(s)
  {
    assert forall i :: 0 <= i < |s| + 1 ==> Reversed(s + [x])[i] == ([x] + Reversed(s))[i];
  }

  /** A sequence that starts inside a set and ends outside it crosses its
      border somewhere. */
  lemma {:induction false} Crossing<T>(s: seq<T>, inside: set<T>)
    requires |s| > 0 && s[0] in inside && s[|s| - 1] !in inside
    ensures exists j :: 0 < j < |s| && s[j - 1] in inside && s[j] !in inside
  {
    if s[|s| - 2] in inside {
      assert s[|s| - 2] in inside && s[|s| - 1] !in inside;
    } else {
      Crossing(s[..|s| - 1], inside);
      var j :| 0 < j < |s| - 1 && s[..|s| - 1][j - 1] in inside && s[..|s| - 1][j] !in inside;
      assert s[j - 1] in inside && s[j] !in inside;
    }
  }

  /** A subset is no larger than its superset, and strictly smaller when
      the superset holds an element it lacks. */
  lemma {:induction false} SubsetCount<T>(a: set<T>, b: set<T>)
    requires a <= b
    ensures |a| <= |b|
    ensures (exists x :: x in b && x !in a) ==> |a| < |b|
    decreases |b|
  {
    if b != {} {
      var x :| x in b;
      SubsetCount(a - {x}, b - {x});
      if x !in a {
        assert a - {x} == a;
      }
      if exists y :: y in b && y !in a {
        var y :| y in b && y !in a;
        if y != x {
          assert y in b - {x} && y !in a - {x};
        }
      }
    }
  }

  function Last<T>(s: seq<T>): T
    requires |s| > 0
  {
    s[|s| - 1]
  }
}
