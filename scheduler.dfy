/**
 * The loop semantics of `whileAsync(cond, body, chunkSize, period)`
 * (script.js:81-96). Every timer tick runs up to `chunkSize` rounds, each
 * of which tests `cond()` and either resolves the promise or calls `body()`.
 * Timers, the `period` and promise resolution are not modelled: the closure
 * state the two callbacks share becomes an explicit state value.
 */
module Scheduler {

  /** The state after `k` calls of `body`. */
  function Iterate<S>(body: S -> S, s: S, k: nat): S
    decreases k
  {
    if k == 0 then s else body(Iterate(body, s, k - 1))
  }

  /** `chunkSize || 10`: a chunk size of 0 (or an absent one) means 10. */
  function ChunkSize(chunkSize: nat): (size: nat)
    ensures size >= 1
    ensures chunkSize != 0 ==> size == chunkSize
  {
    if chunkSize == 0 then 10 else chunkSize
  }

  /** The number of rounds of `while (cond()) body()`: the first state that
      fails the condition. */
  ghost predicate StopsAfter<S>(cond: S -> bool, body: S -> S, s0: S, calls: nat) {
    !cond(Iterate(body, s0, calls)) &&
    forall k: nat :: k < calls ==> cond(Iterate(body, s0, k))
  }

  /** A loop stops after one number of rounds only. */
  lemma StopsOnce<S>(cond: S -> bool, body: S -> S, s0: S, m: nat, n: nat)
    requires StopsAfter(cond, body, s0, m) && StopsAfter(cond, body, s0, n)
    ensures m == n
  {
  }

  /** Runs the chunked loop to completion. It makes exactly the calls of
      `while (cond()) body()`, in the same order, testing `cond` before each,
      and takes `calls / size + 1` ticks (stated by multiplication), the
      last of which finds `cond` false.
      The loop must stop eventually, or the promise never resolves. */
  method WhileAsync<S>(cond: S -> bool, body: S -> S, s0: S, chunkSize: nat) returns (s: S, calls: nat, ticks: nat)
    requires exists k: nat :: !cond(Iterate(body, s0, k))
    ensures s == Iterate(body, s0, calls)
    ensures StopsAfter(cond, body, s0, calls)
    ensures ticks >= 1 && (ticks - 1) * ChunkSize(chunkSize) <= calls < ticks * ChunkSize(chunkSize)
  {
    var size := ChunkSize(chunkSize);
    ghost var bound: nat :| !cond(Iterate(body, s0, bound));
    s, calls, ticks := s0, 0, 0;
    var resolved := false;
    while !resolved
      invariant s == Iterate(body, s0, calls)
      invariant forall k: nat :: k < calls ==> cond(Iterate(body, s0, k))
      invariant calls <= bound
      invariant resolved ==> !cond(s) && ticks >= 1 && (ticks - 1) * size <= calls < ticks * size
      invariant !resolved ==> calls == ticks * size
      decreases bound - calls + (if resolved then 0 else 1)
    {
      ghost var base := calls;
      assert base + size == (ticks + 1) * size;
      ticks := ticks + 1;
      var k := 0;
      while k < size
        invariant 0 <= k <= size
        invariant s == Iterate(body, s0, calls)
        invariant forall j: nat :: j < calls ==> cond(Iterate(body, s0, j))
        invariant calls <= bound
        invariant calls == base + k
        invariant resolved ==> !cond(s) && k < size
      {
        if !cond(s) {
          resolved := true;
          break;
        }
        s := body(s);
        calls := calls + 1;
        k := k + 1;
      }
    }
  }
}
