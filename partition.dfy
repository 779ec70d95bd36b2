/**
  The partition plan of the parallel reducer: `n` input positions are split
  among `w` workers into contiguous blocks of `n / w` positions, and the last
  worker's block is stretched to end at `n`, so that it also takes the
  remainder of the division.
*/
module Partition {

  /** The length of every block but the last one (integer division). */
  function BlockSize(n: nat, w: nat): (b: nat)
    requires w >= 1
    ensures b * w <= n < (b + 1) * w
  {
    n / w
  }

  /** Where worker `t`'s block starts. */
  function Start(n: nat, w: nat, t: nat): (s: nat)
    requires w >= 1 && t < w
    ensures s + BlockSize(n, w) <= n
  {
    MulMonotone(t + 1, w, BlockSize(n, w));
    t * BlockSize(n, w)
  }

  /** Where worker `t`'s block ends (exclusive); the last worker's ends at `n`. */
  function End(n: nat, w: nat, t: nat): (e: nat)
    requires w >= 1 && t < w
    ensures Start(n, w, t) <= e <= n
  {
    if t == w - 1 then n else (t + 1) * BlockSize(n, w)
  }

  lemma MulMonotone(a: nat, b: nat, c: nat)
    requires a <= b
    ensures a * c <= b * c
  {
  }

  /** The blocks are chained: the first starts at 0, the last ends at `n`, and each ends where the next starts. */
  lemma Chained(n: nat, w: nat)
    requires w >= 1
    ensures Start(n, w, 0) == 0 && End(n, w, w - 1) == n
    ensures forall t :: 0 <= t < w - 1 ==> End(n, w, t) == Start(n, w, t + 1)
  {
  }

  /** The blocks of two different workers are disjoint: an earlier block ends before a later one starts. */
  lemma Disjoint(n: nat, w: nat, t1: nat, t2: nat)
    requires t1 < t2 < w
    ensures End(n, w, t1) <= Start(n, w, t2)
  {
    MulMonotone(t1 + 1, t2, BlockSize(n, w));
  }

  /** The worker whose block holds position `k`: every position of `[0, n)` is covered. */
  function Owner(n: nat, w: nat, k: nat): (t: nat)
    requires w >= 1 && k < n
    ensures t < w && Start(n, w, t) <= k < End(n, w, t)
  {
    var b := BlockSize(n, w);
    if b == 0 then
      w - 1
    else
      var q := k / b;
      DivBounds(k, b);
      if q >= w - 1 then
        MulMonotone(w - 1, q, b);
        w - 1
      else
        q
  }

  lemma DivBounds(k: nat, b: nat)
    requires b > 0
    ensures (k / b) * b <= k < (k / b + 1) * b
  {
  }

  /** No position is covered twice: the owner is the only worker whose block holds `k`. */
  lemma OwnerUnique(n: nat, w: nat, k: nat)
    requires w >= 1 && k < n
    ensures forall t :: 0 <= t < w && Start(n, w, t) <= k < End(n, w, t) ==> t == Owner(n, w, k)
  {
    var o := Owner(n, w, k);
    forall t | 0 <= t < w && Start(n, w, t) <= k < End(n, w, t)
      ensures t == o
    {
      if t < o {
        Disjoint(n, w, t, o);
      } else if o < t {
        Disjoint(n, w, o, t);
      }
    }
  }

  /** The total length of the blocks of workers `0 .. m - 1`. */
  function TotalLength(n: nat, w: nat, m: nat): nat
    requires w >= 1 && m <= w
  {
    if m == 0 then 0 else TotalLength(n, w, m - 1) + (End(n, w, m - 1) - Start(n, w, m - 1))
  }

  lemma {:induction false} TotalLengthPrefix(n: nat, w: nat, m: nat)
    requires w >= 1 && 1 <= m <= w
    ensures TotalLength(n, w, m) == End(n, w, m - 1)
    decreases m
  {
    if m > 1 {
      TotalLengthPrefix(n, w, m - 1);
    }
  }

  /** The lengths of all `w` blocks add up to `n`. */
  lemma TotalLengthIsN(n: nat, w: nat)
    requires w >= 1
    ensures TotalLength(n, w, w) == n
  {
    TotalLengthPrefix(n, w, w);
  }

  /**
    With fewer positions than workers the block size is 0: every worker but
    the last gets the empty block at 0 and the last gets all of `[0, n)`.
  */
  lemma FewerPositionsThanWorkers(n: nat, w: nat)
    requires n < w
    ensures BlockSize(n, w) == 0
    ensures forall t :: 0 <= t < w - 1 ==> Start(n, w, t) == End(n, w, t) == 0
    ensures Start(n, w, w - 1) == 0 && End(n, w, w - 1) == n
  {
  }
}
