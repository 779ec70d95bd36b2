/**
  The parallel reducer. The `w` workers of the program run at the same
  time and meet at barriers; here they run one after the other, phase by
  phase and round by round. That order gives the same result because every
  worker writes only its own slot of the partial-results buffer, and within
  a combine round the slots the workers read are not the slots they write
  (see `CombineRoundInPlace`).
*/
module Parallel {
  import opened Folds
  import opened Partition
  import opened Combine

  /** The partial results after the local phase: worker `t` folds its block from 0. */
  function LocalPartials(op: BinOp, s: seq<int>, w: nat): (p: seq<int>)
    requires w >= 1
    ensures |p| == w
    ensures w == 1 ==> p == [FoldLeft(op, 0, s)]
  {
    assert s[0..|s|] == s;
    seq(w, t requires 0 <= t < w => FoldLeft(op, 0, s[Start(|s|, w, t)..End(|s|, w, t)]))
  }

  /** What the program returns: slot 0 after the combine, finalized with `op(_, 0)`. */
  function ParallelResult(op: BinOp, s: seq<int>, w: nat): (r: int)
    requires w >= 1
    ensures w == 1 ==> r == op(FoldLeft(op, 0, s), 0)
  {
    op(TreeResult(op, LocalPartials(op, s, w)), 0)
  }

  /** The same pipeline with the corrected combine schedule. */
  function FixedParallelResult(op: BinOp, s: seq<int>, w: nat): (r: int)
    requires w >= 1
    ensures w == 1 ==> r == op(FoldLeft(op, 0, s), 0)
  {
    op(FixedTreeResult(op, LocalPartials(op, s, w)), 0)
  }

  lemma {:induction false} LocalPartialsPrefix(op: BinOp, s: seq<int>, w: nat, m: nat)
    requires Monoid(op)
    requires 1 <= m <= w
    ensures FoldLeft(op, 0, LocalPartials(op, s, w)[..m]) == FoldLeft(op, 0, s[..End(|s|, w, m - 1)])
    decreases m
  {
    var p := LocalPartials(op, s, w);
    if m == 1 {
      assert p[..1] == [p[0]];
      FoldSingleton(op, p[0]);
      assert s[Start(|s|, w, 0)..End(|s|, w, 0)] == s[..End(|s|, w, 0)];
    } else {
      LocalPartialsPrefix(op, s, w, m - 1);
      assert p[..m][..m - 1] == p[..m - 1];
      PrefixThroughBlock(op, s, w, m - 1);
    }
  }

  /** The input up to the end of block `t` folds to the input up to block `t` combined with partial result `t`. */
  lemma PrefixThroughBlock(op: BinOp, s: seq<int>, w: nat, t: nat)
    requires Monoid(op)
    requires 1 <= t < w
    ensures FoldLeft(op, 0, s[..End(|s|, w, t)])
            == op(FoldLeft(op, 0, s[..End(|s|, w, t - 1)]), LocalPartials(op, s, w)[t])
  {
    var n := |s|;
    var mid, hi := End(n, w, t - 1), End(n, w, t);
    assert mid == Start(n, w, t);
    assert s[..hi] == s[..mid] + s[mid..hi];
    FoldConcat(op, s[..mid], s[mid..hi]);
  }

  /** For a monoid, folding the partial results in worker order gives the serial fold of the whole input. */
  lemma LocalPartialsFold(op: BinOp, s: seq<int>, w: nat)
    requires Monoid(op)
    requires w >= 1
    ensures FoldLeft(op, 0, LocalPartials(op, s, w)) == FoldLeft(op, 0, s)
  {
    LocalPartialsPrefix(op, s, w, w);
    assert LocalPartials(op, s, w)[..w] == LocalPartials(op, s, w);
    assert s[..|s|] == s;
  }

  /** For a power-of-two worker count the program's result is the serial fold. */
  lemma ParallelMatchesSerial(op: BinOp, s: seq<int>, w: nat)
    requires CommutativeMonoid(op)
    requires w >= 1 && IsPowerOfTwo(w)
    ensures ParallelResult(op, s, w) == FoldLeft(op, 0, s)
  {
    TreeResultPowerOfTwo(op, LocalPartials(op, s, w));
    LocalPartialsFold(op, s, w);
  }

  /** With the corrected combine the result is the serial fold for every worker count. */
  lemma FixedMatchesSerial(op: BinOp, s: seq<int>, w: nat)
    requires CommutativeMonoid(op)
    requires w >= 1
    ensures FixedParallelResult(op, s, w) == FoldLeft(op, 0, s)
  {
    FixedTreeResultFolds(op, LocalPartials(op, s, w));
    LocalPartialsFold(op, s, w);
  }

  /** On a power-of-two worker count the corrected program returns what the program returns. */
  lemma FixedAgreesOnPowerOfTwo(op: BinOp, s: seq<int>, w: nat)
    requires w >= 1 && IsPowerOfTwo(w)
    ensures FixedParallelResult(op, s, w) == ParallelResult(op, s, w)
  {
    CombineActiveOnPowerOfTwo(op, LocalPartials(op, s, w), w);
  }

  /**
    For an odd worker count `w >= 3` nothing in the last worker's block,
    which includes the remainder of `n / w`, affects the program's result.
  */
  lemma LastBlockIgnored(op: BinOp, s: seq<int>, s': seq<int>, w: nat)
    requires w >= 3 && w % 2 == 1
    requires |s| == |s'|
    requires s[..Start(|s|, w, w - 1)] == s'[..Start(|s|, w, w - 1)]
    ensures ParallelResult(op, s, w) == ParallelResult(op, s', w)
  {
    var n := |s|;
    var p, p' := LocalPartials(op, s, w), LocalPartials(op, s', w);
    forall t | 0 <= t < w - 1
      ensures p[t] == p'[t]
    {
      var lo, hi, last := Start(n, w, t), End(n, w, t), Start(n, w, w - 1);
      Disjoint(n, w, t, w - 1);
      assert hi <= last;
      forall j | lo <= j < hi
        ensures s[j] == s'[j]
      {
        assert s[..last][j] == s'[..last][j];
      }
      assert s[lo..hi] == s'[lo..hi];
    }
    LastSlotIgnored(op, p, p'[w - 1]);
    assert p[w - 1 := p'[w - 1]] == p';
  }

  /**
    For a worker count `w` that is not a power of two, nothing in the block
    of worker `IgnoredSlot(w)` affects the program's result.
  */
  lemma UnreachedBlockIgnored(op: BinOp, s: seq<int>, s': seq<int>, w: nat)
    requires w >= 1 && !IsPowerOfTwo(w)
    requires |s| == |s'|
    requires forall k :: 0 <= k < |s| && !(Start(|s|, w, IgnoredSlot(w)) <= k < End(|s|, w, IgnoredSlot(w))) ==> s[k] == s'[k]
    ensures ParallelResult(op, s, w) == ParallelResult(op, s', w)
  {
    var n, j := |s|, IgnoredSlot(w);
    var p, p' := LocalPartials(op, s, w), LocalPartials(op, s', w);
    forall t | 0 <= t < w && t != j
      ensures p[t] == p'[t]
    {
      var lo, hi := Start(n, w, t), End(n, w, t);
      if t < j {
        Disjoint(n, w, t, j);
      } else {
        Disjoint(n, w, j, t);
      }
      assert s[lo..hi] == s'[lo..hi];
    }
    UnreachedSlotIgnored(op, p, p'[j]);
    assert p[j := p'[j]] == p';
  }

  /** With one element per worker the partial results are the input itself. */
  lemma OneElementBlocks(op: BinOp, s: seq<int>)
    requires ZeroIsIdentity(op) && |s| >= 1
    ensures LocalPartials(op, s, |s|) == s
  {
    var n := |s|;
    assert BlockSize(n, n) == 1;
    forall t | 0 <= t < n
      ensures LocalPartials(op, s, n)[t] == s[t]
    {
      assert Start(n, n, t) == t && End(n, n, t) == t + 1;
      assert s[t..t + 1] == [s[t]];
      FoldSingleton(op, s[t]);
    }
  }

  /** With addition, the program returns the serial sum of every input exactly when `w` is a power of two. */
  lemma ParallelSumsAllIffPowerOfTwo(w: nat)
    requires w >= 1
    ensures (forall s: seq<int> :: ParallelResult(Add, s, w) == FoldLeft(Add, 0, s)) <==> IsPowerOfTwo(w)
  {
    AddIsCommutativeMonoid();
    if IsPowerOfTwo(w) {
      forall s: seq<int>
        ensures ParallelResult(Add, s, w) == FoldLeft(Add, 0, s)
      {
        ParallelMatchesSerial(Add, s, w);
      }
    } else {
      var p := SomeSumLost(w);
      OneElementBlocks(Add, p);
      assert ParallelResult(Add, p, w) == TreeResult(Add, p);
    }
  }

  /** For the empty input the program returns 0 for every worker count. */
  lemma EmptyInput(op: BinOp, w: nat)
    requires Monoid(op)
    requires w >= 1
    ensures ParallelResult(op, [], w) == 0
  {
    var p := LocalPartials(op, [], w);
    assert forall t :: 0 <= t < w ==> p[t] == 0;
    ZerosStayZero(op, p, w / 2);
  }

  lemma {:induction false} ZerosStayZero(op: BinOp, p: seq<int>, i: nat)
    requires ZeroIsIdentity(op)
    requires 2 * i <= |p|
    requires forall t :: 0 <= t < |p| ==> p[t] == 0
    ensures forall t :: 0 <= t < |p| ==> CombineFrom(op, p, i)[t] == 0
    decreases i
  {
    if i > 0 {
      var q := CombineRound(op, p, i, i);
      assert forall t :: 0 <= t < |q| ==> q[t] == 0;
      ZerosStayZero(op, q, i / 2);
    }
  }

  /** Worker `t`'s local loop: fold `input[start..end)` from 0. */
  method WorkerFold(input: array<int>, start: nat, end: nat, op: BinOp) returns (sumaParcial: int)
    requires start <= end <= input.Length
    ensures sumaParcial == FoldLeft(op, 0, input[start..end])
  {
    sumaParcial := 0;
    for i := start to end
      invariant sumaParcial == FoldLeft(op, 0, input[start..i])
    {
      assert input[start..i + 1][..i - start] == input[start..i];
      sumaParcial := op(sumaParcial, input[i]);
    }
  }

  /** The local phase: every worker `t` stores the fold of its block in `partials[t]` and touches no other slot. */
  method LocalPhase(input: array<int>, n: nat, op: BinOp, partials: array<int>)
    requires n <= input.Length && partials.Length >= 1
    requires partials != input
    modifies partials
    ensures forall t :: 0 <= t < partials.Length ==>
              partials[t] == FoldLeft(op, 0, input[Start(n, partials.Length, t)..End(n, partials.Length, t)])
  {
    var w := partials.Length;
    for t := 0 to w
      invariant forall j :: 0 <= j < t ==> partials[j] == FoldLeft(op, 0, input[Start(n, w, j)..End(n, w, j)])
    {
      var start, end := Start(n, w, t), End(n, w, t);
      var sumaParcial := WorkerFold(input, start, end, op);
      partials[t] := sumaParcial;
    }
  }

  /**
    One combine round in place. Worker `t < count` writes slot `t` from
    slots `t` and `t + stride`; since `count <= stride`, no slot a worker
    reads is written in the same round, so running the workers in order
    gives what `CombineRound` computes from the round's starting values.
  */
  method CombineRoundInPlace(op: BinOp, a: array<int>, count: nat, stride: nat)
    requires count <= stride && count + stride <= a.Length
    modifies a
    ensures a[..] == CombineRound(op, old(a[..]), count, stride)
    ensures forall j :: count <= j < a.Length ==> a[j] == old(a[j])
  {
    ghost var s := a[..];
    ghost var r := CombineRound(op, s, count, stride);
    for t := 0 to count
      invariant forall j :: 0 <= j < t ==> a[j] == r[j]
      invariant forall j :: t <= j < a.Length ==> a[j] == s[j]
    {
      a[t] := op(a[t], a[t + stride]);
    }
    assert forall j :: 0 <= j < a.Length ==> a[j] == r[j];
  }

  /** The program's combine loop: strides `w / 2, w / 4, ..., 1`. */
  method TreeCombine(op: BinOp, a: array<int>)
    modifies a
    ensures a[..] == CombineFrom(op, old(a[..]), a.Length / 2)
  {
    var i: nat := a.Length / 2;
    while i > 0
      invariant 2 * i <= a.Length
      invariant CombineFrom(op, a[..], i) == CombineFrom(op, old(a[..]), a.Length / 2)
      decreases i
    {
      CombineRoundInPlace(op, a, i, i);
      i := i / 2;
    }
  }

  /** The corrected combine loop: halve the number of active slots, rounding up. */
  method FixedTreeCombine(op: BinOp, a: array<int>)
    requires a.Length >= 1
    modifies a
    ensures a[..] == CombineActive(op, old(a[..]), a.Length)
  {
    var m := a.Length;
    while m > 1
      invariant 1 <= m <= a.Length
      invariant CombineActive(op, a[..], m) == CombineActive(op, old(a[..]), a.Length)
      decreases m
    {
      var h := (m + 1) / 2;
      CombineRoundInPlace(op, a, m - h, h);
      m := h;
    }
  }

  /**
    The program's parallel reduction of `input[0..n)` with `w` workers. Its
    result is the serial fold whenever `w` is a power of two and `op` is a
    commutative monoid with identity 0.
  */
  method ParallelReduction(input: array<int>, n: nat, op: BinOp, w: nat) returns (sumaTotal: int)
    requires n <= input.Length && w >= 1
    ensures sumaTotal == ParallelResult(op, input[..n], w)
    ensures CommutativeMonoid(op) && IsPowerOfTwo(w) ==> sumaTotal == FoldLeft(op, 0, input[..n])
  {
    var partials := new int[w];
    LocalPhase(input, n, op, partials);
    assert partials[..] == LocalPartials(op, input[..n], w) by {
      forall t | 0 <= t < w
        ensures input[..n][Start(n, w, t)..End(n, w, t)] == input[Start(n, w, t)..End(n, w, t)]
      {
      }
    }
    TreeCombine(op, partials);
    partials[0] := op(partials[0], 0);
    sumaTotal := partials[0];
    if CommutativeMonoid(op) && IsPowerOfTwo(w) {
      ParallelMatchesSerial(op, input[..n], w);
    }
  }

  /** The parallel reduction with the corrected combine: the serial fold for every `w >= 1`. */
  method FixedParallelReduction(input: array<int>, n: nat, op: BinOp, w: nat) returns (sumaTotal: int)
    requires n <= input.Length && w >= 1
    ensures sumaTotal == FixedParallelResult(op, input[..n], w)
    ensures CommutativeMonoid(op) ==> sumaTotal == FoldLeft(op, 0, input[..n])
  {
    var partials := new int[w];
    LocalPhase(input, n, op, partials);
    assert partials[..] == LocalPartials(op, input[..n], w) by {
      forall t | 0 <= t < w
        ensures input[..n][Start(n, w, t)..End(n, w, t)] == input[Start(n, w, t)..End(n, w, t)]
      {
      }
    }
    FixedTreeCombine(op, partials);
    partials[0] := op(partials[0], 0);
    sumaTotal := partials[0];
    if CommutativeMonoid(op) {
      FixedMatchesSerial(op, input[..n], w);
    }
  }
}
