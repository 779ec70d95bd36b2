/**
  The tree combine of the parallel reducer, on the sequence of partial
  results. One round with `count` active slots and distance `stride` sets
  every slot `t < count` to `op(p[t], p[t + stride])` and keeps every other
  slot. The program runs rounds with `count == stride == i` for
  `i = w / 2, w / 4, ..., 1`; `CombineActive` is the corrected schedule,
  which also merges every slot when `w` is not a power of two.
*/
module Combine {
  import opened Folds

  /** One combine round: what every worker `t < count` computes from the values the round starts with. */
  function CombineRound(op: BinOp, p: seq<int>, count: nat, stride: nat): (q: seq<int>)
    requires count <= stride && count + stride <= |p|
    ensures |q| == |p|
  {
    seq(|p|, t requires 0 <= t < |p| => if t < count then op(p[t], p[t + stride]) else p[t])
  }

  /** The rounds the program runs from stride `i` on, halving the stride until it reaches 0. */
  function CombineFrom(op: BinOp, p: seq<int>, i: nat): (q: seq<int>)
    requires 2 * i <= |p|
    ensures |q| == |p|
    decreases i
  {
    if i == 0 then p else CombineFrom(op, CombineRound(op, p, i, i), i / 2)
  }

  /** Slot 0 after the program's whole combine on `w = |p|` partial results. */
  function TreeResult(op: BinOp, p: seq<int>): (r: int)
    requires |p| >= 1
    ensures |p| == 1 ==> r == p[0]
  {
    CombineFrom(op, p, |p| / 2)[0]
  }

  /**
    The corrected schedule: with `m` slots still active, the upper
    `m - (m + 1) / 2` slots are folded into the lower ones and
    `(m + 1) / 2` slots stay active.
  */
  function CombineActive(op: BinOp, p: seq<int>, m: nat): (q: seq<int>)
    requires 1 <= m <= |p|
    ensures |q| == |p|
    decreases m
  {
    if m == 1 then p
    else
      var h := (m + 1) / 2;
      CombineActive(op, CombineRound(op, p, m - h, h), h)
  }

  /** Slot 0 after the corrected combine on `w = |p|` partial results. */
  function FixedTreeResult(op: BinOp, p: seq<int>): (r: int)
    requires |p| >= 1
    ensures |p| == 1 ==> r == p[0]
  {
    CombineActive(op, p, |p|)[0]
  }

  predicate IsPowerOfTwo(w: nat)
    decreases w
  {
    w == 1 || (w >= 2 && w % 2 == 0 && IsPowerOfTwo(w / 2))
  }

  /**
    The first `j` combined slots fold to the first `j` slots of both halves.
    The two halves may start from any accumulators `a0` and `b0`, the combined
    slots from `op(a0, b0)`.
  */
  lemma {:induction false} PairwiseFold(op: BinOp, a0: int, b0: int, p: seq<int>, count: nat, stride: nat, j: nat)
    requires Medial(op)
    requires count <= stride && count + stride <= |p| && j <= count
    ensures FoldLeft(op, op(a0, b0), CombineRound(op, p, count, stride)[..j])
            == op(FoldLeft(op, a0, p[..j]), FoldLeft(op, b0, p[stride..stride + j]))
    decreases j
  {
    if j == 0 {
      assert CombineRound(op, p, count, stride)[..0] == [] && p[..0] == [] && p[stride..stride] == [];
    } else {
      PairwiseFold(op, a0, b0, p, count, stride, j - 1);
      PairwiseStep(op, a0, b0, p, count, stride, j);
    }
  }

  /** One more slot: the step of `PairwiseFold` from `j - 1` to `j`, by the medial law. */
  lemma PairwiseStep(op: BinOp, a0: int, b0: int, p: seq<int>, count: nat, stride: nat, j: nat)
    requires Medial(op)
    requires count <= stride && count + stride <= |p| && 1 <= j <= count
    requires FoldLeft(op, op(a0, b0), CombineRound(op, p, count, stride)[..j - 1])
             == op(FoldLeft(op, a0, p[..j - 1]), FoldLeft(op, b0, p[stride..stride + j - 1]))
    ensures FoldLeft(op, op(a0, b0), CombineRound(op, p, count, stride)[..j])
            == op(FoldLeft(op, a0, p[..j]), FoldLeft(op, b0, p[stride..stride + j]))
  {
    FoldPrefixLast(op, op(a0, b0), CombineRound(op, p, count, stride), j);
    FoldPrefixLast(op, a0, p, j);
    FoldSliceLast(op, b0, p, stride, stride + j);
    MedialAt(op, FoldLeft(op, a0, p[..j - 1]), FoldLeft(op, b0, p[stride..stride + j - 1]), p[j - 1], p[stride + j - 1]);
  }

  /**
    A round loses nothing for a commutative monoid: the first `stride` slots
    afterwards fold to what the first `count + stride` slots folded to before.
  */
  lemma RoundFold(op: BinOp, p: seq<int>, count: nat, stride: nat)
    requires CommutativeMonoid(op)
    requires count <= stride && count + stride <= |p|
    ensures FoldLeft(op, 0, CombineRound(op, p, count, stride)[..stride])
            == FoldLeft(op, 0, p[..count + stride])
  {
    var q := CombineRound(op, p, count, stride);
    var lower, middle, upper := p[..count], p[count..stride], p[stride..stride + count];
    RoundSlices(op, p, count, stride);
    CommutativeMonoidIsMedial(op);
    PairwiseFold(op, 0, 0, p, count, stride, count);
    FoldConcat(op, q[..count], middle);
    FoldConcat(op, lower + middle, upper);
    FoldConcat(op, lower, middle);
    SwapLast(op, FoldLeft(op, 0, lower), FoldLeft(op, 0, upper), FoldLeft(op, 0, middle));
  }

  /** How the slices `RoundFold` folds fit together. */
  lemma RoundSlices(op: BinOp, p: seq<int>, count: nat, stride: nat)
    requires count <= stride && count + stride <= |p|
    ensures CombineRound(op, p, count, stride)[..stride]
            == CombineRound(op, p, count, stride)[..count] + p[count..stride]
    ensures p[..count + stride] == (p[..count] + p[count..stride]) + p[stride..stride + count]
  {
  }

  /** The first round from stride `i` is the round with `i` active slots at distance `i`. */
  lemma CombineFromUnfold(op: BinOp, p: seq<int>, i: nat)
    requires 1 <= i && 2 * i <= |p|
    ensures CombineFrom(op, p, i) == CombineFrom(op, CombineRound(op, p, i, i), i / 2)
  {
  }

  /** From a power-of-two stride `i`, slot 0 ends up holding the fold of the first `2 * i` slots. */
  lemma {:induction false} CombineFromPowerOfTwo(op: BinOp, p: seq<int>, i: nat)
    requires CommutativeMonoid(op)
    requires IsPowerOfTwo(i) && 2 * i <= |p|
    ensures CombineFrom(op, p, i)[0] == FoldLeft(op, 0, p[..2 * i])
    decreases i, 1
  {
    CombineFromUnfold(op, p, i);
    RoundFold(op, p, i, i);
    if i == 1 {
      FoldFirst(op, CombineRound(op, p, 1, 1));
    } else {
      PowerOfTwoStep(op, p, i);
    }
  }

  /** The step of `CombineFromPowerOfTwo` for a stride `i >= 2`: the rounds from `i / 2` on fold the first `i` slots. */
  lemma {:induction false} PowerOfTwoStep(op: BinOp, p: seq<int>, i: nat)
    requires CommutativeMonoid(op)
    requires IsPowerOfTwo(i) && i >= 2 && 2 * i <= |p|
    ensures CombineFrom(op, CombineRound(op, p, i, i), i / 2)[0] == FoldLeft(op, 0, CombineRound(op, p, i, i)[..i])
    decreases i, 0
  {
    assert IsPowerOfTwo(i / 2) && 2 * (i / 2) == i;
    CombineFromPowerOfTwo(op, CombineRound(op, p, i, i), i / 2);
  }

  /** For a power-of-two number of partial results the program's combine folds all of them. */
  lemma TreeResultPowerOfTwo(op: BinOp, p: seq<int>)
    requires CommutativeMonoid(op)
    requires |p| >= 1 && IsPowerOfTwo(|p|)
    ensures TreeResult(op, p) == FoldLeft(op, 0, p)
  {
    if |p| == 1 {
      FoldSingleton(op, p[0]);
      assert p == [p[0]];
    } else {
      CombineFromPowerOfTwo(op, p, |p| / 2);
      assert p[..2 * (|p| / 2)] == p;
    }
  }

  /** Slot 0 after the rounds from stride `i` on reads nothing at or above slot `max(1, 2 * i)`. */
  lemma {:induction false} CombineFromReadsPrefix(op: BinOp, p: seq<int>, p': seq<int>, i: nat)
    requires |p| == |p'| >= 1 && 2 * i <= |p|
    requires p[0] == p'[0]
    requires forall j :: 0 <= j < 2 * i ==> p[j] == p'[j]
    ensures CombineFrom(op, p, i)[0] == CombineFrom(op, p', i)[0]
    decreases i
  {
    if i > 0 {
      var q, q' := CombineRound(op, p, i, i), CombineRound(op, p', i, i);
      assert q[0] == q'[0];
      CombineFromReadsPrefix(op, q, q', i / 2);
    }
  }

  /**
    For an odd number `w >= 3` of partial results the program never reads
    the last one: slot 0 ends up the same whatever that slot holds.
  */
  lemma LastSlotIgnored(op: BinOp, p: seq<int>, x: int)
    requires |p| >= 3 && |p| % 2 == 1
    ensures TreeResult(op, p[|p| - 1 := x]) == TreeResult(op, p)
  {
    CombineFromReadsPrefix(op, p[|p| - 1 := x], p, |p| / 2);
  }

  /** With three partial results the program combines only the first two. */
  lemma ThreeSlots(op: BinOp, p: seq<int>)
    requires |p| == 3
    ensures TreeResult(op, p) == op(p[0], p[1])
  {
  }

  /** With six partial results the program drops the merged pair `op(p2, p5)` in the last round. */
  lemma SixSlots(op: BinOp, p: seq<int>)
    requires |p| == 6
    ensures TreeResult(op, p) == op(op(p[0], p[3]), op(p[1], p[4]))
  {
  }

  /**
    A slot whose value never reaches slot 0 when `w` is not a power of two:
    halve `w` while it is even, and take the last slot of the first odd
    count reached. That count is at least 3, so the slot is never slot 0.
  */
  function IgnoredSlot(w: nat): (j: nat)
    requires w >= 1 && !IsPowerOfTwo(w)
    ensures 1 <= j < w
    decreases w
  {
    if w % 2 == 1 then w - 1 else IgnoredSlot(w / 2)
  }

  /** From stride `m / 2` on, slot `IgnoredSlot(m)` does not affect slot 0. */
  lemma {:induction false} IgnoredSlotUnread(op: BinOp, p: seq<int>, m: nat, x: int)
    requires 1 <= m <= |p| && !IsPowerOfTwo(m)
    ensures CombineFrom(op, p[IgnoredSlot(m) := x], m / 2)[0] == CombineFrom(op, p, m / 2)[0]
    decreases m
  {
    var j := IgnoredSlot(m);
    if m % 2 == 1 {
      CombineFromReadsPrefix(op, p[j := x], p, m / 2);
    } else {
      var h := m / 2;
      assert h >= 1 && !IsPowerOfTwo(h) && j == IgnoredSlot(h);
      var q, q' := CombineRound(op, p, h, h), CombineRound(op, p[j := x], h, h);
      assert q' == q[j := op(x, p[j + h])];
      assert CombineFrom(op, p[j := x], h) == CombineFrom(op, q', h / 2);
      assert CombineFrom(op, p, h) == CombineFrom(op, q, h / 2);
      IgnoredSlotUnread(op, q, h, op(x, p[j + h]));
    }
  }

  /**
    When `w` is not a power of two, the program's combine result is the same
    whatever slot `IgnoredSlot(w)` holds: that partial result is lost.
  */
  lemma UnreachedSlotIgnored(op: BinOp, p: seq<int>, x: int)
    requires |p| >= 1 && !IsPowerOfTwo(|p|)
    ensures TreeResult(op, p[IgnoredSlot(|p|) := x]) == TreeResult(op, p)
  {
    IgnoredSlotUnread(op, p, |p|, x);
  }

  /** With addition and `w` not a power of two, some `w` partial results are not summed by the program's combine. */
  lemma SomeSumLost(w: nat) returns (p: seq<int>)
    requires w >= 1 && !IsPowerOfTwo(w)
    ensures |p| == w && TreeResult(Add, p) != FoldLeft(Add, 0, p)
  {
    var z := seq(w, i => 0);
    var j := IgnoredSlot(w);
    var z1 := z[j := 1];
    UnreachedSlotIgnored(Add, z, 1);
    FoldAddUpdate(z, j, 1);
    if TreeResult(Add, z) == FoldLeft(Add, 0, z) {
      p := z1;
    } else {
      p := z;
    }
  }

  /** With addition, the program's combine sums every `w` partial results exactly when `w` is a power of two. */
  lemma TreeSumsAllIffPowerOfTwo(w: nat)
    requires w >= 1
    ensures (forall p: seq<int> :: |p| == w ==> TreeResult(Add, p) == FoldLeft(Add, 0, p)) <==> IsPowerOfTwo(w)
  {
    if IsPowerOfTwo(w) {
      AddIsCommutativeMonoid();
      forall p: seq<int> | |p| == w
        ensures TreeResult(Add, p) == FoldLeft(Add, 0, p)
      {
        TreeResultPowerOfTwo(Add, p);
      }
    } else {
      var p := SomeSumLost(w);
    }
  }

  /** The corrected schedule keeps the fold of the active slots, so slot 0 ends with the fold of all of them. */
  lemma {:induction false} CombineActiveFolds(op: BinOp, p: seq<int>, m: nat)
    requires CommutativeMonoid(op)
    requires 1 <= m <= |p|
    ensures CombineActive(op, p, m)[0] == FoldLeft(op, 0, p[..m])
    decreases m
  {
    if m == 1 {
      FoldFirst(op, p);
    } else {
      var h := (m + 1) / 2;
      var k := m - h;
      assert k <= h && k + h == m && 1 <= h < m;
      var q := CombineRound(op, p, k, h);
      assert CombineActive(op, p, m) == CombineActive(op, q, h);
      RoundFold(op, p, k, h);
      CombineActiveFolds(op, q, h);
    }
  }

  /** The corrected combine folds every partial result, for every `w >= 1`. */
  lemma FixedTreeResultFolds(op: BinOp, p: seq<int>)
    requires CommutativeMonoid(op)
    requires |p| >= 1
    ensures FixedTreeResult(op, p) == FoldLeft(op, 0, p)
  {
    CombineActiveFolds(op, p, |p|);
    assert p[..|p|] == p;
  }

  /** On a power of two the corrected schedule runs exactly the program's rounds. */
  lemma {:induction false} CombineActiveOnPowerOfTwo(op: BinOp, p: seq<int>, m: nat)
    requires IsPowerOfTwo(m) && m <= |p|
    ensures CombineActive(op, p, m) == CombineFrom(op, p, m / 2)
    decreases m
  {
    if m > 1 {
      var h := m / 2;
      assert IsPowerOfTwo(h) && 2 * h == m && (m + 1) / 2 == h;
      var q := CombineRound(op, p, h, h);
      assert CombineActive(op, p, m) == CombineActive(op, q, h);
      assert CombineFrom(op, p, h) == CombineFrom(op, q, h / 2);
      CombineActiveOnPowerOfTwo(op, q, h);
    }
  }
}
