/**
  The left fold that both reducers compute, the algebraic laws an operator
  may satisfy, and the facts about folds that the reducers' proofs rest on.
  Values are `int` and the operator is an arbitrary total function on them;
  the program itself folds `float` values with addition.
*/
module Folds {

  /** A binary operator `(accumulator, element) -> new accumulator`. */
  type BinOp = (int, int) -> int

  /**
    `acc op s[0] op s[1] ... op s[|s| - 1]`, grouped to the left. It is peeled
    from the last element so that it follows an accumulator loop one step at
    a time.
  */
  function FoldLeft(op: BinOp, acc: int, s: seq<int>): int
    decreases |s|
  {
    if s == [] then acc else op(FoldLeft(op, acc, s[..|s| - 1]), s[|s| - 1])
  }

  ghost predicate Associative(op: BinOp) {
    forall a, b, c :: op(op(a, b), c) == op(a, op(b, c))
  }

  ghost predicate Commutative(op: BinOp) {
    forall a, b :: op(a, b) == op(b, a)
  }

  /** The program starts every fold at 0 and finishes with `op(x, 0)`. */
  ghost predicate ZeroIsIdentity(op: BinOp) {
    forall a :: op(0, a) == a && op(a, 0) == a
  }

  ghost predicate Monoid(op: BinOp) {
    Associative(op) && ZeroIsIdentity(op)
  }

  ghost predicate CommutativeMonoid(op: BinOp) {
    Monoid(op) && Commutative(op)
  }

  /** The operator `main` passes to both reducers. */
  function Add(a: int, b: int): int {
    a + b
  }

  lemma AddIsCommutativeMonoid()
    ensures CommutativeMonoid(Add)
  {
  }

  /** An independent, first-element-first definition of the sum of a sequence. */
  function Sum(s: seq<int>): int
    decreases |s|
  {
    if s == [] then 0 else s[0] + Sum(s[1..])
  }

  lemma {:induction false} SumSnoc(s: seq<int>, x: int)
    ensures Sum(s + [x]) == Sum(s) + x
    decreases |s|
  {
    if s == [] {
      assert [] + [x] == [x];
    } else {
      assert (s + [x])[1..] == s[1..] + [x];
      SumSnoc(s[1..], x);
    }
  }

  /** For addition, the fold from 0 is the sum of the sequence. */
  lemma {:induction false} FoldAddIsSum(s: seq<int>)
    ensures FoldLeft(Add, 0, s) == Sum(s)
    decreases |s|
  {
    if s != [] {
      var init := s[..|s| - 1];
      FoldAddIsSum(init);
      assert init + [s[|s| - 1]] == s;
      SumSnoc(init, s[|s| - 1]);
    }
  }

  /** Folding a concatenation continues from where the first part stopped. */
  lemma {:induction false} FoldSplit(op: BinOp, acc: int, a: seq<int>, b: seq<int>)
    ensures FoldLeft(op, acc, a + b) == FoldLeft(op, FoldLeft(op, acc, a), b)
    decreases |b|
  {
    if b == [] {
      assert a + b == a;
    } else {
      assert (a + b)[..|a + b| - 1] == a + b[..|b| - 1];
      FoldSplit(op, acc, a, b[..|b| - 1]);
    }
  }

  /** For a monoid the starting accumulator can be pulled out of the fold. */
  lemma {:induction false} FoldShift(op: BinOp, acc: int, s: seq<int>)
    requires Monoid(op)
    ensures FoldLeft(op, acc, s) == op(acc, FoldLeft(op, 0, s))
    decreases |s|
  {
    if s != [] {
      var init, x := s[..|s| - 1], s[|s| - 1];
      FoldShift(op, acc, init);
      calc {
        FoldLeft(op, acc, s);
        op(FoldLeft(op, acc, init), x);
        op(op(acc, FoldLeft(op, 0, init)), x);
        op(acc, op(FoldLeft(op, 0, init), x));
        op(acc, FoldLeft(op, 0, s));
      }
    }
  }

  /** For a commutative monoid, `(a op b) op (x op y) == (a op x) op (b op y)`. */
  lemma Interchange(op: BinOp, a: int, b: int, x: int, y: int)
    requires CommutativeMonoid(op)
    ensures op(op(a, b), op(x, y)) == op(op(a, x), op(b, y))
  {
    calc {
      op(op(a, b), op(x, y));
      op(a, op(b, op(x, y)));
      { assert op(b, op(x, y)) == op(op(b, x), y); }
      op(a, op(op(b, x), y));
      { assert op(b, x) == op(x, b); }
      op(a, op(op(x, b), y));
      { assert op(op(x, b), y) == op(x, op(b, y)); }
      op(a, op(x, op(b, y)));
      op(op(a, x), op(b, y));
    }
  }

  /** The medial law: the inner operands of two combined pairs may be swapped. */
  ghost predicate Medial(op: BinOp) {
    forall a, b, x, y :: op(op(a, b), op(x, y)) == op(op(a, x), op(b, y))
  }

  /** One instance of the medial law. */
  lemma MedialAt(op: BinOp, a: int, b: int, x: int, y: int)
    requires Medial(op)
    ensures op(op(a, b), op(x, y)) == op(op(a, x), op(b, y))
  {
  }

  /** Every commutative monoid satisfies the medial law. */
  lemma CommutativeMonoidIsMedial(op: BinOp)
    requires CommutativeMonoid(op)
    ensures Medial(op)
  {
    forall a, b, x, y {
      Interchange(op, a, b, x, y);
    }
  }

  /** For a commutative monoid, `(a op b) op c == (a op c) op b`. */
  lemma SwapLast(op: BinOp, a: int, b: int, c: int)
    requires CommutativeMonoid(op)
    ensures op(op(a, b), c) == op(op(a, c), b)
  {
    calc {
      op(op(a, b), c);
      op(a, op(b, c));
      { assert op(b, c) == op(c, b); }
      op(a, op(c, b));
      op(op(a, c), b);
    }
  }

  /** Replacing one element of a sequence changes its sum by the difference. */
  lemma {:induction false} FoldAddUpdate(s: seq<int>, j: nat, x: int)
    requires j < |s|
    ensures FoldLeft(Add, 0, s[j := x]) == FoldLeft(Add, 0, s) - s[j] + x
    decreases |s|
  {
    var n := |s| - 1;
    if j == n {
      assert s[j := x][..n] == s[..n];
    } else {
      assert s[j := x][..n] == s[..n][j := x];
      FoldAddUpdate(s[..n], j, x);
    }
  }

  /** For a monoid the fold from 0 of a concatenation combines the two folds. */
  lemma FoldConcat(op: BinOp, a: seq<int>, b: seq<int>)
    requires Monoid(op)
    ensures FoldLeft(op, 0, a + b) == op(FoldLeft(op, 0, a), FoldLeft(op, 0, b))
  {
    FoldSplit(op, 0, a, b);
    FoldShift(op, FoldLeft(op, 0, a), b);
  }

  /** The fold of a prefix is the fold of the prefix one shorter, continued by one element. */
  lemma FoldPrefixLast(op: BinOp, acc: int, s: seq<int>, j: nat)
    requires 1 <= j <= |s|
    ensures FoldLeft(op, acc, s[..j]) == op(FoldLeft(op, acc, s[..j - 1]), s[j - 1])
  {
    assert s[..j][..j - 1] == s[..j - 1];
  }

  /** The same step for a slice `s[lo..hi)`. */
  lemma FoldSliceLast(op: BinOp, acc: int, s: seq<int>, lo: nat, hi: nat)
    requires lo < hi <= |s|
    ensures FoldLeft(op, acc, s[lo..hi]) == op(FoldLeft(op, acc, s[lo..hi - 1]), s[hi - 1])
  {
    assert s[lo..hi][..hi - lo - 1] == s[lo..hi - 1];
  }

  /** The fold from 0 of a one-element prefix is that element. */
  lemma FoldFirst(op: BinOp, s: seq<int>)
    requires ZeroIsIdentity(op) && |s| >= 1
    ensures FoldLeft(op, 0, s[..1]) == s[0]
  {
    assert s[..1] == [s[0]];
    FoldSingleton(op, s[0]);
  }

  /** The fold from 0 of a single element is that element. */
  lemma FoldSingleton(op: BinOp, x: int)
    requires ZeroIsIdentity(op)
    ensures FoldLeft(op, 0, [x]) == x
  {
    assert [x][..0] == [];
  }
}
