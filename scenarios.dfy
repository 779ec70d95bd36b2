/**
  Concrete instances: the data the program's `main` builds (`datos[i] = i + 1`
  for 1024 elements, reduced with addition), and an operator that shows why
  the tree combine needs a commutative operator.
*/
module Scenarios {
  import opened Folds
  import opened Partition
  import opened Combine
  import opened Parallel

  const NUMERO_ITERACIONES: nat := 1024

  /** `[1, 2, ..., n]`. */
  function Datos(n: nat): (d: seq<int>)
    ensures |d| == n
    ensures forall i :: 0 <= i < n ==> d[i] == i + 1
  {
    seq(n, i requires 0 <= i < n => i + 1)
  }

  /** The sum of the first `b` values is `b * (b + 1) / 2`. */
  lemma {:induction false} DatosPrefixSum(n: nat, b: nat)
    requires b <= n
    ensures FoldLeft(Add, 0, Datos(n)[..b]) == b * (b + 1) / 2
    decreases b
  {
    if b > 0 {
      assert Datos(n)[..b][..b - 1] == Datos(n)[..b - 1];
      DatosPrefixSum(n, b - 1);
      assert (b - 1) * b / 2 + b == b * (b + 1) / 2;
    }
  }

  /** The serial reduction of `main`'s data is 524800. */
  lemma SerialOnMainData()
    ensures FoldLeft(Add, 0, Datos(NUMERO_ITERACIONES)) == 524800
  {
    DatosPrefixSum(NUMERO_ITERACIONES, NUMERO_ITERACIONES);
    assert Datos(NUMERO_ITERACIONES)[..NUMERO_ITERACIONES] == Datos(NUMERO_ITERACIONES);
  }

  /** With a power-of-two number of threads the parallel reduction of `main`'s data is 524800 too. */
  lemma ParallelOnMainDataPowerOfTwo(w: nat)
    requires w >= 1 && IsPowerOfTwo(w)
    ensures ParallelResult(Add, Datos(NUMERO_ITERACIONES), w) == 524800
  {
    AddIsCommutativeMonoid();
    ParallelMatchesSerial(Add, Datos(NUMERO_ITERACIONES), w);
    SerialOnMainData();
  }

  /**
    With three threads the program returns 232903 = 1 + ... + 682 on `main`'s
    data: the third block, 683 + ... + 1024, is never combined.
  */
  lemma ParallelOnMainDataThreeThreads()
    ensures ParallelResult(Add, Datos(NUMERO_ITERACIONES), 3) == 232903
    ensures FoldLeft(Add, 0, Datos(NUMERO_ITERACIONES)) == 524800
  {
    var d := Datos(NUMERO_ITERACIONES);
    var p := LocalPartials(Add, d, 3);
    assert Start(1024, 3, 0) == 0 && End(1024, 3, 0) == 341;
    assert Start(1024, 3, 1) == 341 && End(1024, 3, 1) == 682;
    ThreeSlots(Add, p);
    assert d[0..341] == d[..341];
    FirstTwoBlocks(d);
    SerialOnMainData();
  }

  lemma FirstTwoBlocks(d: seq<int>)
    requires d == Datos(NUMERO_ITERACIONES)
    ensures FoldLeft(Add, 0, d[..341]) + FoldLeft(Add, 0, d[341..682]) == 232903
  {
    AddIsCommutativeMonoid();
    assert d[..682] == d[..341] + d[341..682];
    FoldConcat(Add, d[..341], d[341..682]);
    DatosPrefixSum(NUMERO_ITERACIONES, 682);
  }

  /** The corrected reduction of `main`'s data is 524800 for every number of threads. */
  lemma FixedOnMainData(w: nat)
    requires w >= 1
    ensures FixedParallelResult(Add, Datos(NUMERO_ITERACIONES), w) == 524800
  {
    AddIsCommutativeMonoid();
    FixedMatchesSerial(Add, Datos(NUMERO_ITERACIONES), w);
    SerialOnMainData();
  }

  /** The smallest input on which the program and the serial fold differ: three ones, three threads. */
  lemma ThreeOnesThreeThreads()
    ensures ParallelResult(Add, [1, 1, 1], 3) == 2
    ensures FoldLeft(Add, 0, [1, 1, 1]) == 3
    ensures FixedParallelResult(Add, [1, 1, 1], 3) == 3
  {
    var s := [1, 1, 1];
    var p := LocalPartials(Add, s, 3);
    assert Start(3, 3, 0) == 0 && End(3, 3, 0) == 1 && Start(3, 3, 1) == 1 && End(3, 3, 1) == 2;
    assert s[0..1] == [1] && s[1..2] == [1];
    FoldSingleton(Add, 1);
    assert p[0] == 1 && p[1] == 1;
    ThreeSlots(Add, p);
    AddIsCommutativeMonoid();
    FixedMatchesSerial(Add, [1, 1, 1], 3);
  }

  /**
    An even count is affected too: with six ones and six threads every slot
    is read in the first round, but the merged pair of slots 2 and 5 is
    never read in the last one.
  */
  lemma SixOnesSixThreads()
    ensures ParallelResult(Add, [1, 1, 1, 1, 1, 1], 6) == 4
    ensures FoldLeft(Add, 0, [1, 1, 1, 1, 1, 1]) == 6
    ensures FixedParallelResult(Add, [1, 1, 1, 1, 1, 1], 6) == 6
  {
    SixOnesProgram([1, 1, 1, 1, 1, 1]);
    SixOnesSum();
    AddIsCommutativeMonoid();
    FixedMatchesSerial(Add, [1, 1, 1, 1, 1, 1], 6);
  }

  lemma SixOnesProgram(s: seq<int>)
    requires s == [1, 1, 1, 1, 1, 1]
    ensures ParallelResult(Add, s, 6) == 4
  {
    assert ZeroIsIdentity(Add);
    OneElementBlocks(Add, s);
    SixSlots(Add, LocalPartials(Add, s, 6));
  }

  lemma SixOnesSum()
    ensures FoldLeft(Add, 0, [1, 1, 1, 1, 1, 1]) == 6
  {
    FoldAddIsSum([1, 1, 1, 1, 1, 1]);
  }

  /** "The last non-zero operand": associative with identity 0, but not commutative. */
  function LastNonZero(a: int, b: int): int {
    if b != 0 then b else a
  }

  lemma LastNonZeroIsMonoid()
    ensures Monoid(LastNonZero) && !Commutative(LastNonZero)
  {
    assert LastNonZero(1, 2) != LastNonZero(2, 1);
  }

  /**
    Associativity and identity alone do not make the program agree with the
    serial fold, even for four threads: the combine folds the partial
    results in the order 0, 2, 1, 3.
  */
  lemma TreeNeedsCommutativity()
    ensures ParallelResult(LastNonZero, [1, 2, 3, 0], 4) == 2
    ensures FoldLeft(LastNonZero, 0, [1, 2, 3, 0]) == 3
  {
    var s := [1, 2, 3, 0];
    var p := LocalPartials(LastNonZero, s, 4);
    assert BlockSize(4, 4) == 1;
    assert Start(4, 4, 0) == 0 && End(4, 4, 0) == 1 && Start(4, 4, 1) == 1 && End(4, 4, 1) == 2;
    assert Start(4, 4, 2) == 2 && End(4, 4, 2) == 3 && Start(4, 4, 3) == 3 && End(4, 4, 3) == 4;
    assert s[0..1] == [1] && s[1..2] == [2] && s[2..3] == [3] && s[3..4] == [0];
    assert ZeroIsIdentity(LastNonZero);
    FoldSingleton(LastNonZero, 1);
    FoldSingleton(LastNonZero, 2);
    FoldSingleton(LastNonZero, 3);
    FoldSingleton(LastNonZero, 0);
    assert p == [1, 2, 3, 0];
    var q := CombineRound(LastNonZero, p, 2, 2);
    assert q == [3, 2, 3, 0];
    assert CombineRound(LastNonZero, q, 1, 1)[0] == 2;
    assert s[..3] == [1, 2, 3] && s[..3][..2] == [1, 2] && s[..3][..2][..1] == [1];
  }
}
