/**
  The single-threaded reference reducer: a left fold of the first `n`
  elements of the input buffer, starting from the accumulator 0.
*/
module Serial {
  import opened Folds

  /** Folds `input[0..n)` left to right with `op`, starting from 0. */
  method SumReductionSerial(input: array<int>, n: nat, op: BinOp) returns (suma: int)
    requires n <= input.Length
    ensures suma == FoldLeft(op, 0, input[..n])
  {
    suma := 0;
    for i := 0 to n
      invariant suma == FoldLeft(op, 0, input[..i])
    {
      assert input[..i + 1][..i] == input[..i];
      suma := op(suma, input[i]);
    }
  }
}
