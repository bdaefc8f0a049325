/**
  The input and expected-output vectors that TestAbs (abs_test.go) runs every
  variant on. They start at MinInt + 1: MinInt has no int64 absolute value.
 */
module AbsFixtures {
  import opened GoInt
  import opened Abs

  const TestInputs: seq<Int64> :=
    [MinInt + 1, MinInt + 2, -1, 0, 1, 2, MaxInt - 1, MaxInt]
  const TestOutputs: seq<Int64> :=
    [MaxInt, MaxInt - 1, 1, 0, 1, 2, MaxInt - 1, MaxInt]

  lemma WithBranchPassesFixtures()
    ensures |TestInputs| == |TestOutputs|
    ensures forall i :: 0 <= i < |TestInputs| ==> WithBranch(TestInputs[i]) == TestOutputs[i]
  {}

  lemma WithTwosComplementPassesFixtures()
    ensures forall i :: 0 <= i < |TestInputs| ==> WithTwosComplement(TestInputs[i]) == TestOutputs[i]
  {
    forall i | 0 <= i < |TestInputs|
      ensures WithTwosComplement(TestInputs[i]) == TestOutputs[i]
    {
      WithTwosComplementIsWithBranch(TestInputs[i]);
    }
  }

  /** The boundary the vectors leave out: both variants return MinInt. */
  lemma MinIntBoundary()
    ensures MinInt !in TestInputs
    ensures WithBranch(MinInt) == MinInt
    ensures WithTwosComplement(MinInt) == MinInt
  {
    WithTwosComplementIsWithBranch(MinInt);
  }
}
