/**
  The exact absolute-value functions of package abs (abs.go), on Go's int64.

  Neither can return the mathematical |n| for n = MinInt, because 2^63 is not
  an int64: both wrap, and return MinInt itself.
 */
module Abs {
  import opened GoInt

  /** The mathematical absolute value, the reference for both variants. */
  function MathAbs(n: int): (r: nat)
  {
    if n < 0 then -n else n
  }

  /** WithBranch: negate when negative. The negation is Go's, so it wraps at
      MinInt. */
  function WithBranch(n: Int64): (r: Int64)
    ensures n >= 0 ==> r == n
    ensures MinInt < n < 0 ==> r == -(n as int) && r > 0
    ensures n != MinInt ==> r as int == MathAbs(n)
    ensures n == MinInt ==> r == MinInt
  {
    if n < 0 then Neg(n) else n
  }

  /** WithTwosComplement: the branch-free absolute value of Hacker's Delight,
      section 2-4. y is the sign mask n >> 63, and (n ^ y) - y is n when y is
      zero and the complement of n plus one when y is all ones. */
  function WithTwosComplement(n: Int64): (r: Int64)
  {
    var y := Sar(n, Width - 1);
    Sub(Xor(n, y), y)
  }

  /** The bit trick computes exactly what the branch computes, on every int64,
      MinInt included. */
  lemma WithTwosComplementIsWithBranch(n: Int64)
    ensures WithTwosComplement(n) == WithBranch(n)
  {
    SarWidthMinusOne(n);
    if n < 0 {
      XorMinusOne(n);
    } else {
      XorZero(n);
    }
  }

  /** Outside MinInt the bit trick returns the mathematical absolute value,
      which is never negative; at MinInt it wraps to MinInt. */
  lemma WithTwosComplementIsAbs(n: Int64)
    ensures n != MinInt ==> WithTwosComplement(n) >= 0
    ensures n != MinInt ==> WithTwosComplement(n) as int == MathAbs(n)
    ensures n == MinInt ==> WithTwosComplement(n) == MinInt
  {
    WithTwosComplementIsWithBranch(n);
  }

  lemma WithBranchIdempotent(n: Int64)
    ensures WithBranch(WithBranch(n)) == WithBranch(n)
  {}

  lemma WithTwosComplementIdempotent(n: Int64)
    ensures WithTwosComplement(WithTwosComplement(n)) == WithTwosComplement(n)
  {
    WithTwosComplementIsWithBranch(n);
    WithTwosComplementIsWithBranch(WithTwosComplement(n));
    WithBranchIdempotent(n);
  }
}
