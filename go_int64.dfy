/**
  Go's signed 64-bit integers and the operators on them that abs.go uses:
  unary minus, binary minus, bitwise exclusive-or and the right shift.

  A value of Go's `int64` is an integer in [-2^63, 2^63 - 1]; its bit pattern
  is the 64-bit two's-complement encoding given by Unsigned.  Arithmetic wraps
  modulo 2^64 (Wrap), exclusive-or works on the bit patterns (Xor), and `>>`
  on a signed operand is an arithmetic shift: the bits move right and the sign
  bit is copied into the vacated high-order positions (Sar).
 */
module GoInt {

  const Width: nat := 64
  const TwoTo63: int := 0x8000_0000_0000_0000
  const TwoTo64: int := 0x1_0000_0000_0000_0000

  /** math.MinInt64 and math.MaxInt64 */
  const MinInt: int := -TwoTo63
  const MaxInt: int := TwoTo63 - 1

  type Int64 = x: int | MinInt <= x <= MaxInt

  /** The 64-bit pattern with every bit set, read as an unsigned number. */
  const AllOnes: nat := TwoTo64 - 1

  function Pow2(k: nat): (r: nat)
    ensures r >= 1
  {
    if k == 0 then 1 else 2 * Pow2(k - 1)
  }

  lemma {:induction false} Pow2Add(a: nat, b: nat)
    ensures Pow2(a + b) == Pow2(a) * Pow2(b)
  {
    if a > 0 {
      Pow2Add(a - 1, b);
      assert Pow2(a + b) == 2 * Pow2(a - 1 + b);
    }
  }

  lemma Pow2Width()
    ensures Pow2(Width) == TwoTo64
  {
    assert Pow2(8) == 0x100;
    Pow2Add(8, 8);
    Pow2Add(16, 16);
    Pow2Add(32, 32);
  }

  // ---------------------------------------------------------------------
  // Encoding as a 64-bit pattern

  /** The two's-complement bit pattern of n, read as an unsigned number
      (Go's uint64(n)). */
  function Unsigned(n: Int64): (u: nat)
    ensures u < TwoTo64
    ensures (u - n) % TwoTo64 == 0
  {
    if n < 0 then n + TwoTo64 else n
  }

  /** The signed value of a 64-bit pattern (Go's int64(u) for a uint64 u). */
  function Signed(u: nat): (n: Int64)
    requires u < TwoTo64
    ensures (n - u) % TwoTo64 == 0
  {
    if u < TwoTo63 then u else u - TwoTo64
  }

  lemma SignedUnsigned(n: Int64)
    ensures Signed(Unsigned(n)) == n
  {}

  lemma UnsignedSigned(u: nat)
    requires u < TwoTo64
    ensures Unsigned(Signed(u)) == u
  {}

  /** Bit 63 of the pattern, the sign bit. */
  predicate SignBit(n: Int64)
  {
    Unsigned(n) / TwoTo63 == 1
  }

  lemma SignBitIsNegative(n: Int64)
    ensures SignBit(n) <==> n < 0
  {}

  // ---------------------------------------------------------------------
  // Wrap-around arithmetic

  /** The int64 that an exact integer result wraps to: the one congruent to
      it modulo 2^64. */
  function Wrap(x: int): (r: Int64)
    ensures (r - x) % TwoTo64 == 0
    ensures MinInt <= x <= MaxInt ==> r == x
  {
    Signed(x % TwoTo64)
  }

  /** Go's unary minus on int64. */
  function Neg(n: Int64): (r: Int64)
    ensures n != MinInt ==> r == -n
    ensures n == MinInt ==> r == MinInt
  {
    Wrap(-(n as int))
  }

  /** Go's binary minus on int64. */
  function Sub(a: Int64, b: Int64): (r: Int64)
    ensures MinInt <= a - b <= MaxInt ==> r == a - b
    ensures a - b > MaxInt ==> r == a - b - TwoTo64
    ensures a - b < MinInt ==> r == a - b + TwoTo64
  {
    Wrap(a - b)
  }

  // ---------------------------------------------------------------------
  // Exclusive-or

  /** Exclusive-or of the low k bits of x and y, bit by bit from the least
      significant one. */
  function XorBits(x: nat, y: nat, k: nat): (r: nat)
    ensures r < Pow2(k)
  {
    if k == 0 then 0
    else 2 * XorBits(x / 2, y / 2, k - 1) + (if x % 2 == y % 2 then 0 else 1)
  }

  lemma {:induction false} XorBitsZero(x: nat, k: nat)
    requires x < Pow2(k)
    ensures XorBits(x, 0, k) == x
  {
    if k > 0 {
      XorBitsZero(x / 2, k - 1);
    }
  }

  lemma {:induction false} XorBitsOnes(x: nat, k: nat)
    requires x < Pow2(k)
    ensures XorBits(x, Pow2(k) - 1, k) == Pow2(k) - 1 - x
  {
    if k > 0 {
      assert (Pow2(k) - 1) / 2 == Pow2(k - 1) - 1;
      XorBitsOnes(x / 2, k - 1);
    }
  }

  lemma {:induction false} XorBitsCancel(x: nat, y: nat, k: nat)
    requires x < Pow2(k)
    ensures XorBits(XorBits(x, y, k), y, k) == x
  {
    if k > 0 {
      var r := XorBits(x, y, k);
      assert r / 2 == XorBits(x / 2, y / 2, k - 1);
      XorBitsCancel(x / 2, y / 2, k - 1);
    }
  }

  lemma {:induction false} XorBitsCommutes(x: nat, y: nat, k: nat)
    ensures XorBits(x, y, k) == XorBits(y, x, k)
  {
    if k > 0 {
      XorBitsCommutes(x / 2, y / 2, k - 1);
    }
  }

  /** Go's `^` on two int64 operands: exclusive-or of their bit patterns. */
  function Xor(a: Int64, b: Int64): (r: Int64)
  {
    Pow2Width();
    Signed(XorBits(Unsigned(a), Unsigned(b), Width))
  }

  lemma XorZero(a: Int64)
    ensures Xor(a, 0) == a
  {
    Pow2Width();
    XorBitsZero(Unsigned(a), Width);
  }

  /** Exclusive-or with all ones (-1) is the complement, -a - 1. */
  lemma XorMinusOne(a: Int64)
    ensures Xor(a, -1) == -(a as int) - 1
  {
    Pow2Width();
    assert Unsigned(-1) == AllOnes == Pow2(Width) - 1;
    XorBitsOnes(Unsigned(a), Width);
  }

  lemma XorCancel(a: Int64, b: Int64)
    ensures Xor(Xor(a, b), b) == a
  {
    Pow2Width();
    var x := XorBits(Unsigned(a), Unsigned(b), Width);
    assert Unsigned(Xor(a, b)) == x;
    XorBitsCancel(Unsigned(a), Unsigned(b), Width);
  }

  lemma XorCommutes(a: Int64, b: Int64)
    ensures Xor(a, b) == Xor(b, a)
  {
    XorBitsCommutes(Unsigned(a), Unsigned(b), Width);
  }

  // ---------------------------------------------------------------------
  // Arithmetic right shift

  /** Arithmetic shift right by one bit: the pattern shifted logically right
      by one, with bit 63 set again when the sign bit was set.  This is floor
      division by two. */
  function Sar1(n: Int64): (r: Int64)
    ensures r == n / 2
  {
    Signed(Unsigned(n) / 2 + if SignBit(n) then TwoTo63 else 0)
  }

  /** Go's `n >> s` for a signed n: s arithmetic shifts by one bit. */
  function Sar(n: Int64, s: nat): (r: Int64)
  {
    if s == 0 then n else Sar1(Sar(n, s - 1))
  }

  /** After s shifts the value keeps its sign and lies in
      [-2^(63-s), 2^(63-s)). */
  lemma {:induction false} SarBounds(n: Int64, s: nat)
    requires s < Width
    ensures -(Pow2(Width - 1 - s) as int) <= Sar(n, s) < Pow2(Width - 1 - s)
    ensures Sar(n, s) < 0 <==> n < 0
  {
    if s == 0 {
      Pow2Width();
    } else {
      SarBounds(n, s - 1);
    }
  }

  /** The sign mask: all bits set (-1) for a negative value, none (0)
      otherwise. */
  function SignMask(n: Int64): (y: Int64)
  {
    if n < 0 then -1 else 0
  }

  /** `n >> 63` copies the sign bit into every bit: it is the sign mask, and
      it is n divided by 2^63, rounded down. */
  lemma SarWidthMinusOne(n: Int64)
    ensures Sar(n, Width - 1) == SignMask(n)
    ensures Sar(n, Width - 1) == n / TwoTo63
  {
    SarBounds(n, Width - 1);
  }
}
