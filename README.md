# Exact 64-bit absolute value (go-abs) in Dafny

Package `abs` offers several ways to compute the absolute value of a Go
`int64`. This project models the two exact ones in `abs.go`:

- `WithBranch` negates its argument when it is negative.
- `WithTwosComplement` uses the branch-free trick from Hacker's Delight,
  section 2-4. It takes `y = n >> 63`, which is all ones for a negative `n`
  and zero otherwise, and returns `(n ^ y) - y`.

It proves what these functions compute on every `int64`, including the
boundary `MinInt = -2^63`. Negating that value wraps around to `MinInt`
itself, so both functions return `MinInt` there. The project also proves that
both functions pass the test vectors of `abs_test.go`.

Files:

- `go_int64.dfy`, module `GoInt`: Go's `int64` and the operators abs.go uses.
  An `Int64` is an `int` in `[-2^63, 2^63 - 1]`.
  - Its bit pattern is its 64-bit two's-complement encoding (`Unsigned`, `Signed`).
  - Unary and binary minus wrap modulo 2^64 (`Wrap`, `Neg`, `Sub`).
  - `^` is exclusive-or of the 64-bit patterns (`XorBits`, `Xor`).
  - `>>` is the arithmetic shift (`Sar`): each one-bit step shifts the
    pattern right and copies the sign bit back into bit 63.
- `abs.dfy`, module `Abs`: `WithBranch`, `WithTwosComplement`, and the
  reference `MathAbs`.
- `abs_fixtures.dfy`, module `AbsFixtures`: the test vectors from
  abs_test.go and the lemmas showing both functions pass them.

The exclusive-or model also carries two laws, cancellation and commutativity.
They check that `XorBits` behaves like exclusive-or. The proof of the trick
uses only exclusive-or with 0 and with all ones.

The values are mathematical integers limited to the `int64` range, not
`bv64`. That keeps every statement about signed values as plain integer
arithmetic. The bitwise operators are defined bit by bit on the
two's-complement pattern, so the model still does the bit-level work of the
trick.

## Model

| member | source | states |
|---|---|---|
| `Abs.WithBranch` | abs.go:16-21 | A non-negative n is returned unchanged. For MinInt < n < 0 the result is -n, which is strictly positive. For every n other than MinInt the result is the mathematical absolute value. MinInt is returned unchanged. |
| `GoInt.Neg` | abs.go:18 | Go's `-n` on int64 is the exact negation for every n except MinInt, whose negation wraps to MinInt. |
| `GoInt.SarWidthMinusOne` | abs.go:36 | The mask `y = n >> 63` is -1 (all bits set) for a negative n and 0 otherwise. It also equals n / 2^63 rounded down, which is what an arithmetic shift means. |
| `GoInt.SarBounds` | abs.go:36 | After s one-bit arithmetic shifts with s < 64, the value keeps the sign of n and lies in [-2^(63-s), 2^(63-s)). |
| `GoInt.Sar1` | abs.go:36 | One arithmetic shift step shifts the bit pattern right by one and copies the sign bit back into bit 63. The result is n / 2 rounded down. |
| `GoInt.Sar` | abs.go:36 | Go's `n >> s` for a signed n, as s one-bit arithmetic shifts. It has no contract of its own; `SarBounds` and `SarWidthMinusOne` state its behaviour. |
| `GoInt.SignMask` | abs.go:36 | The reference value of the mask: -1 (all bits set) for a negative n, 0 otherwise. It has no contract of its own; `SarWidthMinusOne` proves that `n >> 63` equals it. |
| `GoInt.XorBits` | abs.go:37 | The exclusive-or of the low k bits of two numbers fits in k bits. |
| `GoInt.XorBitsZero` | abs.go:37 | Exclusive-or with zero leaves a k-bit pattern unchanged. |
| `GoInt.XorBitsOnes` | abs.go:37 | Exclusive-or with the all-ones k-bit pattern gives the complement 2^k - 1 - x. |
| `GoInt.XorBitsCancel` | abs.go:37 | Doing the same exclusive-or twice gives back the original pattern. This is a sanity law of the `^` model; the trick itself does not use it. |
| `GoInt.XorBitsCommutes` | abs.go:37 | Exclusive-or of bit patterns is commutative. This is a sanity law of the `^` model; the trick itself does not use it. |
| `GoInt.Unsigned` | abs.go:36-37 | The bit pattern of an int64 is the unique number below 2^64 that is congruent to it modulo 2^64, which is what two's-complement encoding means. |
| `GoInt.Signed` | abs.go:36-37 | Reading a 64-bit pattern as an int64 gives a value congruent to the pattern modulo 2^64. |
| `GoInt.Xor` | abs.go:37 | Go's `a ^ b` on int64: the exclusive-or of the two 64-bit patterns, read back as an int64. It has no contract of its own; `XorZero`, `XorMinusOne`, `XorCancel` and `XorCommutes` state its behaviour. |
| `GoInt.XorZero` | abs.go:37 | For int64 values, `n ^ 0 == n`. |
| `GoInt.XorMinusOne` | abs.go:37 | For int64 values, `n ^ -1 == -n - 1`, the bitwise complement. |
| `GoInt.XorCancel` | abs.go:37 | For int64 values, `(a ^ b) ^ b == a`. This is a sanity law of the `^` model; `(n ^ y) - y` does not use it. |
| `GoInt.XorCommutes` | abs.go:37 | For int64 values, `a ^ b == b ^ a`. This is a sanity law of the `^` model; `(n ^ y) - y` does not use it. |
| `GoInt.Sub` | abs.go:37 | Go's `a - b` on int64 is the exact difference when that is in range. Otherwise it is shifted by 2^64 back into range. |
| `GoInt.Wrap` | abs.go:37 | The wrapped result is congruent to the exact one modulo 2^64, and equals it when it is already in range. |
| `Abs.MathAbs` | abs.go:14-15 | The mathematical absolute value, which both variants are documented to compute. It is the reference for `WithBranch`'s contract and for `WithTwosComplementIsAbs`. It has no contract of its own. |
| `Abs.WithTwosComplement` | abs.go:35-38 | Computes `y = Sar(n, 63)`, then `Sub(Xor(n, y), y)`. It has no contract of its own; `WithTwosComplementIsWithBranch`, `WithTwosComplementIsAbs` and `WithTwosComplementIdempotent` state its behaviour. |
| `Abs.WithTwosComplementIsWithBranch` | abs.go:14-38 | The branch-free function and the branching one agree on every int64, MinInt included. |
| `Abs.WithTwosComplementIsAbs` | abs.go:32-38 | For every n other than MinInt, `WithTwosComplement(n)` is non-negative and equals the mathematical absolute value. At MinInt it returns MinInt. |
| `Abs.WithBranchIdempotent` | abs.go:16-21 | Applying WithBranch twice gives the same result as applying it once, for every input including MinInt. |
| `Abs.WithTwosComplementIdempotent` | abs.go:35-38 | Applying WithTwosComplement twice gives the same result as applying it once, for every input including MinInt. |
| `AbsFixtures.WithBranchPassesFixtures` | abs_test.go:17-18 | WithBranch maps each of the eight test inputs to its expected output. |
| `AbsFixtures.WithTwosComplementPassesFixtures` | abs_test.go:43-57 | WithTwosComplement maps each of the eight test inputs to its expected output, which is the check TestAbs performs. |
| `AbsFixtures.MinIntBoundary` | abs_test.go:9-18 | MinInt is not among the test inputs. Both variants return MinInt unchanged for it. |

## Left out

- `WithStdLib` (abs.go:28-30): it converts to `float64`, calls `math.Abs` and converts back. That is floating-point arithmetic. The source itself expects it to fail on magnitudes the float cannot hold exactly.
- `WithASM` (abs.go:42): only its Go declaration is visible. Its assembly body is not part of this model, so nothing here can be compared with it. Its comment says it uses the same trick as `WithTwosComplement`.
- `BenchmarkAbs` (abs_test.go:59-88): it times the functions on inputs from `math/rand`. It measures performance only.
- The test harness plumbing (abs_test.go:19-56): the table of names and functions, `t.Run` and the `t.Errorf` messages. Only the input and output vectors are modelled.
- `GoInt.Sar`: the model covers only shift counts that are `nat`s, applied one bit at a time. abs.go shifts only by the constant 63. Go's run-time panic on a negative shift count is not modelled.
