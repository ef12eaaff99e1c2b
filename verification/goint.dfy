/**
 * Go's fixed-width integer arithmetic, written out over Dafny's unbounded
 * integers: unsigned wrap-around, the `int64(x)` reinterpretation of a
 * `uint64`, and signed 64-bit wrap-around of `int` sums.
 */
module GoInt {

  const TwoTo32: nat := 0x1_0000_0000
  const TwoTo63: nat := 0x8000_0000_0000_0000
  const TwoTo64: nat := 0x1_0000_0000_0000_0000

  /** `math.MaxInt64`, also the largest length a Go slice can have. */
  const MaxInt64: nat := 0x7FFF_FFFF_FFFF_FFFF

  /** The value of a non-negative sum after conversion to `uint32`. */
  function Uint32(x: nat): (r: nat)
    ensures r < TwoTo32
    ensures x < TwoTo32 ==> r == x
  {
    x % TwoTo32
  }

  /** The value of a non-negative sum after conversion to `uint64`. */
  function Uint64(x: nat): (r: nat)
    ensures r < TwoTo64
    ensures x < TwoTo64 ==> r == x
    ensures TwoTo64 <= x < 2 * TwoTo64 ==> r == x - TwoTo64
  {
    x % TwoTo64
  }

  /** `int64(x)` (equivalently `int(x)` on a 64-bit platform) for a `uint64` value x. */
  function Int64Of(x: nat): (r: int)
    requires x < TwoTo64
    ensures -(TwoTo63 as int) <= r <= MaxInt64
    ensures x <= MaxInt64 <==> r == x
    ensures x > MaxInt64 <==> r < 0
  {
    if x <= MaxInt64 then x else x - TwoTo64
  }

  /** An `int` sum after signed 64-bit wrap-around. */
  function WrapInt64(x: int): (r: int)
    ensures -(TwoTo63 as int) <= r <= MaxInt64
    ensures -(TwoTo63 as int) <= x <= MaxInt64 ==> r == x
    ensures MaxInt64 < x < MaxInt64 + TwoTo64 ==> r == x - TwoTo64
  {
    (x + TwoTo63) % TwoTo64 - TwoTo63
  }

  /** `a & b` on non-negative integers, bit by bit from the least significant. */
  function BitAnd(a: nat, b: nat): (r: nat)
    ensures r <= a
  {
    if a == 0 || b == 0 then 0
    else 2 * BitAnd(a / 2, b / 2) + (if a % 2 == 1 && b % 2 == 1 then 1 else 0)
  }

  /** n is 1, 2, 4, 8, ... */
  predicate IsPow2(n: nat)
  {
    n == 1 || (n >= 2 && n % 2 == 0 && IsPow2(n / 2))
  }

  function Pow2(k: nat): (r: nat)
    ensures r >= 1
  {
    if k == 0 then 1 else 2 * Pow2(k - 1)
  }

  lemma {:induction false} BitAndSelf(m: nat)
    ensures BitAnd(m, m) == m
  {
    if m > 0 {
      BitAndSelf(m / 2);
    }
  }

  /** The test `n&(n-1) == 0` holds, for n >= 1, exactly when n is a power of two. */
  lemma {:induction false} PowerOfTwoTest(n: nat)
    requires n >= 1
    ensures BitAnd(n, n - 1) == 0 <==> IsPow2(n)
  {
    if n >= 2 {
      if n % 2 == 0 {
        assert (n - 1) / 2 == n / 2 - 1 && (n - 1) % 2 == 1;
        PowerOfTwoTest(n / 2);
      } else {
        assert (n - 1) / 2 == n / 2 && (n - 1) % 2 == 0;
        BitAndSelf(n / 2);
      }
    }
  }

  lemma {:induction false} Pow2IsPow2(k: nat)
    ensures IsPow2(Pow2(k))
  {
    if k > 0 {
      Pow2IsPow2(k - 1);
      assert Pow2(k) / 2 == Pow2(k - 1);
    }
  }

  /** No power of two lies strictly between 2^k and 2^(k+1). */
  lemma {:induction false} NoPow2Between(k: nat, n: nat)
    requires Pow2(k) < n < 2 * Pow2(k)
    ensures !IsPow2(n)
  {
    if n % 2 == 0 && k > 0 {
      NoPow2Between(k - 1, n / 2);
    }
  }

  /** Every n >= 1 lies in [2^k, 2^(k+1)) for some k. */
  lemma {:induction false} Pow2Bracket(n: nat) returns (k: nat)
    requires n >= 1
    ensures Pow2(k) <= n < 2 * Pow2(k)
  {
    if n == 1 {
      k := 0;
    } else {
      var j := Pow2Bracket(n / 2);
      k := j + 1;
    }
  }

  /**
   * `a + int(x)` for a non-negative int a and a uint64 x, when the wrapped
   * sum is at least a: then nothing wrapped and the sum is a + x.
   */
  lemma AddNoWrap(a: int, x: nat)
    requires 0 <= a <= MaxInt64 && x < TwoTo64
    requires a <= WrapInt64(a + Int64Of(x))
    ensures WrapInt64(a + Int64Of(x)) == a + x
  {
  }
}
