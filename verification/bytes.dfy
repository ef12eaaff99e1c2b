/** Byte strings and the little-endian fixed-width integer codec (`encoding/binary.LittleEndian`). */
module Bytes {

  /** Go's `byte` (`uint8`). */
  type Byte = b: int | 0 <= b < 256

  /** 256^n: the number of values an n-byte unsigned integer can hold. */
  function Pow256(n: nat): (r: nat)
    ensures r > 0
  {
    if n == 0 then 1 else 256 * Pow256(n - 1)
  }

  /** n zero bytes (a fresh `make([]byte, n)`). */
  function Zeros(n: nat): (r: seq<Byte>)
    ensures |r| == n
    ensures forall i :: 0 <= i < n ==> r[i] == 0
  {
    seq(n, _ => 0)
  }

  /**
   * `PutUint32`/`PutUint64`: the low n bytes of x, least significant first.
   * A value that does not fit is truncated, as the conversion to the
   * fixed-width Go type that precedes every call would truncate it.
   */
  function EncodeLE(x: nat, n: nat): (r: seq<Byte>)
    ensures |r| == n
  {
    if n == 0 then [] else [x % 256] + EncodeLE(x / 256, n - 1)
  }

  /** `Uint32`/`Uint64`: the unsigned integer whose little-endian bytes are s. */
  function DecodeLE(s: seq<Byte>): (r: nat)
    ensures r < Pow256(|s|)
  {
    if |s| == 0 then 0 else s[0] + 256 * DecodeLE(s[1..])
  }

  lemma {:induction false} DecodeEncode(x: nat, n: nat)
    ensures DecodeLE(EncodeLE(x, n)) == x % Pow256(n)
  {
    if n > 0 {
      var e := EncodeLE(x, n);
      assert e[1..] == EncodeLE(x / 256, n - 1);
      DecodeEncode(x / 256, n - 1);
      ModOfProduct(x, Pow256(n - 1));
    }
  }

  /** x % (256 * p) splits into the low byte and (x / 256) % p. */
  lemma ModOfProduct(x: nat, p: nat)
    requires p > 0
    ensures x % (256 * p) == x % 256 + 256 * ((x / 256) % p)
  {
    var q := x / 256;
    var r := x % 256;
    assert x == 256 * q + r;
    var q2 := q / p;
    var r2 := q % p;
    assert q == p * q2 + r2;
    assert x == (256 * p) * q2 + (256 * r2 + r);
    assert 0 <= 256 * r2 + r < 256 * p;
    DivModUnique(x, 256 * p, q2, 256 * r2 + r);
  }

  lemma DivModUnique(x: int, m: int, q: int, r: int)
    requires m > 0 && 0 <= r < m && x == m * q + r
    ensures x % m == r
  {
    var q' := x / m;
    var r' := x % m;
    var d := q' - q;
    assert m * q' + r' == m * q + r;
    assert m * d == r - r' by {
      assert m * d == m * q' - m * q;
    }
    if d >= 1 {
      MulAtLeast(m, d);
    } else if d <= -1 {
      MulAtLeast(m, -d);
    }
  }

  /** Reducing a summand modulo m first does not change the sum modulo m. */
  lemma ModOfSum(a: nat, b: nat, m: nat)
    requires m > 0
    ensures (a % m + b) % m == (a + b) % m
  {
    var q := a / m;
    assert a == m * q + a % m;
    var s := a % m + b;
    var q2 := s / m;
    assert s == m * q2 + s % m;
    assert a + b == m * (q + q2) + s % m;
    DivModUnique(a + b, m, q + q2, s % m);
  }

  lemma MulAtLeast(m: int, d: int)
    requires m > 0 && d >= 1
    ensures m * d >= m
  {
  }

  /** Encoding a value that fits, then decoding, gives the value back. */
  lemma RoundTripLE(x: nat, n: nat)
    requires x < Pow256(n)
    ensures DecodeLE(EncodeLE(x, n)) == x
  {
    DecodeEncode(x, n);
  }

  /** Bytes known to be the n-byte encoding of v decode to v. */
  lemma DecodesTo(x: seq<Byte>, v: nat, n: nat)
    requires v < Pow256(n) && x == EncodeLE(v, n)
    ensures DecodeLE(x) == v
  {
    RoundTripLE(v, n);
  }

  /** Decoding then re-encoding at the same width gives the bytes back. */
  lemma {:induction false} EncodeDecode(s: seq<Byte>)
    ensures EncodeLE(DecodeLE(s), |s|) == s
  {
    if |s| > 0 {
      var x := DecodeLE(s);
      assert x % 256 == s[0];
      assert x / 256 == DecodeLE(s[1..]);
      EncodeDecode(s[1..]);
    }
  }

  lemma Pow256Widths()
    ensures Pow256(4) == 0x1_0000_0000
    ensures Pow256(8) == 0x1_0000_0000_0000_0000
  {
    assert Pow256(2) == 0x1_0000;
    assert Pow256(4) == 0x1_0000_0000;
    assert Pow256(6) == 0x1_0000_0000_0000;
  }

  /** The bytes of a middle part can be sliced back out of a concatenation. */
  lemma SliceOfMiddle(a: seq<Byte>, x: seq<Byte>, b: seq<Byte>, i: nat, j: nat)
    requires i <= j <= |x|
    ensures (a + x + b)[|a| + i .. |a| + j] == x[i..j]
  {
    assert (a + x + b)[|a|..] == x + b;
    assert (x + b)[i..j] == x[i..j];
  }

  /** The two halves of a slice s[lo..lo+n+m], split after n bytes. */
  lemma SliceHalves(s: seq<Byte>, lo: nat, n: nat, m: nat)
    requires lo + n + m <= |s|
    ensures s[lo..lo + n + m][..n] == s[lo..lo + n]
    ensures s[lo..lo + n + m][n..] == s[lo + n..lo + n + m]
  {
  }

  /** A slice that lies inside the second part of a concatenation. */
  lemma SliceOfSuffix(a: seq<Byte>, b: seq<Byte>, lo: nat, n: nat, x: seq<Byte>)
    requires |a| <= lo && lo - |a| + n <= |b|
    requires b[lo - |a|..lo - |a| + n] == x
    ensures (a + b)[lo..lo + n] == x
  {
    assert (a + b)[lo..lo + n] == b[lo - |a|..lo - |a| + n];
  }

  /** A slice that lies inside the first part of a concatenation. */
  lemma SliceOfPrefix(a: seq<Byte>, b: seq<Byte>, lo: nat, n: nat, x: seq<Byte>)
    requires lo + n <= |a| && a[lo..lo + n] == x
    ensures (a + b)[lo..lo + n] == x
  {
    assert (a + b)[lo..lo + n] == a[lo..lo + n];
  }

  /** A slice of a slice is a slice of the whole. */
  lemma SliceOfSlice(s: seq<Byte>, lo: nat, n: nat, x: seq<Byte>, i: nat, m: nat)
    requires lo + n <= |s| && s[lo..lo + n] == x && i + m <= n
    ensures s[lo + i..lo + i + m] == x[i..i + m]
  {
    forall j | i <= j < i + m
      ensures x[j] == s[lo + j]
    {
      assert x[j] == s[lo..lo + n][j];
    }
    assert x[i..i + m] == s[lo + i..lo + i + m];
  }

  /** Regrouping a concatenation around a part of its middle. */
  lemma Regroup(h: seq<Byte>, d: seq<Byte>, bytes: seq<Byte>, d1: seq<Byte>, x: seq<Byte>, tail: seq<Byte>)
    requires d == d1 + x + tail
    ensures h + d + bytes == (h + d1) + x + (tail + bytes)
  {
  }
}
