/**
 * cdbHash (hash.go): the djb-style string hash of the CDB format. The state
 * is a 32-bit unsigned integer; each byte multiplies it by 33 with
 * wrap-around and xors the byte in. The hash stays 32 bits wide in the
 * 64-bit file format.
 */
module Hash {
  import opened Bytes
  import opened GoInt

  /** The hash of the empty string (`start` in hash.go). */
  const Start: nat := 5381

  /** `(h << 5) + h` in `uint32` arithmetic. */
  function ShiftAdd(h: nat): (r: nat)
    ensures r < TwoTo32
  {
    Uint32(Uint32(h * 32) + h)
  }

  /** Bit k of a ^ b (k a power of two), as the value 0 or k. */
  function XorBit(a: nat, b: nat, k: nat): (r: nat)
    requires k > 0
    ensures r == 0 || r == k
  {
    if (a / k) % 2 == (b / k) % 2 then 0 else k
  }

  /** a ^ b for two bytes, bit by bit. */
  function XorByte(a: nat, b: nat): (r: nat)
    requires a < 256 && b < 256
    ensures r < 256
  {
    XorBit(a, b, 1) + XorBit(a, b, 2) + XorBit(a, b, 4) + XorBit(a, b, 8)
    + XorBit(a, b, 16) + XorBit(a, b, 32) + XorBit(a, b, 64) + XorBit(a, b, 128)
  }

  /**
   * One byte of cdbHash: `((h << 5) + h) ^ uint32(b)`. A byte has no bits
   * above bit 7, so the xor keeps bits 8..31 of the product and xors its
   * low byte with b.
   */
  function Step(h: nat, b: Byte): (r: nat)
    ensures r < TwoTo32
  {
    var m := ShiftAdd(h);
    var x := XorByte(m % 256, b);
    StepBound(m, x);
    (m / 256) * 256 + x
  }

  /** Replacing the low byte of a 32-bit value keeps it 32 bits wide. */
  lemma StepBound(m: nat, x: nat)
    requires m < TwoTo32 && x < 256
    ensures 0 <= (m / 256) * 256 + x < TwoTo32
  {
    var q := m / 256;
    assert q < 16777216;
    assert q * 256 <= 16777215 * 256;
  }

  /** The hash state after feeding the bytes of s, in order, to state h. */
  function HashFrom(h: nat, s: seq<Byte>): (r: nat)
    requires h < TwoTo32
    ensures r < TwoTo32
    decreases |s|
  {
    if |s| == 0 then h else HashFrom(Step(h, s[0]), s[1..])
  }

  /** cdbHash(data). */
  function CdbHash(key: seq<Byte>): (r: nat)
    ensures r < TwoTo32
  {
    HashFrom(Start, key)
  }

  /** `hash & 0xff`: the bucket (one of 256) a hash selects. */
  function Bucket(h: nat): (b: nat)
    ensures b < 256
  {
    h % 256
  }

  /** `hash >> 8`: the part of the hash that picks the starting slot. */
  function Shift8(h: nat): nat
  {
    h / 256
  }

  lemma HashOfEmpty()
    ensures CdbHash([]) == 5381
  {
  }

  /** The shift-and-add of the source is multiplication by 33 modulo 2^32. */
  lemma ShiftAddIsTimes33(h: nat)
    ensures ShiftAdd(h) == (33 * h) % TwoTo32
  {
    ModOfSum(h * 32, h, TwoTo32);
  }

  /** Hashing a ++ b continues from the hash of a. */
  lemma {:induction false} HashAppend(h: nat, a: seq<Byte>, b: seq<Byte>)
    requires h < TwoTo32
    ensures HashFrom(h, a + b) == HashFrom(HashFrom(h, a), b)
    decreases |a|
  {
    if |a| > 0 {
      assert (a + b)[0] == a[0];
      assert (a + b)[1..] == a[1..] + b;
      HashAppend(Step(h, a[0]), a[1..], b);
    } else {
      assert a + b == b;
    }
  }

  /** Hashing one more byte applies one more step. */
  lemma HashSnoc(key: seq<Byte>, x: Byte)
    ensures CdbHash(key + [x]) == Step(CdbHash(key), x)
  {
    HashAppend(Start, key, [x]);
    assert [x][1..] == [];
  }
}
