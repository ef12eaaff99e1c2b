/**
 * Three places where the code does something other than what it evidently
 * means to do. For each, the code as written is exhibited on a concrete
 * input, and the corrected behaviour, proved elsewhere, is named.
 *
 * 1. A key whose cdbHash is 0. The readers treat a slot with hash 0 as
 *    empty, so a record with such a key is written into its table but no
 *    Get ever finds it. With the corrected emptiness test (offset 0, as in
 *    the original cdb) Get finds it.
 * 2. The end of Iterator64. The iterator stops at the table offset of
 *    bucket 0, which the writer sets to 0 when bucket 0 has no entries, so
 *    the iterator then yields nothing at all.
 * 3. The ErrTooMuchData guard of Put. The sum it compares with maxInt64 is
 *    an int64 and wraps around instead of exceeding maxInt64, so the guard
 *    can never fire.
 */
module Findings {
  import opened Wrappers
  import opened Bytes
  import opened GoIO
  import opened GoInt
  import opened Hash
  import opened ProbeTable
  import opened ProbeWalk
  import opened Writer
  import opened Layout
  import opened Tuple
  import Mmap
  import Reader
  import Iterators
  import RoundTrip
  import Sequential

  // ---- 1. A key whose hash is 0 ----

  /** A seven-byte key, "s9l0a6D", whose cdbHash is 0. */
  const ZeroKey: seq<Byte> := [115, 57, 108, 48, 97, 54, 68]

  /** One byte of cdbHash, given the product hi·256 + lo and the new low byte x. */
  lemma StepValue(h: nat, b: Byte, hi: nat, lo: nat, x: nat, r: nat)
    requires lo < 256 && ShiftAdd(h) == hi * 256 + lo && XorByte(lo, b) == x && r == hi * 256 + x
    ensures Step(h, b) == r
  {
    var m := ShiftAdd(h);
    assert m / 256 == hi && m % 256 == lo;
  }

  // cdbHash over ZeroKey, one byte at a time.

  lemma ZeroKeyByte0()
    ensures HashFrom(5381, ZeroKey[0..]) == HashFrom(177622, ZeroKey[1..])
  {
    StepValue(5381, 115, 693, 165, 214, 177622);
    assert ZeroKey[0..][0] == 115 && ZeroKey[0..][1..] == ZeroKey[1..];
  }

  lemma ZeroKeyByte1()
    ensures HashFrom(177622, ZeroKey[1..]) == HashFrom(5861551, ZeroKey[2..])
  {
    StepValue(177622, 57, 22896, 150, 175, 5861551);
    assert ZeroKey[1..][0] == 57 && ZeroKey[1..][1..] == ZeroKey[2..];
  }

  lemma ZeroKeyByte2()
    ensures HashFrom(5861551, ZeroKey[2..]) == HashFrom(193431267, ZeroKey[3..])
  {
    StepValue(5861551, 108, 755590, 143, 227, 193431267);
    assert ZeroKey[2..][0] == 108 && ZeroKey[2..][1..] == ZeroKey[3..];
  }

  lemma ZeroKeyByte3()
    ensures HashFrom(193431267, ZeroKey[3..]) == HashFrom(2088264563, ZeroKey[4..])
  {
    StepValue(193431267, 48, 8157283, 67, 115, 2088264563);
    assert ZeroKey[3..][0] == 48 && ZeroKey[3..][1..] == ZeroKey[4..];
  }

  lemma ZeroKeyByte4()
    ensures HashFrom(2088264563, ZeroKey[4..]) == HashFrom(193253810, ZeroKey[5..])
  {
    StepValue(2088264563, 97, 754897, 211, 178, 193253810);
    assert ZeroKey[4..][0] == 97 && ZeroKey[4..][1..] == ZeroKey[5..];
  }

  lemma ZeroKeyByte5()
    ensures HashFrom(193253810, ZeroKey[5..]) == HashFrom(2082408388, ZeroKey[6..])
  {
    StepValue(193253810, 54, 8134407, 242, 196, 2082408388);
    assert ZeroKey[5..][0] == 54 && ZeroKey[5..][1..] == ZeroKey[6..];
  }

  lemma ZeroKeyByte6()
    ensures HashFrom(2082408388, ZeroKey[6..]) == HashFrom(0, ZeroKey[7..])
  {
    StepValue(2082408388, 68, 0, 68, 0, 0);
    assert ZeroKey[6..][0] == 68 && ZeroKey[6..][1..] == ZeroKey[7..];
  }

  lemma ZeroKeyHash()
    ensures CdbHash(ZeroKey) == 0
  {
    ZeroKeyByte0(); ZeroKeyByte1(); ZeroKeyByte2(); ZeroKeyByte3();
    ZeroKeyByte4(); ZeroKeyByte5(); ZeroKeyByte6();
    assert ZeroKey[0..] == ZeroKey && ZeroKey[7..] == [];
  }

  /**
   * The probe loop as written, for the hash 0: every slot it reads is
   * either empty (hash 0) or carries a hash other than 0, so it never asks
   * for a record and never returns a value.
   */
  lemma {:induction false} WalkMissesZeroHash(size: nat,
                                              read: nat -> Result<Slot, Error>,
                                              look: nat -> Result<Option<seq<Byte>>, Error>, d: nat)
    requires d < size
    ensures Walk(ZeroHash, size, 0, read, look, d).Success? ==> Walk(ZeroHash, size, 0, read, look, d).value.None?
    decreases size - d
  {
    var start := StartSlot(0, size);
    var slot := Probe(start, d, size);
    if read(slot).Success? && !IsEmpty(ZeroHash, read(slot).value) {
      ProbeTurn(start, d, size);
      if Probe(start, d + 1, size) != start {
        WalkMissesZeroHash(size, read, look, d + 1);
      }
    }
  }

  /** Get of the memory-mapped reader, as written, never returns a value for a key with hash 0. */
  lemma MmapGetMissesZeroHash(db: Mmap.MmapCdb, key: seq<Byte>)
    requires Mmap.WellFormed(db) && CdbHash(key) == 0
    ensures Mmap.Get(ZeroHash, db, key).Success? ==> Mmap.Get(ZeroHash, db, key).value.None?
  {
    var table := db.index[Bucket(0)];
    if table.length > 0 {
      WalkMissesZeroHash(table.length, Mmap.SlotReader(db.data, table.offset), Mmap.ValueLooker(db.data, key), 0);
    }
  }

  /** Get of the ReaderAt readers, as written, never returns a value for a key with hash 0. */
  lemma ReaderGetMissesZeroHash(db: Reader.Cdb, key: seq<Byte>)
    requires Reader.WellFormed(db) && CdbHash(key) == 0
    ensures Reader.Get(ZeroHash, db, key).Success? ==> Reader.Get(ZeroHash, db, key).value.None?
  {
    var table := db.index[Bucket(0)];
    if table.length > 0 {
      WalkMissesZeroHash(table.length, Reader.SlotReader(db.w, db.data, table.offset),
                         Reader.ValueLooker(db.w, db.data, key), 0);
    }
  }

  /** A single small Put on a new writer succeeds. */
  lemma PutOne(key: seq<Byte>, value: seq<Byte>)
    requires IndexSize + 16 + |key| + |value| + 32 <= MaxInt64
    ensures PutAll(NewWriter(), [(key, value)]).Success?
  {
    assert [(key, value)][..0] == [];
  }

  /**
   * As written: after Put(ZeroKey, value) and finalize, Get(ZeroKey) of
   * the memory-mapped reader returns nil, though the key was put.
   */
  lemma ZeroKeyLost(value: seq<Byte>)
    requires |value| < TwoTo32
    ensures Lookup([(ZeroKey, value)], ZeroKey) == Some(value)
    ensures Build(ZeroHash, [(ZeroKey, value)]).Success?
    ensures var f := Build(ZeroHash, [(ZeroKey, value)]).value;
      Mmap.Open(f).Success? && Mmap.Get(ZeroHash, Mmap.Open(f).value, ZeroKey) == Success(None)
  {
    var recs := [(ZeroKey, value)];
    PutOne(ZeroKey, value);
    ZeroKeyHash();
    RoundTrip.MmapGetZeroHashAfterBuild(recs, ZeroKey);
    assert FirstIndex(recs, ZeroKey) == Some(0);
  }

  /** The only record of a file is found by its key, under the offset-0 emptiness test. */
  lemma SingleRecordFound(key: seq<Byte>, value: seq<Byte>)
    requires |key| < TwoTo32 && |value| < TwoTo32
    ensures Build(ZeroOffset, [(key, value)]).Success?
    ensures var f := Build(ZeroOffset, [(key, value)]).value;
      Mmap.Open(f).Success? && Mmap.Get(ZeroOffset, Mmap.Open(f).value, key) == Success(Some(value))
  {
    var recs := [(key, value)];
    PutOne(key, value);
    assert Lookup(recs, key) == Some(value) by {
      assert FirstIndex(recs, key) == Some(0);
    }
    RoundTrip.MmapGetAfterBuild(ZeroOffset, recs, key);
  }

  /** Corrected: with the offset-0 emptiness test the same Get returns the value. */
  lemma ZeroKeyFound(value: seq<Byte>)
    requires |value| < TwoTo32
    ensures Build(ZeroOffset, [(ZeroKey, value)]).Success?
    ensures var f := Build(ZeroOffset, [(ZeroKey, value)]).value;
      Mmap.Open(f).Success? && Mmap.Get(ZeroOffset, Mmap.Open(f).value, ZeroKey) == Success(Some(value))
  {
    SingleRecordFound(ZeroKey, value);
  }

  // ---- 2. The end of the iterator ----

  /** The one record "a" -> "x"; "a" hashes to 177604, bucket 196. */
  const LoneRecords: seq<Pair> := [([97], [120])]

  lemma LoneBuckets()
    ensures |EntriesOf(LoneRecords, 0)| == 0
  {
    StepValue(5381, 97, 693, 165, 196, 177604);
    assert CdbHash([97]) == 177604 by {
      assert HashFrom(177604, [97][1..]) == 177604;
    }
    assert LoneRecords[..0] == [];
  }

  /**
   * As written: Iterator64 over the file holding the one record "a" -> "x"
   * yields nothing, because bucket 0 is empty and its table offset is 0.
   */
  lemma LoneRecordMissed(mode: EmptyTest)
    ensures Build(mode, LoneRecords).Success? && Reader.New(W64, Build(mode, LoneRecords).value).Success?
    ensures var db := Reader.New(W64, Build(mode, LoneRecords).value).value;
      |db.data| < db.w.Limit() &&
      var r := Iterators.Collect(Iterators.Iter(db));
      r.Success? && r.value.0 == [] && r.value.0 != LoneRecords
  {
    PutOne([97], [120]);
    LoneBuckets();
    Sequential.IterEmptyBucketZero(mode, LoneRecords);
  }

  /** Corrected: stopping at the first table, the iterator yields the record. */
  lemma LoneRecordSeen(mode: EmptyTest)
    ensures Build(mode, LoneRecords).Success? && Reader.New(W64, Build(mode, LoneRecords).value).Success?
    ensures var db := Reader.New(W64, Build(mode, LoneRecords).value).value;
      |db.data| < db.w.Limit() &&
      var r := Iterators.Collect(Iterators.IterToTables(db));
      r.Success? && r.value.0 == LoneRecords
  {
    PutOne([97], [120]);
    Sequential.IterToTablesAfterBuild(mode, LoneRecords);
  }

  // ---- 3. The int64 guard of Put ----

  /**
   * The guard of Put as the source computes it: `entrySize` is
   * `int64(16 + len(key) + len(value))` and the sum with the offset, the
   * footer estimate and 32 is int64 arithmetic, so it wraps instead of
   * exceeding maxInt64. The guard therefore never fires.
   */
  function TooMuchDataAsWritten(bufferedOffset: int, footer: int, keyLength: nat, valueLength: nat): (r: bool)
    requires -(TwoTo63 as int) <= bufferedOffset <= MaxInt64 && -(TwoTo63 as int) <= footer <= MaxInt64
    ensures !r
  {
    var entrySize := WrapInt64(16 + keyLength + valueLength);
    WrapInt64(WrapInt64(WrapInt64(bufferedOffset + entrySize) + footer) + 32) > MaxInt64
  }

  /**
   * An offset 16 bytes short of maxInt64 and a record of 16 bytes: the sum
   * Put means to test exceeds maxInt64 (Writer.Put reports TooMuchData for
   * it), but the wrapped sum is negative and the guard lets it through.
   */
  lemma GuardMissesOverflow()
    ensures var bufferedOffset := MaxInt64 - 15;
      && bufferedOffset + 16 + 0 + 32 > MaxInt64
      && WrapInt64(bufferedOffset + 16) < 0
      && !TooMuchDataAsWritten(bufferedOffset, 0, 0, 0)
  {
  }
}
