/**
 * Reading back what the Writer wrote. Get of the memory-mapped reader and
 * of the 64-bit ReaderAt reader, on the file Build returns, gives the value
 * of the earliest Put of a key and nil for a key never put, as long as the
 * key's own entries cannot be taken for free slots (Findable).
 */
module RoundTrip {
  import opened Wrappers
  import opened Bytes
  import opened GoInt
  import opened GoIO
  import opened Hash
  import opened Tuple
  import opened ProbeTable
  import opened ProbeWalk
  import opened Writer
  import opened Layout
  import opened Finished
  import Mmap
  import Reader

  /**
   * The key's own entries cannot be mistaken for free slots: always so
   * when emptiness is decided by the offset, and when it is decided by the
   * hash exactly when the key does not hash to 0. Other keys may hash to 0:
   * their entries are lost, but the key's are not.
   */
  ghost predicate Findable(mode: EmptyTest, key: seq<Byte>)
  {
    mode == ZeroOffset || CdbHash(key) != 0
  }

  /** The entries of bucket b that the probe accepts for the key test as occupied. */
  lemma MatchesOccupied(mode: EmptyTest, recs: seq<Pair>, key: seq<Byte>, b: nat,
                        look: nat -> Result<Option<seq<Byte>>, Error>)
    requires Findable(mode, key)
    requires forall i :: 0 <= i < |recs| ==>
      look(OffsetOf(recs, i)) == Success(if key == recs[i].0 then Some(recs[i].1) else None)
    ensures var es := EntriesOf(recs, b);
      forall j :: 0 <= j < |es| && Accepts(CdbHash(key), look)(es[j]) ==> !IsEmpty(mode, es[j])
  {
    var es := EntriesOf(recs, b);
    forall j | 0 <= j < |es| && Accepts(CdbHash(key), look)(es[j])
      ensures !IsEmpty(mode, es[j])
    {
      var i := EntriesOfSound(recs, b, j);
      assert recs[i].0 == key;
    }
  }

  /** A key whose bucket holds no entry was never put. */
  lemma LookupEmptyBucket(recs: seq<Pair>, key: seq<Byte>)
    requires EntriesOf(recs, Bucket(CdbHash(key))) == []
    ensures Lookup(recs, key) == None
  {
    if FirstIndex(recs, key).Some? {
      EntriesOfComplete(recs, Bucket(CdbHash(key)), FirstIndex(recs, key).value);
    }
  }

  /**
   * The probe loop over the table built for the query's bucket, reading
   * its slots and checking records as a reader of the finished file does,
   * returns the value of the earliest record with the query key, or nil.
   */
  lemma WalkOnBuilt(mode: EmptyTest, recs: seq<Pair>, key: seq<Byte>, t: seq<Slot>,
                    read: nat -> Result<Slot, Error>, look: nat -> Result<Option<seq<Byte>>, Error>)
    requires Findable(mode, key)
    requires var es := EntriesOf(recs, Bucket(CdbHash(key))); |es| > 0 && BuildTable(mode, es) == Some(t)
    requires forall i :: 0 <= i < |t| ==> read(i) == Success(t[i])
    requires forall i :: 0 <= i < |recs| ==>
      look(OffsetOf(recs, i)) == Success(if key == recs[i].0 then Some(recs[i].1) else None)
    ensures |t| > 0 && Walk(mode, |t|, CdbHash(key), read, look, 0) == Success(Lookup(recs, key))
  {
    var h := CdbHash(key);
    var b := Bucket(h);
    var es := EntriesOf(recs, b);
    NeverFull(mode, es);
    PlaceFromContents(mode, seq(2 * |es|, _ => EmptySlot), es, es);
    forall i | 0 <= i < |t| && !IsEmpty(mode, t[i]) && t[i].hash == h
      ensures look(t[i].offset).Success?
    {
      var j :| 0 <= j < |es| && es[j] == t[i];
      var k := EntriesOfSound(recs, b, j);
    }
    WalkIsFind(mode, t, h, read, look, 0);
    var isMatch := Accepts(h, look);
    MatchesOccupied(mode, recs, key, b, look);
    FindFirstOccupied(mode, es, h, isMatch);
    forall i | 0 <= i < |recs|
      ensures isMatch(SlotOf(recs, i)) <==> recs[i].0 == key
    {
    }
    EntriesFirstMatch(recs, key, isMatch);
  }

  /**
   * With the hash-0 emptiness test no slot can both be occupied and carry
   * hash 0, so the probe for hash 0 stops at once or passes only other
   * keys' entries, and answers nil as long as the slots can be read.
   */
  lemma WalkZeroHash(t: seq<Slot>, read: nat -> Result<Slot, Error>, look: nat -> Result<Option<seq<Byte>>, Error>)
    requires |t| > 0
    requires forall i :: 0 <= i < |t| ==> read(i) == Success(t[i])
    ensures Walk(ZeroHash, |t|, 0, read, look, 0) == Success(None)
  {
    WalkIsFind(ZeroHash, t, 0, read, look, 0);
  }

  // ---- The memory-mapped reader ----

  /** The index the memory-mapped reader decodes is the header doFinalize wrote. */
  lemma MmapIndex(mode: EmptyTest, recs: seq<Pair>, f: seq<Byte>, offs: seq<nat>)
    requires Readable(mode, recs, f, offs)
    ensures Mmap.Open(f).Success?
    ensures forall b :: 0 <= b < Buckets ==>
      Mmap.Open(f).value.index[b] == Table(offs[b], 2 * |EntriesOf(recs, b)|)
  {
    Mmap.OpenIndexEntry(f, 0);
    forall b | 0 <= b < Buckets
      ensures Mmap.Open(f).value.index[b] == Table(offs[b], 2 * |EntriesOf(recs, b)|)
    {
      assert HeaderReads(f, b, offs[b], 2 * |EntriesOf(recs, b)|);
      Mmap.OpenIndexEntry(f, b);
    }
  }

  /** The memory-mapped slot reader returns the slots of the table doFinalize built. */
  lemma MmapSlots(mode: EmptyTest, recs: seq<Pair>, f: seq<Byte>, offs: seq<nat>, b: nat)
    requires Readable(mode, recs, f, offs) && b < Buckets && |EntriesOf(recs, b)| > 0
    ensures BuildTable(mode, EntriesOf(recs, b)).Some?
    ensures var t := BuildTable(mode, EntriesOf(recs, b)).value;
      forall s :: 0 <= s < |t| ==> Mmap.SlotReader(f, offs[b])(s) == Success(t[s])
  {
    var es := EntriesOf(recs, b);
    assert TableReads(mode, f, offs[b], es);
    var t := BuildTable(mode, es).value;
    forall s | 0 <= s < |t|
      ensures Mmap.SlotReader(f, offs[b])(s) == Success(t[s])
    {
      assert SlotReads(f, offs[b], s, t[s]);
    }
  }

  /** getValueAtMmap at the offset of record i answers for that record. */
  lemma MmapLooks(mode: EmptyTest, recs: seq<Pair>, f: seq<Byte>, offs: seq<nat>, key: seq<Byte>)
    requires Readable(mode, recs, f, offs)
    ensures forall i :: 0 <= i < |recs| ==>
      Mmap.ValueLooker(f, key)(OffsetOf(recs, i)) == Success(if key == recs[i].0 then Some(recs[i].1) else None)
  {
    forall i | 0 <= i < |recs|
      ensures Mmap.ValueLooker(f, key)(OffsetOf(recs, i)) == Success(if key == recs[i].0 then Some(recs[i].1) else None)
    {
      assert RecordAt(W64, f, OffsetOf(recs, i), recs[i].0, recs[i].1);
      Mmap.GetValueAtMmapAt(f, OffsetOf(recs, i), key, recs[i].0, recs[i].1);
    }
  }

  /** Get of the memory-mapped reader on a Readable file is Lookup. */
  lemma MmapGetReadable(mode: EmptyTest, recs: seq<Pair>, f: seq<Byte>, offs: seq<nat>, key: seq<Byte>)
    requires Readable(mode, recs, f, offs) && Findable(mode, key)
    ensures Mmap.Open(f).Success?
    ensures Mmap.Get(mode, Mmap.Open(f).value, key) == Success(Lookup(recs, key))
  {
    MmapIndex(mode, recs, f, offs);
    var b := Bucket(CdbHash(key));
    if |EntriesOf(recs, b)| == 0 {
      LookupEmptyBucket(recs, key);
    } else {
      MmapSlots(mode, recs, f, offs, b);
      MmapLooks(mode, recs, f, offs, key);
      var t := BuildTable(mode, EntriesOf(recs, b)).value;
      WalkOnBuilt(mode, recs, key, t, Mmap.SlotReader(f, offs[b]), Mmap.ValueLooker(f, key));
    }
  }

  /**
   * Get of the memory-mapped reader on the file built from recs returns
   * the value of the earliest record with the key, and nil for a key
   * never put.
   */
  lemma MmapGetAfterBuild(mode: EmptyTest, recs: seq<Pair>, key: seq<Byte>)
    requires PutAll(NewWriter(), recs).Success? && Findable(mode, key)
    ensures Build(mode, recs).Success? && Mmap.Open(Build(mode, recs).value).Success?
    ensures Mmap.Get(mode, Mmap.Open(Build(mode, recs).value).value, key) == Success(Lookup(recs, key))
  {
    var offs := BuiltReadable(mode, recs);
    MmapGetReadable(mode, recs, Build(mode, recs).value, offs, key);
  }

  /**
   * Findable cannot be dropped: with the hash-0 emptiness test, Get of the
   * memory-mapped reader on a Readable file returns nil for every key that
   * hashes to 0, whether or not it was put.
   */
  lemma MmapGetZeroHashReadable(recs: seq<Pair>, f: seq<Byte>, offs: seq<nat>, key: seq<Byte>)
    requires Readable(ZeroHash, recs, f, offs) && CdbHash(key) == 0
    ensures Mmap.Open(f).Success?
    ensures Mmap.Get(ZeroHash, Mmap.Open(f).value, key) == Success(None)
  {
    MmapIndex(ZeroHash, recs, f, offs);
    var b := Bucket(0);
    if |EntriesOf(recs, b)| > 0 {
      MmapSlots(ZeroHash, recs, f, offs, b);
      var t := BuildTable(ZeroHash, EntriesOf(recs, b)).value;
      WalkZeroHash(t, Mmap.SlotReader(f, offs[b]), Mmap.ValueLooker(f, key));
    }
  }

  /** The same on the file built from recs. */
  lemma MmapGetZeroHashAfterBuild(recs: seq<Pair>, key: seq<Byte>)
    requires PutAll(NewWriter(), recs).Success? && CdbHash(key) == 0
    ensures Build(ZeroHash, recs).Success? && Mmap.Open(Build(ZeroHash, recs).value).Success?
    ensures Mmap.Get(ZeroHash, Mmap.Open(Build(ZeroHash, recs).value).value, key) == Success(None)
  {
    var offs := BuiltReadable(ZeroHash, recs);
    MmapGetZeroHashReadable(recs, Build(ZeroHash, recs).value, offs, key);
  }

  // ---- The 64-bit ReaderAt reader ----

  /** The index New64 decodes is the header doFinalize wrote. */
  lemma ReaderIndex(mode: EmptyTest, recs: seq<Pair>, f: seq<Byte>, offs: seq<nat>)
    requires Readable(mode, recs, f, offs)
    ensures Reader.New(W64, f).Success?
    ensures forall b :: 0 <= b < Buckets ==>
      Reader.New(W64, f).value.index[b] == Table(offs[b], 2 * |EntriesOf(recs, b)|)
  {
    Reader.ReadIndexEntry(W64, f, 0);
    assert W64.WordBytes() == 8;
    forall b | 0 <= b < Buckets
      ensures Reader.New(W64, f).value.index[b] == Table(offs[b], 2 * |EntriesOf(recs, b)|)
    {
      assert HeaderReads(f, b, offs[b], 2 * |EntriesOf(recs, b)|);
      Reader.ReadIndexEntry(W64, f, b);
    }
  }

  /** The 64-bit slot reader returns the slots of the table doFinalize built. */
  lemma ReaderSlots(mode: EmptyTest, recs: seq<Pair>, f: seq<Byte>, offs: seq<nat>, b: nat)
    requires Readable(mode, recs, f, offs) && b < Buckets && |EntriesOf(recs, b)| > 0
    ensures BuildTable(mode, EntriesOf(recs, b)).Some?
    ensures var t := BuildTable(mode, EntriesOf(recs, b)).value;
      forall s :: 0 <= s < |t| ==> Reader.SlotReader(W64, f, offs[b])(s) == Success(t[s])
  {
    var es := EntriesOf(recs, b);
    assert TableReads(mode, f, offs[b], es);
    var t := BuildTable(mode, es).value;
    Pow256Widths();
    forall s | 0 <= s < |t|
      ensures Reader.SlotReader(W64, f, offs[b])(s) == Success(t[s])
    {
      assert SlotReads(f, offs[b], s, t[s]);
    }
  }

  /** getValueAt of the 64-bit reader at the offset of record i answers for that record. */
  lemma ReaderLooks(mode: EmptyTest, recs: seq<Pair>, f: seq<Byte>, offs: seq<nat>, key: seq<Byte>)
    requires Readable(mode, recs, f, offs)
    ensures forall i :: 0 <= i < |recs| ==>
      Reader.ValueLooker(W64, f, key)(OffsetOf(recs, i)) == Success(if key == recs[i].0 then Some(recs[i].1) else None)
  {
    Pow256Widths();
    forall i | 0 <= i < |recs|
      ensures Reader.ValueLooker(W64, f, key)(OffsetOf(recs, i)) == Success(if key == recs[i].0 then Some(recs[i].1) else None)
    {
      assert RecordAt(W64, f, OffsetOf(recs, i), recs[i].0, recs[i].1);
      Reader.GetValueAtAt(W64, f, OffsetOf(recs, i), key, recs[i].0, recs[i].1);
    }
  }

  /** Get of the 64-bit reader on a Readable file is Lookup. */
  lemma ReaderGetReadable(mode: EmptyTest, recs: seq<Pair>, f: seq<Byte>, offs: seq<nat>, key: seq<Byte>)
    requires Readable(mode, recs, f, offs) && Findable(mode, key)
    ensures Reader.New(W64, f).Success?
    ensures Reader.Get(mode, Reader.New(W64, f).value, key) == Success(Lookup(recs, key))
  {
    ReaderIndex(mode, recs, f, offs);
    var b := Bucket(CdbHash(key));
    if |EntriesOf(recs, b)| == 0 {
      LookupEmptyBucket(recs, key);
    } else {
      ReaderSlots(mode, recs, f, offs, b);
      ReaderLooks(mode, recs, f, offs, key);
      var t := BuildTable(mode, EntriesOf(recs, b)).value;
      WalkOnBuilt(mode, recs, key, t, Reader.SlotReader(W64, f, offs[b]), Reader.ValueLooker(W64, f, key));
    }
  }

  /**
   * Get of the 64-bit ReaderAt reader on the file built from recs returns
   * the value of the earliest record with the key, and nil for a key
   * never put.
   */
  lemma ReaderGetAfterBuild(mode: EmptyTest, recs: seq<Pair>, key: seq<Byte>)
    requires PutAll(NewWriter(), recs).Success? && Findable(mode, key)
    ensures Build(mode, recs).Success? && Reader.New(W64, Build(mode, recs).value).Success?
    ensures Reader.Get(mode, Reader.New(W64, Build(mode, recs).value).value, key) == Success(Lookup(recs, key))
  {
    var offs := BuiltReadable(mode, recs);
    ReaderGetReadable(mode, recs, Build(mode, recs).value, offs, key);
  }

  /**
   * Findable cannot be dropped for the 64-bit reader either: with the
   * hash-0 emptiness test its Get returns nil for every key that hashes
   * to 0.
   */
  lemma ReaderGetZeroHashReadable(recs: seq<Pair>, f: seq<Byte>, offs: seq<nat>, key: seq<Byte>)
    requires Readable(ZeroHash, recs, f, offs) && CdbHash(key) == 0
    ensures Reader.New(W64, f).Success?
    ensures Reader.Get(ZeroHash, Reader.New(W64, f).value, key) == Success(None)
  {
    ReaderIndex(ZeroHash, recs, f, offs);
    var b := Bucket(0);
    if |EntriesOf(recs, b)| > 0 {
      ReaderSlots(ZeroHash, recs, f, offs, b);
      var t := BuildTable(ZeroHash, EntriesOf(recs, b)).value;
      WalkZeroHash(t, Reader.SlotReader(W64, f, offs[b]), Reader.ValueLooker(W64, f, key));
    }
  }

  /** The same on the file built from recs. */
  lemma ReaderGetZeroHashAfterBuild(recs: seq<Pair>, key: seq<Byte>)
    requires PutAll(NewWriter(), recs).Success? && CdbHash(key) == 0
    ensures Build(ZeroHash, recs).Success? && Reader.New(W64, Build(ZeroHash, recs).value).Success?
    ensures Reader.Get(ZeroHash, Reader.New(W64, Build(ZeroHash, recs).value).value, key) == Success(None)
  {
    var offs := BuiltReadable(ZeroHash, recs);
    ReaderGetZeroHashReadable(recs, Build(ZeroHash, recs).value, offs, key);
  }
}
