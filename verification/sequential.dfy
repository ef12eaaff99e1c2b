/**
 * Reading the records of a finished file in order. All, Keys and Values of
 * the memory-mapped reader, and the sequential iterator over the 64-bit
 * ReaderAt reader when it stops where the tables start, see exactly the
 * records Put wrote, in Put order and with duplicates kept. The iterator
 * as written stops at the table offset of bucket 0, which is the end of
 * the records only when bucket 0 has entries (or there are no records).
 */
module Sequential {
  import opened Wrappers
  import opened Bytes
  import opened GoInt
  import opened Tuple
  import opened ProbeTable
  import opened Writer
  import opened Layout
  import opened Finished
  import Mmap
  import Reader
  import Iterators
  import RoundTrip

  /** An index holding, for each bucket, the offset of its table and twice its entry count. */
  ghost predicate IndexOf(recs: seq<Pair>, offs: seq<nat>, index: seq<Table>)
    requires |offs| == Buckets
  {
    |index| == Buckets && forall b :: 0 <= b < Buckets ==> index[b] == Table(offs[b], 2 * |EntriesOf(recs, b)|)
  }

  /** The scan bound of All (the smallest offset of a non-empty table) is where the records end. */
  lemma TablesStartAtEnd(recs: seq<Pair>, f: seq<Byte>, offs: seq<nat>, index: seq<Table>)
    requires |offs| == Buckets && RecordsEnd(recs, f, offs) && IndexOf(recs, offs, index)
    ensures MinTableOffset(index, 0, |f|) == OffsetOf(recs, |recs|)
  {
    var end := OffsetOf(recs, |recs|);
    var r := MinTableOffset(index, 0, |f|);
    if r != |f| {
      var j :| 0 <= j < |index| && index[j].length > 0 && index[j].offset == r;
      assert |EntriesOf(recs, j)| > 0;
    }
    if |recs| > 0 {
      var c :| 0 <= c < Buckets && |EntriesOf(recs, c)| > 0 && offs[c] == end;
      assert index[c].length > 0;
    }
  }

  /** The records of recs, from the first on, lie back to back from the end of the header. */
  lemma RecordsFromHeader(mode: EmptyTest, recs: seq<Pair>, f: seq<Byte>, offs: seq<nat>)
    requires Readable(mode, recs, f, offs)
    ensures Contiguous(W64, f, IndexSize, OffsetOf(recs, |recs|), recs)
  {
    FileContiguous(recs, f, 0);
    assert recs[..0] == [] && recs[0..] == recs;
  }

  /**
   * What the sequential readers need of a Readable file: both readers
   * decode its header, and the records lie back to back from the end of
   * the header up to the first table.
   */
  lemma InOrder(mode: EmptyTest, recs: seq<Pair>, f: seq<Byte>, offs: seq<nat>)
    requires Readable(mode, recs, f, offs) && RecordsEnd(recs, f, offs)
    ensures Mmap.Open(f).Success? && IndexOf(recs, offs, Mmap.Open(f).value.index)
    ensures Reader.New(W64, f).Success? && IndexOf(recs, offs, Reader.New(W64, f).value.index)
    ensures Contiguous(W64, f, IndexSize, OffsetOf(recs, |recs|), recs)
  {
    RoundTrip.MmapIndex(mode, recs, f, offs);
    RoundTrip.ReaderIndex(mode, recs, f, offs);
    RecordsFromHeader(mode, recs, f, offs);
  }

  /** The file Build returns is laid out as InOrder says. */
  lemma BuiltInOrder(mode: EmptyTest, recs: seq<Pair>) returns (offs: seq<nat>)
    requires PutAll(NewWriter(), recs).Success?
    ensures Build(mode, recs).Success?
    ensures var f := Build(mode, recs).value;
      && IndexSize <= |f| <= MaxInt64 && |offs| == Buckets && RecordsEnd(recs, f, offs)
      && Mmap.Open(f).Success? && IndexOf(recs, offs, Mmap.Open(f).value.index)
      && Reader.New(W64, f).Success? && IndexOf(recs, offs, Reader.New(W64, f).value.index)
      && Contiguous(W64, f, IndexSize, OffsetOf(recs, |recs|), recs)
  {
    offs := BuiltReadable(mode, recs);
    InOrder(mode, recs, Build(mode, recs).value, offs);
  }

  /** All over a file whose index and records are laid out as Build lays them out: every record, in order. */
  lemma AllOfLayout(recs: seq<Pair>, f: seq<Byte>, offs: seq<nat>)
    requires Mmap.IndexSize <= |f| <= MaxInt64 && |offs| == Buckets && RecordsEnd(recs, f, offs)
    requires IndexOf(recs, offs, Mmap.Open(f).value.index)
    requires Contiguous(W64, f, IndexSize, OffsetOf(recs, |recs|), recs)
    ensures Mmap.All(Mmap.Open(f).value) == Success(recs)
  {
    TablesStartAtEnd(recs, f, offs, Mmap.Open(f).value.index);
    Mmap.ScanComplete(f, Mmap.IndexSize, OffsetOf(recs, |recs|), recs);
  }

  /** All on the file Build returns: every record, in Put order. */
  lemma AllAfterBuild(mode: EmptyTest, recs: seq<Pair>)
    requires PutAll(NewWriter(), recs).Success?
    ensures Build(mode, recs).Success? && Mmap.Open(Build(mode, recs).value).Success?
    ensures Mmap.All(Mmap.Open(Build(mode, recs).value).value) == Success(recs)
  {
    var offs := BuiltInOrder(mode, recs);
    var f := Build(mode, recs).value;
    AllOfLayout(recs, f, offs);
  }

  /** Keys on the file Build returns: the key of every record, in Put order. */
  lemma KeysAfterBuild(mode: EmptyTest, recs: seq<Pair>)
    requires PutAll(NewWriter(), recs).Success?
    ensures Build(mode, recs).Success? && Mmap.Open(Build(mode, recs).value).Success?
    ensures var r := Mmap.Keys(Mmap.Open(Build(mode, recs).value).value);
      r.Success? && |r.value| == |recs| && forall i :: 0 <= i < |recs| ==> r.value[i] == recs[i].0
  {
    AllAfterBuild(mode, recs);
  }

  /** Values on the file Build returns: the value of every record, in Put order. */
  lemma ValuesAfterBuild(mode: EmptyTest, recs: seq<Pair>)
    requires PutAll(NewWriter(), recs).Success?
    ensures Build(mode, recs).Success? && Mmap.Open(Build(mode, recs).value).Success?
    ensures var r := Mmap.Values(Mmap.Open(Build(mode, recs).value).value);
      r.Success? && |r.value| == |recs| && forall i :: 0 <= i < |recs| ==> r.value[i] == recs[i].1
  {
    AllAfterBuild(mode, recs);
  }

  /** The iterator bounded by the first table, over a file laid out as Build lays it out: every record, in order. */
  lemma IterToTablesOfLayout(recs: seq<Pair>, f: seq<Byte>, offs: seq<nat>)
    requires W64.IndexBytes() <= |f| <= MaxInt64 && |offs| == Buckets && RecordsEnd(recs, f, offs)
    requires IndexOf(recs, offs, Reader.New(W64, f).value.index)
    requires Contiguous(W64, f, IndexSize, OffsetOf(recs, |recs|), recs)
    ensures var r := Iterators.Collect(Iterators.IterToTables(Reader.New(W64, f).value));
      r.Success? && r.value.0 == recs
  {
    var db := Reader.New(W64, f).value;
    Pow256Widths();
    TablesStartAtEnd(recs, f, offs, db.index);
    var it := Iterators.IterToTables(db);
    assert it.pos == IndexSize && it.endPos == OffsetOf(recs, |recs|);
    Iterators.CollectComplete(it, recs);
  }

  /** The iterator bounded by the first table, over New64 of the built file, sees every record in order. */
  lemma IterToTablesAfterBuild(mode: EmptyTest, recs: seq<Pair>)
    requires PutAll(NewWriter(), recs).Success?
    ensures Build(mode, recs).Success? && Reader.New(W64, Build(mode, recs).value).Success?
    ensures var db := Reader.New(W64, Build(mode, recs).value).value;
      |db.data| < db.w.Limit() &&
      var r := Iterators.Collect(Iterators.IterToTables(db));
      r.Success? && r.value.0 == recs
  {
    var offs := BuiltInOrder(mode, recs);
    var f := Build(mode, recs).value;
    IterToTablesOfLayout(recs, f, offs);
  }

  /** The iterator as written, over a file laid out as Build lays it out and whose bucket 0 has entries. */
  lemma IterOfLayout(recs: seq<Pair>, f: seq<Byte>, offs: seq<nat>)
    requires W64.IndexBytes() <= |f| <= MaxInt64 && |offs| == Buckets && RecordsEnd(recs, f, offs)
    requires IndexOf(recs, offs, Reader.New(W64, f).value.index)
    requires Contiguous(W64, f, IndexSize, OffsetOf(recs, |recs|), recs)
    requires |recs| == 0 || |EntriesOf(recs, 0)| > 0
    ensures var r := Iterators.Collect(Iterators.Iter(Reader.New(W64, f).value));
      r.Success? && r.value.0 == recs
  {
    var db := Reader.New(W64, f).value;
    Pow256Widths();
    var it := Iterators.Iter(db);
    if |recs| == 0 {
      assert it.pos >= it.endPos;
    } else {
      assert it.pos == IndexSize && it.endPos == OffsetOf(recs, |recs|);
      Iterators.CollectComplete(it, recs);
    }
  }

  /**
   * The iterator as written (Iterator64 from New64), over the built file:
   * every record in order, provided bucket 0 has an entry or there are no
   * records at all.
   */
  lemma IterAfterBuild(mode: EmptyTest, recs: seq<Pair>)
    requires PutAll(NewWriter(), recs).Success?
    requires |recs| == 0 || |EntriesOf(recs, 0)| > 0
    ensures Build(mode, recs).Success? && Reader.New(W64, Build(mode, recs).value).Success?
    ensures var db := Reader.New(W64, Build(mode, recs).value).value;
      |db.data| < db.w.Limit() &&
      var r := Iterators.Collect(Iterators.Iter(db));
      r.Success? && r.value.0 == recs
  {
    var offs := BuiltInOrder(mode, recs);
    var f := Build(mode, recs).value;
    IterOfLayout(recs, f, offs);
  }

  /**
   * The iterator as written, over a built file whose bucket 0 is empty:
   * the end position is the 0 recorded for that bucket, so the loop stops
   * before the first record.
   */
  lemma IterEmptyBucketZero(mode: EmptyTest, recs: seq<Pair>)
    requires PutAll(NewWriter(), recs).Success?
    requires |EntriesOf(recs, 0)| == 0
    ensures Build(mode, recs).Success? && Reader.New(W64, Build(mode, recs).value).Success?
    ensures var db := Reader.New(W64, Build(mode, recs).value).value;
      |db.data| < db.w.Limit() &&
      Iterators.Collect(Iterators.Iter(db)) == Success(([], Iterators.Iter(db)))
  {
    var offs := BuiltInOrder(mode, recs);
  }
}
