/**
 * The bytes of a finished database: where the Writer's header, records and
 * tables end up in the file Build returns, and what a reader decodes from
 * them. Readable collects what the readers rely on.
 */
module Finished {
  import opened Wrappers
  import opened Bytes
  import opened GoInt
  import opened GoIO
  import opened Hash
  import opened Tuple
  import opened ProbeTable
  import opened ProbeWalk
  import opened Writer
  import opened Layout


  /** The pieces of a finished database F: header, records, tables. */
  ghost predicate Laid(mode: EmptyTest, recs: seq<Pair>, f: seq<Byte>, w: Writer, bytes: seq<Byte>, offs: seq<nat>)
  {
    && Valid(w) && Shaped(w, recs)
    && TablesSpan(mode, w.entries, |w.file|, bytes, offs)
    && f == Header(offs, w.entries) + Data(recs) + bytes
    && |f| <= MaxInt64
  }

  /** Build lays out its file as Laid says. */
  lemma BuiltFile(mode: EmptyTest, recs: seq<Pair>) returns (w: Writer, bytes: seq<Byte>, offs: seq<nat>)
    requires PutAll(NewWriter(), recs).Success?
    ensures Build(mode, recs).Success?
    ensures Laid(mode, recs, Build(mode, recs).value, w, bytes, offs)
  {
    w, bytes, offs := BuildLayout(mode, recs);
  }

  /** A record written into a byte string reads back at its offset. */
  lemma RecordAtConcat(p: seq<Byte>, k: seq<Byte>, v: seq<Byte>, s: seq<Byte>)
    requires |p| + 16 + |k| + |v| + |s| <= MaxInt64
    ensures RecordAt(W64, p + Record(k, v) + s, |p|, k, v)
  {
    RecordParts(EncodeLE(|k|, 8), EncodeLE(|v|, 8), k, v);
    RecordAtMiddle(p + Record(k, v) + s, p, Record(k, v), s, k, v);
  }

  /** The four fields of a record's bytes. */
  lemma RecordParts(e1: seq<Byte>, e2: seq<Byte>, k: seq<Byte>, v: seq<Byte>)
    requires |e1| == 8 && |e2| == 8
    ensures var rec := e1 + e2 + k + v;
      && rec[0..8] == e1 && rec[8..16] == e2
      && rec[16..16 + |k|] == k && rec[16 + |k|..16 + |k| + |v|] == v
  {
  }

  /** Bytes laid out as a record, between p and s, read back as that record. */
  lemma RecordAtMiddle(data: seq<Byte>, p: seq<Byte>, rec: seq<Byte>, s: seq<Byte>, k: seq<Byte>, v: seq<Byte>)
    requires data == p + rec + s && |data| <= MaxInt64 && |rec| == 16 + |k| + |v|
    requires rec[0..8] == EncodeLE(|k|, 8) && rec[8..16] == EncodeLE(|v|, 8)
    requires rec[16..16 + |k|] == k && rec[16 + |k|..16 + |k| + |v|] == v
    ensures RecordAt(W64, data, |p|, k, v)
  {
    var e1, e2 := EncodeLE(|k|, 8), EncodeLE(|v|, 8);
    MiddleFields(data, p, rec, s, e1, e2, k, v);
    assert |k| < Pow256(8) && |v| < Pow256(8) by { Pow256Widths(); }
    DecodesTo(e1, |k|, 8);
    DecodesTo(e2, |v|, 8);
    RecordDecodes(data, |p|, k, v, e1, e2);
  }

  /** The four fields of a record between p and s, at their places in the whole. */
  lemma MiddleFields(data: seq<Byte>, p: seq<Byte>, rec: seq<Byte>, s: seq<Byte>,
                     e1: seq<Byte>, e2: seq<Byte>, k: seq<Byte>, v: seq<Byte>)
    requires data == p + rec + s && |rec| == 16 + |k| + |v|
    requires rec[0..8] == e1 && rec[8..16] == e2
    requires rec[16..16 + |k|] == k && rec[16 + |k|..16 + |k| + |v|] == v
    ensures var o := |p|;
      && o + 16 + |k| + |v| <= |data|
      && data[o..o + 8] == e1 && data[o + 8..o + 16] == e2
      && data[o + 16..o + 16 + |k|] == k && data[o + 16 + |k|..o + 16 + |k| + |v|] == v
  {
    SliceOfMiddle(p, rec, s, 0, 8);
    SliceOfMiddle(p, rec, s, 8, 16);
    SliceOfMiddle(p, rec, s, 16, 16 + |k|);
    SliceOfMiddle(p, rec, s, 16 + |k|, 16 + |k| + |v|);
  }

  /** Two lengths that decode to |k| and |v|, followed by the key and the value: a record. */
  lemma RecordDecodes(data: seq<Byte>, o: nat, k: seq<Byte>, v: seq<Byte>, e1: seq<Byte>, e2: seq<Byte>)
    requires o + 16 + |k| + |v| <= |data|
    requires data[o..o + 8] == e1 && data[o + 8..o + 16] == e2
    requires DecodeLE(e1) == |k| && DecodeLE(e2) == |v|
    requires data[o + 16..o + 16 + |k|] == k && data[o + 16 + |k|..o + 16 + |k| + |v|] == v
    ensures RecordAt(W64, data, o, k, v)
  {
    assert W64.WordBytes() == 8;
  }

  /** Record i of recs is at OffsetOf(recs, i) in the finished file. */
  lemma FileRecord(mode: EmptyTest, recs: seq<Pair>, f: seq<Byte>, w: Writer, bytes: seq<Byte>, offs: seq<nat>, i: nat)
    requires Laid(mode, recs, f, w, bytes, offs) && i < |recs|
    ensures RecordAt(W64, f, OffsetOf(recs, i), recs[i].0, recs[i].1)
  {
    RecordInData(Header(offs, w.entries), recs, bytes, i);
  }

  /** Record i sits after the header and the records before it. */
  lemma RecordInData(h: seq<Byte>, recs: seq<Pair>, bytes: seq<Byte>, i: nat)
    requires |h| == IndexSize && i < |recs|
    requires |h + Data(recs) + bytes| <= MaxInt64
    ensures RecordAt(W64, h + Data(recs) + bytes, OffsetOf(recs, i), recs[i].0, recs[i].1)
  {
    var tail := DataSplit(recs, i);
    var k, v := recs[i].0, recs[i].1;
    RecordParts(EncodeLE(|k|, 8), EncodeLE(|v|, 8), k, v);
    RecordInSplit(h, Data(recs), bytes, Data(recs[..i]), Record(k, v), tail, OffsetOf(recs, i), k, v);
  }

  /** A record inside the data part d of h + d + bytes, after the bytes d1. */
  lemma RecordInSplit(h: seq<Byte>, d: seq<Byte>, bytes: seq<Byte>, d1: seq<Byte>, rec: seq<Byte>,
                      tail: seq<Byte>, off: nat, k: seq<Byte>, v: seq<Byte>)
    requires d == d1 + rec + tail && off == |h| + |d1| && |h + d + bytes| <= MaxInt64
    requires |rec| == 16 + |k| + |v|
    requires rec[0..8] == EncodeLE(|k|, 8) && rec[8..16] == EncodeLE(|v|, 8)
    requires rec[16..16 + |k|] == k && rec[16 + |k|..16 + |k| + |v|] == v
    ensures RecordAt(W64, h + d + bytes, off, k, v)
  {
    Regroup(h, d, bytes, d1, rec, tail);
    RecordAtMiddle(h + d + bytes, h + d1, rec, tail + bytes, k, v);
    assert |h + d1| == off;
  }

  /** Bytes 16b..16b+16 of the finished file: the offset and slot count of bucket b. */
  lemma FileHeader(mode: EmptyTest, recs: seq<Pair>, f: seq<Byte>, w: Writer, bytes: seq<Byte>, offs: seq<nat>, b: nat)
    requires Laid(mode, recs, f, w, bytes, offs) && b < Buckets
    ensures HeaderReads(f, b, offs[b], 2 * |w.entries[b]|)
  {
    HeaderAt(offs, w.entries, b);
    TableOffsetBound(mode, recs, f, w, bytes, offs, b);
    HeaderInFile(Header(offs, w.entries), Data(recs), bytes, b, EncodeLE(offs[b], 8), EncodeLE(2 * |w.entries[b]|, 8));
    HeaderDecodes(f, b, offs[b], 2 * |w.entries[b]|);
  }

  /** A header entry keeps its bytes when data and tables are appended after the header. */
  lemma HeaderInFile(h: seq<Byte>, d: seq<Byte>, bytes: seq<Byte>, b: nat, x1: seq<Byte>, x2: seq<Byte>)
    requires 16 * b + 16 <= |h|
    requires h[16 * b..16 * b + 8] == x1 && h[16 * b + 8..16 * b + 16] == x2
    ensures (h + d + bytes)[16 * b..16 * b + 8] == x1
    ensures (h + d + bytes)[16 * b + 8..16 * b + 16] == x2
  {
    var rest := d + bytes;
    assert h + d + bytes == h + rest;
    SliceOfPrefix(h, rest, 16 * b, 8, x1);
    SliceOfPrefix(h, rest, 16 * b + 8, 8, x2);
  }

  /** The two little-endian uint64 fields of header entry b decode to o and n. */
  lemma HeaderDecodes(f: seq<Byte>, b: nat, o: nat, n: nat)
    requires 16 * b + 16 <= |f| && o < TwoTo64 && n < TwoTo64
    requires f[16 * b..16 * b + 8] == EncodeLE(o, 8) && f[16 * b + 8..16 * b + 16] == EncodeLE(n, 8)
    ensures HeaderReads(f, b, o, n)
  {
    Pow256Widths();
    DecodesTo(f[16 * b..16 * b + 8], o, 8);
    DecodesTo(f[16 * b + 8..16 * b + 16], n, 8);
  }

  /** Table offsets and slot counts stay inside the file. */
  lemma TableOffsetBound(mode: EmptyTest, recs: seq<Pair>, f: seq<Byte>, w: Writer, bytes: seq<Byte>, offs: seq<nat>, b: nat)
    requires Laid(mode, recs, f, w, bytes, offs) && b < Buckets
    ensures offs[b] + 32 * |w.entries[b]| <= |f|
    ensures |w.entries[b]| > 0 ==> |w.file| <= offs[b]
  {
    assert TableIn(mode, w.entries[b], |w.file|, bytes, offs[b]);
  }

  /**
   * Slot s of the table of a non-empty bucket b sits, as a (hash, offset)
   * uint64 pair, at offs[b] + 16·s.
   */
  lemma FileSlot(mode: EmptyTest, recs: seq<Pair>, f: seq<Byte>, w: Writer, bytes: seq<Byte>, offs: seq<nat>, b: nat, s: nat)
    requires Laid(mode, recs, f, w, bytes, offs) && b < Buckets && |w.entries[b]| > 0
    requires s < 2 * |w.entries[b]|
    ensures BuildTable(mode, w.entries[b]).Some? && |BuildTable(mode, w.entries[b]).value| == 2 * |w.entries[b]|
    ensures SlotReads(f, offs[b], s, BuildTable(mode, w.entries[b]).value[s])
  {
    var es := w.entries[b];
    NeverFull(mode, es);
    var t := BuildTable(mode, es).value;
    assert TableIn(mode, es, |w.file|, bytes, offs[b]);
    SlotBound(mode, w, b, s);
    SliceOfSuffix(Header(offs, w.entries) + Data(recs), bytes, offs[b], 16 * |t|, TableBytes(t));
    SlotInFile(f, offs[b], t, s);
  }

  /** A slot of a table laid at o decodes to its hash and offset. */
  lemma SlotInFile(f: seq<Byte>, o: nat, t: seq<Slot>, s: nat)
    requires o + 16 * |t| <= |f| && f[o..o + 16 * |t|] == TableBytes(t)
    requires s < |t| && t[s].hash < TwoTo64 && t[s].offset < TwoTo64
    ensures SlotReads(f, o, s, t[s])
  {
    TableSlotBytes(f, o, t, s);
    SlotDecodes(f, o, s, t[s]);
  }

  /** A slot's two little-endian uint64 fields decode to its hash and offset. */
  lemma SlotDecodes(f: seq<Byte>, o: nat, s: nat, slot: Slot)
    requires o + 16 * s + 16 <= |f| && slot.hash < TwoTo64 && slot.offset < TwoTo64
    requires f[o + 16 * s..o + 16 * s + 8] == EncodeLE(slot.hash, 8)
    requires f[o + 16 * s + 8..o + 16 * s + 16] == EncodeLE(slot.offset, 8)
    ensures SlotReads(f, o, s, slot)
  {
    Pow256Widths();
    DecodesTo(f[o + 16 * s..o + 16 * s + 8], slot.hash, 8);
    DecodesTo(f[o + 16 * s + 8..o + 16 * s + 16], slot.offset, 8);
  }

  /** Slot s of a table written at o: its hash and offset as little-endian uint64. */
  lemma TableSlotBytes(f: seq<Byte>, o: nat, t: seq<Slot>, s: nat)
    requires o + 16 * |t| <= |f| && f[o..o + 16 * |t|] == TableBytes(t) && s < |t|
    ensures f[o + 16 * s..o + 16 * s + 8] == EncodeLE(t[s].hash, 8)
    ensures f[o + 16 * s + 8..o + 16 * s + 16] == EncodeLE(t[s].offset, 8)
  {
    TableBytesAt(t, s);
    SlotPair(f, o, TableBytes(t), s, t[s].hash, t[s].offset);
  }

  /** The pair written at 16·s inside bytes x that sit at o in f. */
  lemma SlotPair(f: seq<Byte>, o: nat, x: seq<Byte>, s: nat, a: nat, b: nat)
    requires o + |x| <= |f| && f[o..o + |x|] == x && 16 * s + 16 <= |x|
    requires x[16 * s..16 * s + 16] == WriteTuple64(a, b)
    ensures f[o + 16 * s..o + 16 * s + 8] == EncodeLE(a, 8)
    ensures f[o + 16 * s + 8..o + 16 * s + 16] == EncodeLE(b, 8)
  {
    PairAt(f, o, |x|, x, 16 * s, EncodeLE(a, 8), EncodeLE(b, 8));
  }

  /** The two halves of a 16-byte pair found inside a slice of f. */
  lemma PairAt(f: seq<Byte>, o: nat, n: nat, x: seq<Byte>, i: nat, e1: seq<Byte>, e2: seq<Byte>)
    requires o + n <= |f| && f[o..o + n] == x && i + 16 <= n
    requires |e1| == 8 && |e2| == 8 && x[i..i + 16] == e1 + e2
    ensures f[o + i..o + i + 8] == e1 && f[o + i + 8..o + i + 16] == e2
  {
    SliceOfSlice(f, o, n, x, i, 16);
    SliceOfSlice(f, o + i, 16, e1 + e2, 0, 8);
    SliceOfSlice(f, o + i, 16, e1 + e2, 8, 8);
    assert (e1 + e2)[0..8] == e1;
    assert (e1 + e2)[8..16] == e2;
  }

  /**
   * Every slot of a bucket's table is (0, 0) or an entry of the bucket:
   * its hash is below 2^32 and its offset inside the records.
   */
  lemma SlotBound(mode: EmptyTest, w: Writer, b: nat, s: nat)
    requires Valid(w) && b < Buckets
    requires BuildTable(mode, w.entries[b]).Some? && s < |BuildTable(mode, w.entries[b]).value|
    ensures var t := BuildTable(mode, w.entries[b]).value;
      t[s].hash < TwoTo32 && t[s].offset < |w.file|
  {
    var es := w.entries[b];
    var t := BuildTable(mode, es).value;
    PlaceFromContents(mode, seq(2 * |es|, _ => EmptySlot), es, es);
    if t[s] != EmptySlot {
      var j :| 0 <= j < |es| && es[j] == t[s];
    }
  }

  // ---- What a reader sees ----

  /** Entry b of the header decodes to the table offset o and the slot count n. */
  ghost predicate HeaderReads(f: seq<Byte>, b: nat, o: nat, n: nat)
  {
    && 16 * b + 16 <= |f|
    && DecodeLE(f[16 * b..16 * b + 8]) == o
    && DecodeLE(f[16 * b + 8..16 * b + 16]) == n
  }

  /** Slot s of the table at o decodes to slot. */
  ghost predicate SlotReads(f: seq<Byte>, o: nat, s: nat, slot: Slot)
  {
    && o + 16 * s + 16 <= |f|
    && DecodeLE(f[o + 16 * s..o + 16 * s + 8]) == slot.hash
    && DecodeLE(f[o + 16 * s + 8..o + 16 * s + 16]) == slot.offset
  }

  /** A non-empty bucket's table, as doFinalize builds it, decodes slot by slot at o. */
  ghost predicate TableReads(mode: EmptyTest, f: seq<Byte>, o: nat, es: seq<Slot>)
  {
    |es| > 0 ==>
      && BuildTable(mode, es).Some? && |BuildTable(mode, es).value| == 2 * |es|
      && forall s :: 0 <= s < 2 * |es| ==> SlotReads(f, o, s, BuildTable(mode, es).value[s])
  }

  /**
   * The file f built from recs, with table offsets offs, as a reader sees
   * it: a header long enough to read, each bucket's offset and slot count
   * in the header, each table's slots where the header points, and every
   * record at its offset.
   */
  ghost predicate Readable(mode: EmptyTest, recs: seq<Pair>, f: seq<Byte>, offs: seq<nat>)
  {
    && IndexSize <= |f| <= MaxInt64 && |offs| == Buckets
    && (forall b :: 0 <= b < Buckets ==> HeaderReads(f, b, offs[b], 2 * |EntriesOf(recs, b)|))
    && (forall b :: 0 <= b < Buckets ==> TableReads(mode, f, offs[b], EntriesOf(recs, b)))
    && (forall i :: 0 <= i < |recs| ==> RecordAt(W64, f, OffsetOf(recs, i), recs[i].0, recs[i].1))
  }

  /** Every header entry of a laid-out file reads back. */
  lemma ReadableHeaders(mode: EmptyTest, recs: seq<Pair>, f: seq<Byte>, w: Writer, bytes: seq<Byte>, offs: seq<nat>)
    requires Laid(mode, recs, f, w, bytes, offs)
    ensures forall b :: 0 <= b < Buckets ==> HeaderReads(f, b, offs[b], 2 * |EntriesOf(recs, b)|)
  {
    forall b | 0 <= b < Buckets
      ensures HeaderReads(f, b, offs[b], 2 * |EntriesOf(recs, b)|)
    {
      FileHeader(mode, recs, f, w, bytes, offs, b);
    }
  }

  /** Every table of a laid-out file reads back. */
  lemma ReadableTables(mode: EmptyTest, recs: seq<Pair>, f: seq<Byte>, w: Writer, bytes: seq<Byte>, offs: seq<nat>)
    requires Laid(mode, recs, f, w, bytes, offs)
    ensures forall b :: 0 <= b < Buckets ==> TableReads(mode, f, offs[b], EntriesOf(recs, b))
  {
    forall b | 0 <= b < Buckets
      ensures TableReads(mode, f, offs[b], EntriesOf(recs, b))
    {
      FileTable(mode, recs, f, w, bytes, offs, b);
    }
  }

  /** The table of bucket b reads back at offs[b]. */
  lemma FileTable(mode: EmptyTest, recs: seq<Pair>, f: seq<Byte>, w: Writer, bytes: seq<Byte>, offs: seq<nat>, b: nat)
    requires Laid(mode, recs, f, w, bytes, offs) && b < Buckets
    ensures TableReads(mode, f, offs[b], w.entries[b])
    ensures w.entries[b] == EntriesOf(recs, b)
  {
    var es := w.entries[b];
    if |es| > 0 {
      FileSlot(mode, recs, f, w, bytes, offs, b, 0);
      forall s | 0 <= s < 2 * |es|
        ensures SlotReads(f, offs[b], s, BuildTable(mode, es).value[s])
      {
        FileSlot(mode, recs, f, w, bytes, offs, b, s);
      }
    }
  }

  /** Every record of a laid-out file reads back. */
  lemma ReadableRecords(mode: EmptyTest, recs: seq<Pair>, f: seq<Byte>, w: Writer, bytes: seq<Byte>, offs: seq<nat>)
    requires Laid(mode, recs, f, w, bytes, offs)
    ensures forall i :: 0 <= i < |recs| ==> RecordAt(W64, f, OffsetOf(recs, i), recs[i].0, recs[i].1)
  {
    forall i | 0 <= i < |recs|
      ensures RecordAt(W64, f, OffsetOf(recs, i), recs[i].0, recs[i].1)
    {
      FileRecord(mode, recs, f, w, bytes, offs, i);
    }
  }

  /**
   * Where the records end in a finished file: no table starts before
   * OffsetOf(recs, |recs|); some table starts right there when there are
   * records (bucket 0's, when it has any) and the file ends there when
   * there are none. An empty bucket 0 records table offset 0.
   */
  ghost predicate RecordsEnd(recs: seq<Pair>, f: seq<Byte>, offs: seq<nat>)
    requires |offs| == Buckets
  {
    var end := OffsetOf(recs, |recs|);
    && end <= |f|
    && (forall b :: 0 <= b < Buckets && |EntriesOf(recs, b)| > 0 ==> end <= offs[b])
    && (|recs| == 0 ==> |f| == end)
    && (|recs| > 0 ==> exists b :: 0 <= b < Buckets && |EntriesOf(recs, b)| > 0 && offs[b] == end)
    && (|EntriesOf(recs, 0)| > 0 ==> offs[0] == end)
    && (|EntriesOf(recs, 0)| == 0 ==> offs[0] == 0)
  }

  /** A laid-out file ends its records where its first table starts. */
  lemma LaidEnd(mode: EmptyTest, recs: seq<Pair>, f: seq<Byte>, w: Writer, bytes: seq<Byte>, offs: seq<nat>)
    requires Laid(mode, recs, f, w, bytes, offs)
    ensures |offs| == Buckets && RecordsEnd(recs, f, offs)
  {
    var end := OffsetOf(recs, |recs|);
    assert recs[..|recs|] == recs;
    assert end == |w.file|;
    forall b | 0 <= b < Buckets && |EntriesOf(recs, b)| > 0
      ensures end <= offs[b]
    {
      assert w.entries[b] == EntriesOf(recs, b);
      TableOffsetBound(mode, recs, f, w, bytes, offs, b);
    }
    if |recs| > 0 {
      var c :| 0 <= c < Buckets && |w.entries[c]| > 0 && offs[c] == |w.file|;
      assert w.entries[c] == EntriesOf(recs, c);
    }
    assert w.entries[0] == EntriesOf(recs, 0);
    assert TableIn(mode, w.entries[0], |w.file|, bytes, offs[0]);
  }

  /** Records laid back to back from record k up to the end of the records. */
  lemma {:induction false} FileContiguous(recs: seq<Pair>, f: seq<Byte>, k: nat)
    requires k <= |recs|
    requires forall i :: 0 <= i < |recs| ==> RecordAt(W64, f, OffsetOf(recs, i), recs[i].0, recs[i].1)
    ensures Contiguous(W64, f, OffsetOf(recs, k), OffsetOf(recs, |recs|), recs[k..])
    decreases |recs| - k
  {
    if k < |recs| {
      var tail := recs[k..];
      assert tail[0] == recs[k] && tail[1..] == recs[k + 1..];
      HeadTail(tail);
      OffsetNext(recs, k);
      assert W64.TupleBytes() == 16;
      FileContiguous(recs, f, k + 1);
      ContiguousCons(W64, f, OffsetOf(recs, k), OffsetOf(recs, k + 1), OffsetOf(recs, |recs|),
                     recs[k].0, recs[k].1, recs[k + 1..]);
    } else {
      assert recs[k..] == [];
    }
  }

  /** The file Build returns is Readable. */
  lemma BuiltReadable(mode: EmptyTest, recs: seq<Pair>) returns (offs: seq<nat>)
    requires PutAll(NewWriter(), recs).Success?
    ensures Build(mode, recs).Success? && Readable(mode, recs, Build(mode, recs).value, offs)
    ensures RecordsEnd(recs, Build(mode, recs).value, offs)
  {
    var w, bytes;
    w, bytes, offs := BuiltFile(mode, recs);
    var f := Build(mode, recs).value;
    ReadableHeaders(mode, recs, f, w, bytes, offs);
    ReadableTables(mode, recs, f, w, bytes, offs);
    ReadableRecords(mode, recs, f, w, bytes, offs);
    LaidEnd(mode, recs, f, w, bytes, offs);
  }
}
