/**
 * The fixed-width little-endian pair codecs of util.go (`readTuple`,
 * `writeTuple`, their 64-bit and generic variants) and the width
 * parameter W shared by the readers.
 */
module Tuple {
  import opened Bytes
  import opened GoInt
  import opened GoIO
  import opened Wrappers

  /** The integer width of a database: classic 32-bit (W = 4) or 64-bit (W = 8). */
  datatype Width = W32 | W64 {

    /** W: the bytes in one integer field. */
    function WordBytes(): nat
    {
      if W32? then 4 else 8
    }

    /** The bytes of one (first, second) pair: 8 or 16. */
    function TupleBytes(): nat
    {
      2 * WordBytes()
    }

    /** 2^(8W): the number of values one field can hold. */
    function Limit(): nat
    {
      if W32? then TwoTo32 else TwoTo64
    }

    /** A sum or conversion to the unsigned type of width W: wrap-around at 2^(8W). */
    function Wrap(x: nat): (r: nat)
      ensures r < Limit()
      ensures x < Limit() ==> r == x
      ensures Limit() <= x < 2 * Limit() ==> r == x - Limit()
    {
      x % Limit()
    }

    /** `int(x)` for an unsigned value x of width W, on a 64-bit platform. */
    function ToInt(x: nat): (r: int)
      requires x < Limit()
      ensures x <= MaxInt64 <==> r == x
    {
      if W32? then x else Int64Of(x)
    }

    /** The size of the 256-entry header: `indexSize` (2048) or `indexSize64` (4096). */
    function IndexBytes(): nat
    {
      256 * TupleBytes()
    }
  }

  /** A `table` entry of an index: where a bucket's table starts and how many slots it has. */
  datatype Table = Table(offset: nat, length: nat)

  /**
   * A record at offset holding key and value: the two W-byte lengths, then
   * the key bytes, then the value bytes, all inside the data.
   */
  ghost predicate RecordAt(w: Width, data: seq<Byte>, offset: nat, key: seq<Byte>, value: seq<Byte>)
  {
    var n := w.WordBytes();
    && offset + 2 * n + |key| + |value| <= |data|
    && DecodeLE(data[offset..offset + n]) == |key|
    && DecodeLE(data[offset + n..offset + 2 * n]) == |value|
    && data[offset + 2 * n..offset + 2 * n + |key|] == key
    && data[offset + 2 * n + |key|..offset + 2 * n + |key| + |value|] == value
  }

  /** At most one record starts at a given offset. */
  lemma RecordAtUnique(w: Width, data: seq<Byte>, offset: nat, k: seq<Byte>, v: seq<Byte>, k': seq<Byte>, v': seq<Byte>)
    requires RecordAt(w, data, offset, k, v) && RecordAt(w, data, offset, k', v')
    ensures k == k' && v == v'
  {
  }

  /** The body bytes read after a record's length tuple hold its key and value. */
  lemma RecordFromBody(w: Width, data: seq<Byte>, offset: nat, keyLength: nat, valueLength: nat, buf: seq<Byte>)
    requires offset + w.TupleBytes() + keyLength + valueLength <= |data|
    requires DecodeLE(data[offset..offset + w.WordBytes()]) == keyLength
    requires DecodeLE(data[offset + w.WordBytes()..offset + w.TupleBytes()]) == valueLength
    requires buf == data[offset + w.TupleBytes()..offset + w.TupleBytes() + keyLength + valueLength]
    ensures keyLength <= |buf| && RecordAt(w, data, offset, buf[..keyLength], buf[keyLength..])
  {
    SliceHalves(data, offset + w.TupleBytes(), keyLength, valueLength);
  }

  /**
   * pairs are records at the offsets offs, in strictly increasing order,
   * all inside [lo, hi): what a sequential scan of the file yields.
   */
  ghost predicate RecordsAt(w: Width, data: seq<Byte>, lo: nat, hi: nat,
                            pairs: seq<(seq<Byte>, seq<Byte>)>, offs: seq<nat>)
  {
    && |offs| == |pairs|
    && (forall k :: 0 <= k < |pairs| ==> lo <= offs[k] < hi && RecordAt(w, data, offs[k], pairs[k].0, pairs[k].1))
    && (forall k :: 0 < k < |pairs| ==> offs[k - 1] < offs[k])
  }

  /** A record at pos in front of records that all lie after it. */
  lemma RecordsAtCons(w: Width, data: seq<Byte>, lo: nat, hi: nat, pos: nat, next: nat,
                      key: seq<Byte>, value: seq<Byte>, pairs: seq<(seq<Byte>, seq<Byte>)>, offs: seq<nat>)
    requires RecordsAt(w, data, next, hi, pairs, offs)
    requires lo <= pos < hi && pos < next && RecordAt(w, data, pos, key, value)
    ensures RecordsAt(w, data, lo, hi, [(key, value)] + pairs, [pos] + offs)
  {
    var ps, os := [(key, value)] + pairs, [pos] + offs;
    forall k | 0 <= k < |ps|
      ensures lo <= os[k] < hi && RecordAt(w, data, os[k], ps[k].0, ps[k].1)
    {
      if k > 0 {
        assert ps[k] == pairs[k - 1] && os[k] == offs[k - 1];
      }
    }
    forall k | 0 < k < |ps|
      ensures os[k - 1] < os[k]
    {
      if k > 1 {
        assert os[k - 1] == offs[k - 2] && os[k] == offs[k - 1];
      }
    }
  }

  /**
   * pairs are records laid back to back from pos, the last one ending
   * exactly at end: how the writer streams them between the header and
   * the tables.
   */
  ghost predicate Contiguous(w: Width, data: seq<Byte>, pos: nat, end: nat, pairs: seq<(seq<Byte>, seq<Byte>)>)
    decreases |pairs|
  {
    if |pairs| == 0 then pos == end
    else
      && RecordAt(w, data, pos, pairs[0].0, pairs[0].1)
      && Contiguous(w, data, pos + w.TupleBytes() + |pairs[0].0| + |pairs[0].1|, end, pairs[1..])
  }

  /** A non-empty list of pairs is its head followed by its tail. */
  lemma HeadTail(pairs: seq<(seq<Byte>, seq<Byte>)>)
    requires |pairs| > 0
    ensures [pairs[0]] + pairs[1..] == pairs
  {
  }

  /** A record right in front of back-to-back records extends them. */
  lemma ContiguousCons(w: Width, data: seq<Byte>, pos: nat, next: nat, end: nat,
                       k: seq<Byte>, v: seq<Byte>, pairs: seq<(seq<Byte>, seq<Byte>)>)
    requires RecordAt(w, data, pos, k, v) && next == pos + w.TupleBytes() + |k| + |v|
    requires Contiguous(w, data, next, end, pairs)
    ensures Contiguous(w, data, pos, end, [(k, v)] + pairs)
  {
    assert ([(k, v)] + pairs)[1..] == pairs;
  }

  /** Back-to-back records end at or after where they start, strictly after when there are any. */
  lemma {:induction false} ContiguousEnd(w: Width, data: seq<Byte>, pos: nat, end: nat, pairs: seq<(seq<Byte>, seq<Byte>)>)
    requires Contiguous(w, data, pos, end, pairs)
    ensures |pairs| == 0 <==> pos == end
    ensures pos <= end && (|pairs| > 0 ==> end <= |data|)
    decreases |pairs|
  {
    if |pairs| > 0 {
      ContiguousEnd(w, data, pos + w.TupleBytes() + |pairs[0].0| + |pairs[0].1|, end, pairs[1..]);
    }
  }

  /**
   * The smallest offset of a non-empty table from bucket i on, or cur when
   * there is none smaller: where All of mmap.go ends its scan.
   */
  function MinTableOffset(index: seq<Table>, i: nat, cur: nat): (r: nat)
    requires i <= |index|
    ensures r <= cur
    ensures forall j :: i <= j < |index| && index[j].length > 0 ==> r <= index[j].offset
    ensures r == cur || exists j :: i <= j < |index| && index[j].length > 0 && index[j].offset == r
    decreases |index| - i
  {
    if i == |index| then cur
    else if index[i].length > 0 && index[i].offset < cur then MinTableOffset(index, i + 1, index[i].offset)
    else MinTableOffset(index, i + 1, cur)
  }

  /** The (first, second, err) triple the tuple readers return. */
  datatype TupleRead = TupleRead(first: nat, second: nat, err: Option<Error>)

  /** readTuple: two little-endian uint32 at a uint32 offset of a ReaderAt. */
  function ReadTuple(data: seq<Byte>, offset: nat): (r: TupleRead)
    requires offset < TwoTo32
    ensures r.err.None? <==> offset + 8 <= |data|
    ensures r.err.Some? ==> r.first == 0 && r.second == 0
    ensures r.first < TwoTo32 && r.second < TwoTo32
  {
    Pow256Widths();
    match ReadAt(data, offset, 8)
    case Failure(e) => TupleRead(0, 0, Some(e))
    case Success(t) => TupleRead(DecodeLE(t[..4]), DecodeLE(t[4..]), None)
  }

  /** writeTuple: the 8 bytes of two little-endian uint32. */
  function WriteTuple(first: nat, second: nat): (r: seq<Byte>)
    ensures |r| == 8
  {
    EncodeLE(first, 4) + EncodeLE(second, 4)
  }

  /** readTuple64: two little-endian uint64 at a uint64 offset (converted with int64()). */
  function ReadTuple64(data: seq<Byte>, offset: nat): (r: TupleRead)
    requires offset < TwoTo64
    ensures r.err.None? <==> offset + 16 <= |data| && offset <= MaxInt64
    ensures r.err.Some? ==> r.first == 0 && r.second == 0
    ensures r.first < TwoTo64 && r.second < TwoTo64
  {
    Pow256Widths();
    match ReadAt(data, Int64Of(offset), 16)
    case Failure(e) => TupleRead(0, 0, Some(e))
    case Success(t) => TupleRead(DecodeLE(t[..8]), DecodeLE(t[8..]), None)
  }

  /** writeTuple64 (util.go and writer.go): the 16 bytes of two little-endian uint64. */
  function WriteTuple64(first: nat, second: nat): (r: seq<Byte>)
    ensures |r| == 16
  {
    EncodeLE(first, 8) + EncodeLE(second, 8)
  }

  /** readTupleGeneric[T]: a tuple of 2W bytes decoded as two W-byte integers. */
  function ReadTupleGeneric(w: Width, data: seq<Byte>, offset: nat): (r: TupleRead)
    requires offset < w.Limit()
    ensures r.err.None? <==> offset + w.TupleBytes() <= |data| && offset <= MaxInt64
    ensures r.err.Some? ==> r.first == 0 && r.second == 0
    ensures r.first < w.Limit() && r.second < w.Limit()
    ensures r.err.None? ==>
      && r.first == DecodeLE(data[offset..offset + w.WordBytes()])
      && r.second == DecodeLE(data[offset + w.WordBytes()..offset + w.TupleBytes()])
  {
    Pow256Widths();
    var size := w.TupleBytes();
    match ReadAt(data, Int64Of(offset), size)
    case Failure(e) => TupleRead(0, 0, Some(e))
    case Success(t) =>
      SliceHalves(data, offset, w.WordBytes(), w.WordBytes());
      TupleRead(DecodeLE(t[..w.WordBytes()]), DecodeLE(t[w.WordBytes()..]), None)
  }

  /** Below 2^(8W), the length tuple of a record reads back as its key and value lengths. */
  lemma RecordTuple(w: Width, data: seq<Byte>, offset: nat, k: seq<Byte>, v: seq<Byte>)
    requires |data| <= MaxInt64 && |data| < w.Limit() && offset < w.Limit()
    requires RecordAt(w, data, offset, k, v)
    ensures ReadTupleGeneric(w, data, offset) == TupleRead(|k|, |v|, None)
    ensures w.ToInt(|k|) == |k|
  {
    Pow256Widths();
  }

  /**
   * Below 2^(8W), the body read at offset+2W of a record (with the wrapping
   * sums a reader computes) is its key followed by its value.
   */
  lemma RecordBody(w: Width, data: seq<Byte>, offset: nat, k: seq<Byte>, v: seq<Byte>) returns (buf: seq<Byte>)
    requires |data| <= MaxInt64 && |data| < w.Limit() && offset < w.Limit()
    requires RecordAt(w, data, offset, k, v)
    ensures w.Wrap(offset + w.TupleBytes()) < TwoTo64
    ensures ReadAt(data, Int64Of(w.Wrap(offset + w.TupleBytes())), w.Wrap(|k| + |v|)) == Success(buf)
    ensures |buf| == |k| + |v| && buf[..|k|] == k && buf[|k|..] == v
    ensures w.Wrap(offset + w.TupleBytes() + |k| + |v|) == offset + w.TupleBytes() + |k| + |v|
  {
    Pow256Widths();
    var start := offset + w.TupleBytes();
    assert w.Wrap(start) == start && w.Wrap(|k| + |v|) == |k| + |v|;
    buf := data[start..start + |k| + |v|];
    SliceHalves(data, start, |k|, |v|);
  }

  /** writeTupleGeneric[T]: two W-byte little-endian integers. */
  function WriteTupleGeneric(w: Width, first: nat, second: nat): (r: seq<Byte>)
    ensures |r| == w.TupleBytes()
  {
    EncodeLE(first, w.WordBytes()) + EncodeLE(second, w.WordBytes())
  }

  /** writeTuple's bytes read back with readTuple, wherever they sit in the file. */
  lemma TupleRoundTrip(p: seq<Byte>, a: nat, b: nat, s: seq<Byte>)
    requires |p| < TwoTo32
    requires a < TwoTo32 && b < TwoTo32
    ensures ReadTuple(p + WriteTuple(a, b) + s, |p|) == TupleRead(a, b, None)
  {
    var t := WriteTuple(a, b);
    SliceOfMiddle(p, t, s, 0, 8);
    assert t[..4] == EncodeLE(a, 4);
    assert t[4..] == EncodeLE(b, 4);
    Pow256Widths();
    RoundTripLE(a, 4);
    RoundTripLE(b, 4);
  }

  /** writeTuple64's bytes read back with readTuple64. */
  lemma Tuple64RoundTrip(p: seq<Byte>, a: nat, b: nat, s: seq<Byte>)
    requires |p| <= MaxInt64
    requires a < TwoTo64 && b < TwoTo64
    ensures ReadTuple64(p + WriteTuple64(a, b) + s, |p|) == TupleRead(a, b, None)
  {
    var t := WriteTuple64(a, b);
    SliceOfMiddle(p, t, s, 0, 16);
    assert t[..8] == EncodeLE(a, 8);
    assert t[8..] == EncodeLE(b, 8);
    Pow256Widths();
    RoundTripLE(a, 8);
    RoundTripLE(b, 8);
  }

  /** The generic codec round-trips at both widths. */
  lemma GenericRoundTrip(w: Width, p: seq<Byte>, a: nat, b: nat, s: seq<Byte>)
    requires |p| <= MaxInt64 && |p| < w.Limit()
    requires a < w.Limit() && b < w.Limit()
    ensures ReadTupleGeneric(w, p + WriteTupleGeneric(w, a, b) + s, |p|) == TupleRead(a, b, None)
  {
    var t := WriteTupleGeneric(w, a, b);
    var n := w.WordBytes();
    SliceOfMiddle(p, t, s, 0, 2 * n);
    assert t[..n] == EncodeLE(a, n);
    assert t[n..] == EncodeLE(b, n);
    Pow256Widths();
    RoundTripLE(a, n);
    RoundTripLE(b, n);
  }

  /** readTupleGeneric[uint32] is readTuple and readTupleGeneric[uint64] is readTuple64. */
  lemma GenericReadAgrees(data: seq<Byte>, offset: nat)
    ensures offset < TwoTo32 ==> ReadTupleGeneric(W32, data, offset) == ReadTuple(data, offset)
    ensures offset < TwoTo64 ==> ReadTupleGeneric(W64, data, offset) == ReadTuple64(data, offset)
  {
  }

  /** writeTupleGeneric[uint32] is writeTuple and writeTupleGeneric[uint64] is writeTuple64. */
  lemma GenericWriteAgrees(a: nat, b: nat)
    ensures WriteTupleGeneric(W32, a, b) == WriteTuple(a, b)
    ensures WriteTupleGeneric(W64, a, b) == WriteTuple64(a, b)
    ensures |WriteTupleGeneric(W32, a, b)| == 8 && |WriteTupleGeneric(W64, a, b)| == 16
  {
  }
}
