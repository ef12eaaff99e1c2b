/**
 * The memory-mapped reader of 64-bit databases (mmap.go): the mapped file
 * is an immutable byte sequence, its index the 256 (offset, length) pairs
 * decoded from the header.
 */
module Mmap {
  import opened Wrappers
  import opened Bytes
  import opened GoInt
  import opened GoIO
  import opened Hash
  import opened Tuple
  import opened ProbeTable
  import opened ProbeWalk

  /** `indexSize` as mmap.go uses it: the 64-bit header of 256 pairs of uint64. */
  const IndexSize: nat := 256 * 16

  /** An MmapCDB: the mapped bytes and the decoded index. */
  datatype MmapCdb = MmapCdb(data: seq<Byte>, index: seq<Table>)

  /** What the fields of an open MmapCDB can hold: a Go slice and 256 pairs of uint64. */
  predicate WellFormed(db: MmapCdb)
  {
    && |db.data| <= MaxInt64
    && |db.index| == 256
    && forall i :: 0 <= i < 256 ==> db.index[i].offset < TwoTo64 && db.index[i].length < TwoTo64
  }

  /** readIndex: the 256 pairs of the header, or EINVAL for a short file. */
  function ReadIndex(data: seq<Byte>): (r: Result<seq<Table>, Error>)
    ensures r.Failure? <==> |data| < IndexSize
    ensures r.Failure? ==> r.error == InvalidSize
    ensures r.Success? ==> (|r.value| == 256 &&
      forall i :: 0 <= i < 256 ==> r.value[i].offset < TwoTo64 && r.value[i].length < TwoTo64)
  {
    if |data| < IndexSize then Failure(InvalidSize)
    else
      Pow256Widths();
      Success(seq(256, i requires 0 <= i < 256 =>
        Table(DecodeLE(data[16 * i..16 * i + 8]), DecodeLE(data[16 * i + 8..16 * i + 16]))))
  }

  /** Mmap: a file shorter than the header is rejected with EINVAL. */
  function Open(data: seq<Byte>): (r: Result<MmapCdb, Error>)
    requires |data| <= MaxInt64
    ensures r.Failure? <==> |data| < IndexSize
    ensures r.Failure? ==> r.error == InvalidSize
    ensures r.Success? ==> WellFormed(r.value) && r.value.data == data
  {
    if |data| < IndexSize then Failure(InvalidSize)
    else match ReadIndex(data)
      case Failure(e) => Failure(e)
      case Success(index) => Success(MmapCdb(data, index))
  }

  /** Entry i of the index Mmap decodes is the uint64 pair at 16·i of the file. */
  lemma OpenIndexEntry(data: seq<Byte>, i: nat)
    requires IndexSize <= |data| <= MaxInt64 && i < 256
    ensures Open(data).Success?
    ensures Open(data).value.index[i] ==
      Table(DecodeLE(data[16 * i..16 * i + 8]), DecodeLE(data[16 * i + 8..16 * i + 16]))
  {
  }

  /**
   * readTupleMmap: (0, 0) when `int(offset)+16` is past the end, otherwise
   * the two little-endian uint64 at offset. An offset beyond the int64
   * range slips past the guard and the slicing panics.
   */
  function ReadTupleMmap(data: seq<Byte>, offset: nat): (r: Result<(nat, nat), Error>)
    requires |data| <= MaxInt64 && offset < TwoTo64
    ensures offset + 16 <= |data| ==>
      r == Success((DecodeLE(data[offset..offset + 8]), DecodeLE(data[offset + 8..offset + 16])))
    ensures offset + 16 <= MaxInt64 && offset + 16 > |data| ==> r == Success((0, 0))
    ensures r.Success? ==> r.value.0 < TwoTo64 && r.value.1 < TwoTo64
    ensures r.Failure? ==> offset + 16 > MaxInt64
    ensures WrapInt64(Int64Of(offset) + 16) <= |data| ==> (r.Success? <==> offset + 16 <= |data|)
  {
    Pow256Widths();
    if WrapInt64(Int64Of(offset) + 16) > |data| then Success((0, 0))
    else
      var first :- Slice(data, offset, Uint64(offset + 8));
      var second :- Slice(data, Uint64(offset + 8), Uint64(offset + 16));
      Success((DecodeLE(first), DecodeLE(second)))
  }

  /**
   * getValueAtMmap: the value of the record at offset if its key is
   * expectedKey; nil (None) when the key differs or the record runs past
   * the end of the data.
   */
  function GetValueAtMmap(data: seq<Byte>, offset: nat, key: seq<Byte>): (r: Result<Option<seq<Byte>>, Error>)
    requires |data| <= MaxInt64 && offset < TwoTo64
    ensures r.Success? && r.value.Some? ==> RecordAt(W64, data, offset, key, r.value.value)
    ensures offset + 16 <= MaxInt64 && offset + 16 > |data| ==> r == Success(None)
    ensures offset + 16 <= |data| && DecodeLE(data[offset..offset + 8]) != |key| ==> r == Success(None)
  {
    if WrapInt64(Int64Of(offset) + 16) > |data| then Success(None)
    else
      var (keyLength, valueLength) :- ReadTupleMmap(data, offset);
      if Int64Of(keyLength) != |key| then Success(None)
      else
        var dataStart := Int64Of(Uint64(offset + 16));
        var dataEnd := WrapInt64(dataStart + Int64Of(Uint64(keyLength + valueLength)));
        if dataEnd > |data| then Success(None)
        else
          var keyEnd := WrapInt64(dataStart + Int64Of(keyLength));
          var stored :- Slice(data, dataStart, keyEnd);
          if stored != key then Success(None)
          else
            var value :- Slice(data, keyEnd, dataEnd);
            GetValueAtFound(data, offset, key, keyLength, valueLength, value);
            Success(Some(value))
  }

  /**
   * At a well-formed record getValueAtMmap answers exactly: the value when
   * the record's key is the query, nil otherwise.
   */
  lemma GetValueAtMmapAt(data: seq<Byte>, offset: nat, key: seq<Byte>, k: seq<Byte>, v: seq<Byte>)
    requires |data| <= MaxInt64 && offset < TwoTo64
    requires RecordAt(W64, data, offset, k, v)
    ensures GetValueAtMmap(data, offset, key) == Success(if key == k then Some(v) else None)
  {
    if |key| == |k| {
      GetValueAtMmapSameLength(data, offset, key, k, v);
    }
  }

  /** getValueAtMmap at a record whose key has the query's length: the key bytes decide. */
  lemma GetValueAtMmapSameLength(data: seq<Byte>, offset: nat, key: seq<Byte>, k: seq<Byte>, v: seq<Byte>)
    requires |data| <= MaxInt64 && offset < TwoTo64
    requires RecordAt(W64, data, offset, k, v) && |key| == |k|
    ensures GetValueAtMmap(data, offset, key) == Success(if key == k then Some(v) else None)
  {
    Pow256Widths();
    var dataStart := offset + 16;
    assert WrapInt64(Int64Of(offset) + 16) == dataStart;
    assert ReadTupleMmap(data, offset) == Success((|k|, |v|));
    assert Int64Of(|k|) == |k|;
    assert Int64Of(Uint64(dataStart)) == dataStart;
    assert Int64Of(Uint64(|k| + |v|)) == |k| + |v|;
    assert WrapInt64(dataStart + |k| + |v|) == dataStart + |k| + |v|;
    assert WrapInt64(dataStart + |k|) == dataStart + |k|;
    assert Slice(data, dataStart, dataStart + |k|) == Success(k);
    assert Slice(data, dataStart + |k|, dataStart + |k| + |v|) == Success(v);
  }

  /** getValueAtMmap returns nil when the record body would run past the data. */
  lemma GetValueAtMmapPastEnd(data: seq<Byte>, offset: nat, key: seq<Byte>)
    requires |data| <= MaxInt64 && offset < TwoTo64
    requires offset + 16 <= |data| && DecodeLE(data[offset..offset + 8]) == |key|
    requires var end := offset + 16 + |key| + DecodeLE(data[offset + 8..offset + 16]);
             |data| < end <= MaxInt64
    ensures GetValueAtMmap(data, offset, key) == Success(None)
  {
    Pow256Widths();
    var valueLength := DecodeLE(data[offset + 8..offset + 16]);
    assert Int64Of(|key|) == |key|;
    assert Uint64(|key| + valueLength) == |key| + valueLength;
    assert WrapInt64(offset + 16 + |key| + valueLength) == offset + 16 + |key| + valueLength;
  }

  /** What a value returned by getValueAtMmap says about the bytes at offset. */
  lemma GetValueAtFound(data: seq<Byte>, offset: nat, key: seq<Byte>, keyLength: nat, valueLength: nat, value: seq<Byte>)
    requires |data| <= MaxInt64 && offset < TwoTo64 && keyLength < TwoTo64 && valueLength < TwoTo64
    requires offset + 16 <= |data|
    requires keyLength == DecodeLE(data[offset..offset + 8]) && valueLength == DecodeLE(data[offset + 8..offset + 16])
    requires Int64Of(keyLength) == |key|
    requires var dataStart := Int64Of(Uint64(offset + 16));
             var dataEnd := WrapInt64(dataStart + Int64Of(Uint64(keyLength + valueLength)));
             var keyEnd := WrapInt64(dataStart + Int64Of(keyLength));
             && 0 <= dataStart <= keyEnd <= dataEnd <= |data|
             && data[dataStart..keyEnd] == key && data[keyEnd..dataEnd] == value
    ensures RecordAt(W64, data, offset, key, value)
  {
    var dataStart := offset + 16;
    var keyEnd := WrapInt64(dataStart + Int64Of(keyLength));
    AddNoWrap(dataStart, keyLength);
    var dataEnd := WrapInt64(dataStart + Int64Of(Uint64(keyLength + valueLength)));
    AddNoWrap(dataStart, Uint64(keyLength + valueLength));
  }

  /** The slot i of the table at tableOffset: the tuple at `table.offset + 16*slot`, as uint64. */
  function SlotAt(data: seq<Byte>, tableOffset: nat, i: nat): (r: Result<Slot, Error>)
    requires |data| <= MaxInt64
    ensures r.Success? ==> r.value.offset < TwoTo64
    ensures var o := tableOffset + 16 * i;
      o + 16 <= |data| ==> r == Success(Slot(DecodeLE(data[o..o + 8]), DecodeLE(data[o + 8..o + 16])))
    ensures var o := tableOffset + 16 * i;
      |data| < o + 16 <= MaxInt64 ==> r == Success(Slot(0, 0))
  {
    var (h, off) :- ReadTupleMmap(data, Uint64(tableOffset + 16 * i));
    Success(Slot(h, off))
  }

  /** The slot reader of the probe loop over the table at tableOffset. */
  function SlotReader(data: seq<Byte>, tableOffset: nat): nat -> Result<Slot, Error>
    requires |data| <= MaxInt64
  {
    (i: nat) => SlotAt(data, tableOffset, i)
  }

  /** The record check of the probe loop: getValueAtMmap at a slot's offset. */
  function ValueLooker(data: seq<Byte>, key: seq<Byte>): nat -> Result<Option<seq<Byte>>, Error>
    requires |data| <= MaxInt64
  {
    (off: nat) => GetValueAtMmap(data, Uint64(off), key)
  }

  /**
   * Get: look up the bucket `hash & 0xff`, return nil for an empty table,
   * otherwise walk the table from `(hash >> 8) % length`. The mode is the
   * emptiness test of the slots: ZeroHash is the `slotHash == 0` of the
   * source.
   */
  function Get(mode: EmptyTest, db: MmapCdb, key: seq<Byte>): (r: Result<Option<seq<Byte>>, Error>)
    requires WellFormed(db)
    ensures db.index[Bucket(CdbHash(key))].length == 0 ==> r == Success(None)
    ensures r.Success? && r.value.Some? ==>
      exists off: nat :: off < TwoTo64 && RecordAt(W64, db.data, off, key, r.value.value)
  {
    var h := CdbHash(key);
    var table := db.index[Bucket(h)];
    if table.length == 0 then Success(None)
    else
      var read := SlotReader(db.data, table.offset);
      var look := ValueLooker(db.data, key);
      var r := Walk(mode, table.length, h, read, look, 0);
      if r.Success? && r.value.Some? then
        WalkSound(mode, table.length, h, read, look, 0);
        r
      else r
  }

  // ---- All, Keys, Values ----

  /** A record the scan loop found at pos, and where the next one starts. */
  datatype Step = Step(key: seq<Byte>, value: seq<Byte>, next: nat)

  /**
   * One iteration of the loop of All at pos: None to stop quietly (a
   * record header or body would run past the data), else the record and
   * `pos + 16 + keyLength + valueLength`. Bad lengths can make the slicing
   * panic.
   */
  function ScanRecord(data: seq<Byte>, pos: nat): (r: Result<Option<Step>, Error>)
    requires |data| <= MaxInt64 && pos < TwoTo64
    ensures r.Success? && r.value.Some? ==>
      var st := r.value.value;
      && RecordAt(W64, data, pos, st.key, st.value)
      && st.next == pos + 16 + |st.key| + |st.value| < TwoTo64
    ensures pos + 16 <= MaxInt64 && pos + 16 > |data| ==> r == Success(None)
  {
    if WrapInt64(Int64Of(pos) + 16) > |data| then Success(None)
    else
      var (keyLength, valueLength) :- ReadTupleMmap(data, pos);
      var totalSize := Uint64(16 + keyLength + valueLength);
      if Int64Of(Uint64(pos + totalSize)) > |data| then Success(None)
      else
        var dataStart := Int64Of(Uint64(pos + 16));
        var keyEnd := WrapInt64(dataStart + Int64Of(keyLength));
        var valueEnd := WrapInt64(keyEnd + Int64Of(valueLength));
        var key :- Slice(data, dataStart, keyEnd);
        var value :- Slice(data, keyEnd, valueEnd);
        assert pos + 16 <= |data|;
        assert keyLength == DecodeLE(data[pos..pos + 8]) && valueLength == DecodeLE(data[pos + 8..pos + 16]);
        assert 0 <= dataStart <= keyEnd <= valueEnd <= |data|;
        ScanStep(data, pos, keyLength, valueLength, key, value);
        Success(Some(Step(key, value, Uint64(pos + totalSize))))
  }

  /** A record the loop yields is well formed, and the loop moves past it. */
  lemma ScanStep(data: seq<Byte>, pos: nat, keyLength: nat, valueLength: nat, key: seq<Byte>, value: seq<Byte>)
    requires |data| <= MaxInt64 && pos < TwoTo64 && keyLength < TwoTo64 && valueLength < TwoTo64
    requires pos + 16 <= |data|
    requires keyLength == DecodeLE(data[pos..pos + 8]) && valueLength == DecodeLE(data[pos + 8..pos + 16])
    requires var dataStart := Int64Of(Uint64(pos + 16));
             var keyEnd := WrapInt64(dataStart + Int64Of(keyLength));
             var valueEnd := WrapInt64(keyEnd + Int64Of(valueLength));
             && 0 <= dataStart <= keyEnd <= valueEnd <= |data|
             && data[dataStart..keyEnd] == key && data[keyEnd..valueEnd] == value
    ensures |key| == keyLength && |value| == valueLength
    ensures Uint64(pos + Uint64(16 + keyLength + valueLength)) == pos + 16 + keyLength + valueLength
    ensures RecordAt(W64, data, pos, key, value)
  {
    var dataStart := pos + 16;
    assert Int64Of(Uint64(pos + 16)) == dataStart;
    AddNoWrap(dataStart, keyLength);
    var keyEnd := dataStart + keyLength;
    AddNoWrap(keyEnd, valueLength);
    assert |key| == keyLength && |value| == valueLength;
    assert Uint64(16 + keyLength + valueLength) == 16 + keyLength + valueLength;
    assert W64.WordBytes() == 8;
  }

  /** The loop of All from pos to endPos: the pairs it yields, in file order. */
  function Scan(data: seq<Byte>, pos: nat, endPos: nat): (r: Result<seq<(seq<Byte>, seq<Byte>)>, Error>)
    requires |data| <= MaxInt64 && pos < TwoTo64
    ensures pos >= endPos ==> r == Success([])
    ensures r.Success? && |r.value| > 0 ==> pos < endPos && pos + 16 <= |data|
    decreases TwoTo64 - pos
  {
    if pos >= endPos then Success([])
    else
      var found :- ScanRecord(data, pos);
      match found
      case None => Success([])
      case Some(st) =>
        var rest :- Scan(data, st.next, endPos);
        Success([(st.key, st.value)] + rest)
  }

  /**
   * Every pair the loop yields is a record, at increasing offsets from pos
   * on and below endPos.
   */
  lemma {:induction false} ScanSound(data: seq<Byte>, pos: nat, endPos: nat) returns (offs: seq<nat>)
    requires |data| <= MaxInt64 && pos < TwoTo64
    requires Scan(data, pos, endPos).Success?
    ensures RecordsAt(W64, data, pos, endPos, Scan(data, pos, endPos).value, offs)
    decreases TwoTo64 - pos
  {
    if pos >= endPos || ScanRecord(data, pos) == Success(None) {
      offs := [];
    } else {
      var st := ScanRecord(data, pos).value.value;
      var rest := ScanSound(data, st.next, endPos);
      RecordsAtCons(W64, data, pos, endPos, pos, st.next, st.key, st.value, Scan(data, st.next, endPos).value, rest);
      offs := [pos] + rest;
    }
  }

  /** At a well-formed record the loop yields exactly that record and moves right past it. */
  lemma ScanRecordAt(data: seq<Byte>, pos: nat, k: seq<Byte>, v: seq<Byte>)
    requires |data| <= MaxInt64 && pos < TwoTo64
    requires RecordAt(W64, data, pos, k, v)
    ensures ScanRecord(data, pos) == Success(Some(Step(k, v, pos + 16 + |k| + |v|)))
  {
    Pow256Widths();
    var dataStart := pos + 16;
    assert WrapInt64(Int64Of(pos) + 16) == dataStart;
    assert ReadTupleMmap(data, pos) == Success((|k|, |v|));
    assert Uint64(16 + |k| + |v|) == 16 + |k| + |v|;
    assert Int64Of(Uint64(pos + (16 + |k| + |v|))) == dataStart + |k| + |v|;
    assert Int64Of(Uint64(dataStart)) == dataStart;
    assert WrapInt64(dataStart + Int64Of(|k|)) == dataStart + |k|;
    assert WrapInt64(dataStart + |k| + Int64Of(|v|)) == dataStart + |k| + |v|;
    var r := ScanRecord(data, pos);
    assert r.Success? && r.value.Some?;
    RecordAtUnique(W64, data, pos, k, v, r.value.value.key, r.value.value.value);
  }

  /** Over records laid back to back up to endPos, the loop of All yields exactly them. */
  lemma {:induction false} ScanComplete(data: seq<Byte>, pos: nat, endPos: nat, pairs: seq<(seq<Byte>, seq<Byte>)>)
    requires |data| <= MaxInt64 && pos < TwoTo64
    requires Contiguous(W64, data, pos, endPos, pairs)
    ensures Scan(data, pos, endPos) == Success(pairs)
    decreases |pairs|
  {
    ContiguousEnd(W64, data, pos, endPos, pairs);
    if |pairs| > 0 {
      var k, v := pairs[0].0, pairs[0].1;
      var next := pos + 16 + |k| + |v|;
      assert W64.TupleBytes() == 16;
      assert Contiguous(W64, data, next, endPos, pairs[1..]);
      ContiguousEnd(W64, data, next, endPos, pairs[1..]);
      ScanRecordAt(data, pos, k, v);
      ScanComplete(data, next, endPos, pairs[1..]);
      HeadTail(pairs);
    }
  }

  /**
   * All: the records from the end of the header up to the smallest offset
   * of a non-empty table, or to the end of the data when every table is
   * empty.
   */
  function All(db: MmapCdb): (r: Result<seq<(seq<Byte>, seq<Byte>)>, Error>)
    requires WellFormed(db)
    ensures |db.data| <= IndexSize ==> r == Success([])
    ensures (exists i :: 0 <= i < 256 && db.index[i].length > 0 && db.index[i].offset <= IndexSize) ==> r == Success([])
  {
    var endPos := MinTableOffset(db.index, 0, |db.data|);
    Scan(db.data, IndexSize, endPos)
  }

  /** Keys: the keys All yields, in the same order. */
  function Keys(db: MmapCdb): (r: Result<seq<seq<Byte>>, Error>)
    requires WellFormed(db)
    ensures r.Success? <==> All(db).Success?
    ensures r.Success? ==> (|r.value| == |All(db).value| &&
      forall k :: 0 <= k < |r.value| ==> r.value[k] == All(db).value[k].0)
  {
    var pairs :- All(db);
    Success(seq(|pairs|, k requires 0 <= k < |pairs| => pairs[k].0))
  }

  /** Values: the values All yields, in the same order. */
  function Values(db: MmapCdb): (r: Result<seq<seq<Byte>>, Error>)
    requires WellFormed(db)
    ensures r.Success? <==> All(db).Success?
    ensures r.Success? ==> (|r.value| == |All(db).value| &&
      forall k :: 0 <= k < |r.value| ==> r.value[k] == All(db).value[k].1)
  {
    var pairs :- All(db);
    Success(seq(|pairs|, k requires 0 <= k < |pairs| => pairs[k].1))
  }
}
