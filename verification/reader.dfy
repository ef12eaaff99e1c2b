/**
 * The io.ReaderAt readers of cdb.go: CDB (32-bit), CDB64 and
 * CDBGeneric[T]. They differ only in the width W of their integers and in
 * which tuple reader they call; readTupleGeneric[T] is readTuple or
 * readTuple64 for T = uint32 or uint64 (Tuple.GenericReadAgrees), so one
 * definition, parameterised by W, stands for all three. The hash is fixed
 * to cdbHash.
 */
module Reader {
  import opened Wrappers
  import opened Bytes
  import opened GoInt
  import opened GoIO
  import opened Hash
  import opened Tuple
  import opened ProbeTable
  import opened ProbeWalk

  /** An open database: the width, the file behind the ReaderAt, and the decoded index. */
  datatype Cdb = Cdb(w: Width, data: seq<Byte>, index: seq<Table>)

  /** What the fields of an open reader can hold: a Go slice and 256 pairs of W-byte integers. */
  predicate WellFormed(db: Cdb)
  {
    && |db.data| <= MaxInt64
    && |db.index| == 256
    && forall i :: 0 <= i < 256 ==> db.index[i].offset < db.w.Limit() && db.index[i].length < db.w.Limit()
  }

  /** readIndex: the 256 pairs of W-byte integers in bytes [0, 256·2W) of the file. */
  function ReadIndex(w: Width, data: seq<Byte>): (r: Result<seq<Table>, Error>)
    ensures r.Failure? <==> |data| < w.IndexBytes()
    ensures r.Failure? ==> r.error == ShortRead
    ensures r.Success? ==> (|r.value| == 256 &&
      forall i :: 0 <= i < 256 ==> r.value[i].offset < w.Limit() && r.value[i].length < w.Limit())
  {
    var n := w.WordBytes();
    Pow256Widths();
    var buf :- ReadAt(data, 0, w.IndexBytes());
    Success(seq(256, i requires 0 <= i < 256 =>
      Table(DecodeLE(buf[2 * n * i..2 * n * i + n]), DecodeLE(buf[2 * n * i + n..2 * n * i + 2 * n]))))
  }

  /** Entry i of the index is the pair of W-byte little-endian integers at 2W·i of the file. */
  lemma ReadIndexEntry(w: Width, data: seq<Byte>, i: nat)
    requires w.IndexBytes() <= |data| && i < 256
    ensures ReadIndex(w, data).Success?
    ensures var n := w.WordBytes();
      ReadIndex(w, data).value[i] ==
        Table(DecodeLE(data[2 * n * i..2 * n * i + n]), DecodeLE(data[2 * n * i + n..2 * n * i + 2 * n]))
  {
    var n := w.WordBytes();
    var buf := data[0..w.IndexBytes()];
    assert ReadAt(data, 0, w.IndexBytes()) == Success(buf);
    SliceOfSlice(data, 0, w.IndexBytes(), buf, 2 * n * i, n);
    SliceOfSlice(data, 0, w.IndexBytes(), buf, 2 * n * i + n, n);
  }

  /** New, New64, NewGeneric: read the index, passing its error on. */
  function New(w: Width, data: seq<Byte>): (r: Result<Cdb, Error>)
    requires |data| <= MaxInt64
    ensures r.Failure? <==> |data| < w.IndexBytes()
    ensures r.Success? ==> WellFormed(r.value) && r.value.data == data && r.value.w == w
  {
    var index :- ReadIndex(w, data);
    Success(Cdb(w, data, index))
  }

  /**
   * getValueAt: read the (keyLength, valueLength) tuple at offset, give up
   * with nil on a key-length mismatch before reading any further, then
   * read keyLength+valueLength bytes at offset+2W and return the bytes after
   * the key when the key matches. Sums wrap at the width W; a wrapped
   * buffer shorter than keyLength makes `buf[:keyLength]` panic.
   */
  function GetValueAt(w: Width, data: seq<Byte>, offset: nat, key: seq<Byte>): (r: Result<Option<seq<Byte>>, Error>)
    requires |data| <= MaxInt64 && offset < w.Limit()
    ensures r.Success? && r.value.Some? && |data| < w.Limit() ==> RecordAt(w, data, offset, key, r.value.value)
    ensures offset + w.TupleBytes() <= |data| && DecodeLE(data[offset..offset + w.WordBytes()]) != |key| ==>
      r == Success(None)
    ensures offset + w.TupleBytes() > |data| ==> r.Failure?
  {
    var t := ReadTupleGeneric(w, data, offset);
    if t.err.Some? then Failure(t.err.value)
    else
      if w.ToInt(t.first) != |key| then
        Pow256Widths();
        Success(None)
      else
        var buf :- ReadAt(data, Int64Of(w.Wrap(offset + w.TupleBytes())), w.Wrap(t.first + t.second));
        if t.first > |buf| then Failure(SliceOutOfRange)
        else if buf[..t.first] != key then Success(None)
        else
          var r := Success(Some(buf[t.first..]));
          if |data| < w.Limit() then
            GetValueAtFound(w, data, offset, key, buf);
            r
          else r
  }

  /** What a value returned by getValueAt says about the bytes at offset. */
  lemma GetValueAtFound(w: Width, data: seq<Byte>, offset: nat, key: seq<Byte>, buf: seq<Byte>)
    requires |data| <= MaxInt64 && |data| < w.Limit() && offset < w.Limit()
    requires var t := ReadTupleGeneric(w, data, offset);
             && t.err.None? && t.first == |key| && t.first <= |buf| && buf[..t.first] == key
             && ReadAt(data, Int64Of(w.Wrap(offset + w.TupleBytes())), w.Wrap(t.first + t.second)) == Success(buf)
    ensures RecordAt(w, data, offset, key, buf[|key|..])
  {
    var t := ReadTupleGeneric(w, data, offset);
    Pow256Widths();
    assert w.Wrap(offset + w.TupleBytes()) == offset + w.TupleBytes();
    assert w.Wrap(t.first + t.second) == t.first + t.second;
    RecordFromBody(w, data, offset, t.first, t.second, buf);
  }

  /**
   * Below 2^(8W), at a well-formed record getValueAt answers exactly: the
   * value when the record's key is the query, nil otherwise.
   */
  lemma GetValueAtAt(w: Width, data: seq<Byte>, offset: nat, key: seq<Byte>, k: seq<Byte>, v: seq<Byte>)
    requires |data| <= MaxInt64 && |data| < w.Limit() && offset < w.Limit()
    requires RecordAt(w, data, offset, k, v)
    ensures GetValueAt(w, data, offset, key) == Success(if key == k then Some(v) else None)
  {
    if |key| == |k| {
      GetValueAtSameLength(w, data, offset, key, k, v);
    }
  }

  /** getValueAt at a record whose key has the query's length: the key bytes decide. */
  lemma GetValueAtSameLength(w: Width, data: seq<Byte>, offset: nat, key: seq<Byte>, k: seq<Byte>, v: seq<Byte>)
    requires |data| <= MaxInt64 && |data| < w.Limit() && offset < w.Limit()
    requires RecordAt(w, data, offset, k, v) && |key| == |k|
    ensures GetValueAt(w, data, offset, key) == Success(if key == k then Some(v) else None)
  {
    RecordTuple(w, data, offset, k, v);
    var buf := RecordBody(w, data, offset, k, v);
  }

  /** The slot i of the table at tableOffset, read at `table.offset + 2W*slot` (wrapping at W). */
  function SlotAt(w: Width, data: seq<Byte>, tableOffset: nat, i: nat): (r: Result<Slot, Error>)
    requires |data| <= MaxInt64
    ensures r.Success? ==> r.value.offset < w.Limit()
    ensures var o := tableOffset + w.TupleBytes() * i;
      o < w.Limit() && o + w.TupleBytes() <= |data| ==>
        r == Success(Slot(DecodeLE(data[o..o + w.WordBytes()]), DecodeLE(data[o + w.WordBytes()..o + w.TupleBytes()])))
    ensures var o := tableOffset + w.TupleBytes() * i;
      o < w.Limit() && o + w.TupleBytes() > |data| ==> r.Failure?
  {
    var t := ReadTupleGeneric(w, data, w.Wrap(tableOffset + w.TupleBytes() * i));
    if t.err.Some? then Failure(t.err.value) else Success(Slot(t.first, t.second))
  }

  /** The slot reader of the probe loop over the table at tableOffset. */
  function SlotReader(w: Width, data: seq<Byte>, tableOffset: nat): nat -> Result<Slot, Error>
    requires |data| <= MaxInt64
  {
    (i: nat) => SlotAt(w, data, tableOffset, i)
  }

  /** The record check of the probe loop: getValueAt at a slot's offset. */
  function ValueLooker(w: Width, data: seq<Byte>, key: seq<Byte>): nat -> Result<Option<seq<Byte>>, Error>
    requires |data| <= MaxInt64
  {
    (off: nat) => GetValueAt(w, data, w.Wrap(off), key)
  }

  /**
   * Get: nil for an empty table, otherwise the probe walk over the table
   * of bucket `hash & 0xff`; tuple read errors and getValueAt errors are
   * returned. The mode is the slot emptiness test (ZeroHash: `slotHash == 0`).
   */
  function Get(mode: EmptyTest, db: Cdb, key: seq<Byte>): (r: Result<Option<seq<Byte>>, Error>)
    requires WellFormed(db)
    ensures db.index[Bucket(CdbHash(key))].length == 0 ==> r == Success(None)
    ensures r.Success? && r.value.Some? && |db.data| < db.w.Limit() ==>
      exists off: nat :: RecordAt(db.w, db.data, off, key, r.value.value)
  {
    var h := CdbHash(key);
    var table := db.index[Bucket(h)];
    if table.length == 0 then Success(None)
    else
      var read := SlotReader(db.w, db.data, table.offset);
      var look := ValueLooker(db.w, db.data, key);
      var r := Walk(mode, table.length, h, read, look, 0);
      if r.Success? && r.value.Some? && |db.data| < db.w.Limit() then
        WalkSound(mode, table.length, h, read, look, 0);
        r
      else r
  }
}
