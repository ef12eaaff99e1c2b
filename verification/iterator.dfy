/**
 * The sequential iterators of iterator.go, Iterator (32-bit) and
 * Iterator64, as one definition parameterised by the width of the reader
 * they walk. Next is a function from the iterator state to the state after
 * the call; a Failure is a Go runtime panic.
 */
module Iterators {
  import opened Wrappers
  import opened Bytes
  import opened GoInt
  import opened GoIO
  import opened Tuple
  import Reader

  /** The fields of an Iterator: the reader, the current and end positions, the error, the current pair. */
  datatype Iterator = Iterator(
    db: Reader.Cdb, pos: nat, endPos: nat, err: Option<Error>, key: seq<Byte>, value: seq<Byte>)

  /** What the fields can hold: an open reader and W-bit positions. */
  predicate WellFormed(it: Iterator)
  {
    Reader.WellFormed(it.db) && it.pos < it.db.w.Limit() && it.endPos < it.db.w.Limit()
  }

  /**
   * Iter: start right after the header and stop at the offset of the
   * table of bucket 0, whatever that holds.
   */
  function Iter(db: Reader.Cdb): (it: Iterator)
    requires Reader.WellFormed(db)
    ensures WellFormed(it)
    ensures it.pos == db.w.IndexBytes() && it.endPos == db.index[0].offset
    ensures it.err.None? && it.key == [] && it.value == [] && it.db == db
  {
    assert db.w.IndexBytes() < db.w.Limit() by { Pow256Widths(); }
    Iterator(db, db.w.IndexBytes(), db.index[0].offset, None, [], [])
  }

  /**
   * An iterator that stops where the records end: at the smallest offset
   * of a non-empty table, or at the end of the file when every table is
   * empty (the bound All of mmap.go uses).
   */
  function IterToTables(db: Reader.Cdb): (it: Iterator)
    requires Reader.WellFormed(db) && |db.data| < db.w.Limit()
    ensures WellFormed(it)
    ensures it.pos == db.w.IndexBytes() && it.err.None? && it.db == db
    ensures it.endPos <= |db.data|
    ensures forall b :: 0 <= b < 256 && db.index[b].length > 0 ==> it.endPos <= db.index[b].offset
  {
    assert db.w.IndexBytes() < db.w.Limit() by { Pow256Widths(); }
    Iterator(db, db.w.IndexBytes(), MinTableOffset(db.index, 0, |db.data|), None, [], [])
  }

  /**
   * Next: false with nothing changed at the end position; false with the
   * error recorded when the tuple or the record body cannot be read;
   * otherwise true with the pair read at pos and pos moved past the record
   * (`pos += 2W + keyLength + valueLength`, wrapping at W).
   */
  function Next(it: Iterator): (r: Result<(bool, Iterator), Error>)
    requires WellFormed(it)
    ensures it.pos >= it.endPos ==> r == Success((false, it))
    ensures r.Success? ==> WellFormed(r.value.1) && r.value.1.db == it.db && r.value.1.endPos == it.endPos
    ensures r.Success? && !r.value.0 && it.pos < it.endPos ==>
      r.value.1.err.Some? && r.value.1 == it.(err := r.value.1.err)
    ensures r.Success? && r.value.0 && |it.db.data| < it.db.w.Limit() ==>
      var next := r.value.1;
      && RecordAt(it.db.w, it.db.data, it.pos, next.key, next.value)
      && next == it.(pos := it.pos + it.db.w.TupleBytes() + |next.key| + |next.value|, key := next.key, value := next.value)
    ensures it.pos < it.endPos && it.pos + it.db.w.TupleBytes() > |it.db.data| ==>
      r.Success? && !r.value.0
  {
    var w := it.db.w;
    var data := it.db.data;
    if it.pos >= it.endPos then Success((false, it))
    else
      var t := ReadTupleGeneric(w, data, it.pos);
      if t.err.Some? then Success((false, it.(err := t.err)))
      else match ReadAt(data, Int64Of(w.Wrap(it.pos + w.TupleBytes())), w.Wrap(t.first + t.second))
        case Failure(e) => Success((false, it.(err := Some(e))))
        case Success(buf) => Advance(it, t.first, t.second, buf)
  }

  /**
   * The end of a successful Next, once the tuple and the record body are
   * read: `buf[:keyLength]` (a panic when the wrapped body is shorter),
   * the rest of buf, and pos moved past the record.
   */
  function Advance(it: Iterator, keyLength: nat, valueLength: nat, buf: seq<Byte>): (r: Result<(bool, Iterator), Error>)
    requires WellFormed(it)
    requires ReadTupleGeneric(it.db.w, it.db.data, it.pos) == TupleRead(keyLength, valueLength, None)
    requires ReadAt(it.db.data, Int64Of(it.db.w.Wrap(it.pos + it.db.w.TupleBytes())),
                    it.db.w.Wrap(keyLength + valueLength)) == Success(buf)
    ensures r.Success? ==> r.value.0 && WellFormed(r.value.1) && r.value.1.db == it.db && r.value.1.endPos == it.endPos
    ensures r.Success? && |it.db.data| < it.db.w.Limit() ==>
      var next := r.value.1;
      && RecordAt(it.db.w, it.db.data, it.pos, next.key, next.value)
      && next == it.(pos := it.pos + it.db.w.TupleBytes() + |next.key| + |next.value|, key := next.key, value := next.value)
  {
    var w := it.db.w;
    if keyLength > |buf| then Failure(SliceOutOfRange)
    else
      var next := it.(key := buf[..keyLength], value := buf[keyLength..],
                      pos := w.Wrap(it.pos + w.TupleBytes() + keyLength + valueLength));
      if |it.db.data| < w.Limit() then
        NextFound(it, keyLength, valueLength, buf);
        Success((true, next))
      else Success((true, next))
  }

  /** What a successful step says about the bytes at pos, when the file is below 2^(8W). */
  lemma NextFound(it: Iterator, keyLength: nat, valueLength: nat, buf: seq<Byte>)
    requires WellFormed(it) && |it.db.data| < it.db.w.Limit()
    requires ReadTupleGeneric(it.db.w, it.db.data, it.pos) == TupleRead(keyLength, valueLength, None)
    requires ReadAt(it.db.data, Int64Of(it.db.w.Wrap(it.pos + it.db.w.TupleBytes())),
                    it.db.w.Wrap(keyLength + valueLength)) == Success(buf)
    requires keyLength <= |buf|
    ensures RecordAt(it.db.w, it.db.data, it.pos, buf[..keyLength], buf[keyLength..])
    ensures |buf| == keyLength + valueLength
    ensures it.db.w.Wrap(it.pos + it.db.w.TupleBytes() + keyLength + valueLength) ==
            it.pos + it.db.w.TupleBytes() + keyLength + valueLength
  {
    var w, data := it.db.w, it.db.data;
    var start := it.pos + w.TupleBytes();
    Pow256Widths();
    assert w.Wrap(start) == start;
    assert w.Wrap(keyLength + valueLength) == keyLength + valueLength;
    assert buf == data[start..start + keyLength + valueLength];
    RecordFromBody(w, data, it.pos, keyLength, valueLength, buf);
  }

  /** Next reads every well-formed record before the end position, whatever it holds. */
  lemma NextFinds(it: Iterator, key: seq<Byte>, value: seq<Byte>)
    requires WellFormed(it) && |it.db.data| < it.db.w.Limit()
    requires it.pos < it.endPos && RecordAt(it.db.w, it.db.data, it.pos, key, value)
    ensures Next(it) == Success((true, it.(pos := it.pos + it.db.w.TupleBytes() + |key| + |value|, key := key, value := value)))
  {
    var r := Next(it);
    NextSucceeds(it, key, value);
    RecordAtUnique(it.db.w, it.db.data, it.pos, key, value, r.value.1.key, r.value.1.value);
  }

  /** Before the end position, Next steps over a well-formed record. */
  lemma NextSucceeds(it: Iterator, key: seq<Byte>, value: seq<Byte>)
    requires WellFormed(it) && |it.db.data| < it.db.w.Limit()
    requires it.pos < it.endPos && RecordAt(it.db.w, it.db.data, it.pos, key, value)
    ensures Next(it).Success? && Next(it).value.0
  {
    RecordTuple(it.db.w, it.db.data, it.pos, key, value);
    var buf := RecordBody(it.db.w, it.db.data, it.pos, key, value);
  }

  /**
   * The loop `for it.Next() { ... }` run to the end: the pairs it sees in
   * order, and the iterator it stops with. Below 2^(8W) every step moves
   * pos forward, so the loop ends.
   */
  function Collect(it: Iterator): (r: Result<(seq<(seq<Byte>, seq<Byte>)>, Iterator), Error>)
    requires WellFormed(it) && |it.db.data| < it.db.w.Limit()
    ensures r.Success? ==> r.value.1.db == it.db && r.value.1.endPos == it.endPos
    ensures it.pos >= it.endPos ==> r == Success(([], it))
    decreases it.db.w.Limit() - it.pos
  {
    var (more, next) :- Next(it);
    if !more then Success(([], next))
    else
      var (rest, last) :- Collect(next);
      Success(([(next.key, next.value)] + rest, last))
  }

  /** Over records laid back to back from pos to endPos, the loop sees exactly them. */
  lemma {:induction false} CollectComplete(it: Iterator, pairs: seq<(seq<Byte>, seq<Byte>)>)
    requires WellFormed(it) && |it.db.data| < it.db.w.Limit()
    requires Contiguous(it.db.w, it.db.data, it.pos, it.endPos, pairs)
    ensures Collect(it).Success? && Collect(it).value.0 == pairs
    decreases |pairs|
  {
    ContiguousEnd(it.db.w, it.db.data, it.pos, it.endPos, pairs);
    if |pairs| > 0 {
      var k, v := pairs[0].0, pairs[0].1;
      var next := it.(pos := it.pos + it.db.w.TupleBytes() + |k| + |v|, key := k, value := v);
      NextFinds(it, k, v);
      assert Next(it) == Success((true, next));
      CollectComplete(next, pairs[1..]);
      HeadTail(pairs);
    }
  }

  /**
   * Every pair the loop sees is a record, at increasing offsets from pos on
   * and below endPos.
   */
  lemma {:induction false} CollectSound(it: Iterator) returns (offs: seq<nat>)
    requires WellFormed(it) && |it.db.data| < it.db.w.Limit()
    requires Collect(it).Success?
    ensures RecordsAt(it.db.w, it.db.data, it.pos, it.endPos, Collect(it).value.0, offs)
    decreases it.db.w.Limit() - it.pos
  {
    var step := Next(it).value;
    if !step.0 {
      offs := [];
    } else {
      var next := step.1;
      var tail := Collect(next).value.0;
      assert Collect(it).value.0 == [(next.key, next.value)] + tail;
      var rest := CollectSound(next);
      RecordsAtCons(it.db.w, it.db.data, it.pos, it.endPos, it.pos, next.pos, next.key, next.value, tail, rest);
      offs := [it.pos] + rest;
    }
  }
}
