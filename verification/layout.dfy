/**
 * The file a Writer produces from a sequence of records: the header, the
 * records in Put order, then one table per non-empty bucket in bucket
 * order. The functions here name the parts of that layout, and the lemmas
 * state where each part sits in the finished file.
 */
module Layout {
  import opened Wrappers
  import opened Bytes
  import opened GoInt
  import opened GoIO
  import opened Hash
  import opened Tuple
  import opened ProbeTable
  import opened Writer

  /** A (key, value) record as passed to Put. */
  type Pair = (seq<Byte>, seq<Byte>)

  /** The bytes Put streams for recs, one record after another. */
  function Data(recs: seq<Pair>): (r: seq<Byte>)
    ensures |recs| == 0 ==> r == []
  {
    if |recs| == 0 then []
    else Data(recs[..|recs| - 1]) + Record(recs[|recs| - 1].0, recs[|recs| - 1].1)
  }

  /** Where record i starts: after the header and the records before it. */
  function OffsetOf(recs: seq<Pair>, i: nat): nat
    requires i <= |recs|
  {
    IndexSize + |Data(recs[..i])|
  }

  /** Record i+1 starts right after record i. */
  lemma OffsetNext(recs: seq<Pair>, i: nat)
    requires i < |recs|
    ensures OffsetOf(recs, i + 1) == OffsetOf(recs, i) + 16 + |recs[i].0| + |recs[i].1|
  {
    assert recs[..i + 1][..i] == recs[..i];
  }

  /** The entry Put files for record i: its hash and its offset. */
  function SlotOf(recs: seq<Pair>, i: nat): Slot
    requires i < |recs|
  {
    Slot(CdbHash(recs[i].0), OffsetOf(recs, i))
  }

  /** The entries of bucket b after Put of every record, in Put order. */
  function EntriesOf(recs: seq<Pair>, b: nat): seq<Slot>
  {
    if |recs| == 0 then []
    else
      var n := |recs| - 1;
      EntriesOf(recs[..n], b) + (if Bucket(CdbHash(recs[n].0)) == b then [SlotOf(recs, n)] else [])
  }

  /** The index of the earliest record whose key is key. */
  function FirstIndex(recs: seq<Pair>, key: seq<Byte>): (r: Option<nat>)
    ensures r.Some? ==> r.value < |recs| && recs[r.value].0 == key
    ensures r.Some? ==> forall j :: 0 <= j < r.value ==> recs[j].0 != key
    ensures r.None? ==> forall j :: 0 <= j < |recs| ==> recs[j].0 != key
  {
    if |recs| == 0 then None
    else if recs[0].0 == key then Some(0)
    else match FirstIndex(recs[1..], key)
      case None => None
      case Some(j) => Some(j + 1)
  }

  /**
   * What a database built from recs should answer for key: the value of
   * the earliest record with that key, or nothing.
   */
  function Lookup(recs: seq<Pair>, key: seq<Byte>): Option<seq<Byte>>
  {
    match FirstIndex(recs, key)
    case None => None
    case Some(i) => Some(recs[i].1)
  }

  // ---- Prefixes ----

  /** Offsets and entries of the records of a prefix do not depend on what follows. */
  lemma SlotOfPrefix(recs: seq<Pair>, n: nat, i: nat)
    requires i < n <= |recs|
    ensures SlotOf(recs[..n], i) == SlotOf(recs, i)
  {
    assert recs[..n][..i] == recs[..i];
  }

  /** Appending a record keeps an earlier first occurrence, or adds the new record as the first. */
  lemma {:induction false} FirstIndexSnoc(recs: seq<Pair>, key: seq<Byte>)
    requires |recs| > 0
    ensures var n := |recs| - 1;
      FirstIndex(recs, key) ==
        if FirstIndex(recs[..n], key).Some? then FirstIndex(recs[..n], key)
        else if recs[n].0 == key then Some(n) else None
  {
    var n := |recs| - 1;
    if n > 0 {
      assert recs[..n][0] == recs[0];
      if recs[0].0 != key {
        assert recs[1..][..n - 1] == recs[..n][1..];
        FirstIndexSnoc(recs[1..], key);
      }
    }
  }

  /** Record i lies inside the data: the records before it, its own bytes, then the rest. */
  lemma {:induction false} DataSplit(recs: seq<Pair>, i: nat) returns (tail: seq<Byte>)
    requires i < |recs|
    ensures Data(recs) == Data(recs[..i]) + Record(recs[i].0, recs[i].1) + tail
  {
    var n := |recs| - 1;
    if i == n {
      tail := [];
    } else {
      var tail' := DataSplit(recs[..n], i);
      assert recs[..n][..i] == recs[..i];
      tail := tail' + Record(recs[n].0, recs[n].1);
    }
  }

  /** Every entry of bucket b is the entry of some record in bucket b. */
  lemma {:induction false} EntriesOfSound(recs: seq<Pair>, b: nat, j: nat) returns (i: nat)
    requires j < |EntriesOf(recs, b)|
    ensures i < |recs| && Bucket(CdbHash(recs[i].0)) == b && EntriesOf(recs, b)[j] == SlotOf(recs, i)
  {
    var n := |recs| - 1;
    if j < |EntriesOf(recs[..n], b)| {
      i := EntriesOfSound(recs[..n], b, j);
      SlotOfPrefix(recs, n, i);
    } else {
      i := n;
    }
  }

  /** Every record in bucket b has its entry in bucket b. */
  lemma {:induction false} EntriesOfComplete(recs: seq<Pair>, b: nat, i: nat)
    requires i < |recs| && Bucket(CdbHash(recs[i].0)) == b
    ensures SlotOf(recs, i) in EntriesOf(recs, b)
  {
    var n := |recs| - 1;
    if i < n {
      EntriesOfComplete(recs[..n], b, i);
      SlotOfPrefix(recs, n, i);
    }
  }

  /**
   * For a test that accepts the entry of record i exactly when record i
   * has the query key, the first accepted entry of the query's bucket is
   * the entry of the earliest record with that key.
   */
  lemma {:induction false} EntriesFirstMatch(recs: seq<Pair>, key: seq<Byte>, isMatch: Slot -> bool)
    requires forall i :: 0 <= i < |recs| ==> (isMatch(SlotOf(recs, i)) <==> recs[i].0 == key)
    ensures var es := EntriesOf(recs, Bucket(CdbHash(key)));
            var fm := FirstMatch(es, isMatch);
            var fi := FirstIndex(recs, key);
            && (fm.Some? <==> fi.Some?)
            && (fm.Some? ==> es[fm.value] == SlotOf(recs, fi.value))
  {
    var b := Bucket(CdbHash(key));
    if |recs| > 0 {
      var n := |recs| - 1;
      var prefix := recs[..n];
      forall i | 0 <= i < |prefix|
        ensures isMatch(SlotOf(prefix, i)) <==> prefix[i].0 == key
      {
        SlotOfPrefix(recs, n, i);
      }
      EntriesFirstMatch(prefix, key, isMatch);
      FirstIndexSnoc(recs, key);
      var es' := EntriesOf(prefix, b);
      if Bucket(CdbHash(recs[n].0)) == b {
        FirstMatchSnoc(es', SlotOf(recs, n), isMatch);
        if FirstIndex(prefix, key).Some? {
          SlotOfPrefix(recs, n, FirstIndex(prefix, key).value);
          assert (es' + [SlotOf(recs, n)])[FirstMatch(es', isMatch).value] == es'[FirstMatch(es', isMatch).value];
        }
      } else {
        assert EntriesOf(recs, b) == es';
        if FirstIndex(prefix, key).Some? {
          SlotOfPrefix(recs, n, FirstIndex(prefix, key).value);
        }
      }
    }
  }

  // ---- The writer after Put of every record ----

  /** The writer after Put of every record of recs, from a new writer. */
  ghost predicate Shaped(w: Writer, recs: seq<Pair>)
  {
    && |w.file| == IndexSize + |Data(recs)|
    && w.file[IndexSize..] == Data(recs)
    && Total(w.entries) == |recs|
    && !w.finalized
    && |w.entries| == Buckets
    && forall b {:trigger EntriesOf(recs, b)} :: 0 <= b < Buckets ==> w.entries[b] == EntriesOf(recs, b)
  }

  /**
   * PutAll from a new writer streams the records after the reserved
   * header and files the entry of record i under its bucket.
   */
  lemma {:induction false} PutAllShape(recs: seq<Pair>)
    requires PutAll(NewWriter(), recs).Success?
    ensures Shaped(PutAll(NewWriter(), recs).value, recs)
  {
    if |recs| > 0 {
      PutAllShape(recs[..|recs| - 1]);
      var w1 := PutAllLast(recs);
      PutShape(w1, recs);
    }
  }

  /** PutAll of a non-empty sequence is one Put after PutAll of all but the last record. */
  lemma PutAllLast(recs: seq<Pair>) returns (w1: Writer)
    requires |recs| > 0 && PutAll(NewWriter(), recs).Success?
    ensures PutAll(NewWriter(), recs[..|recs| - 1]) == Success(w1) && Valid(w1)
    ensures PutAll(NewWriter(), recs) == Put(w1, recs[|recs| - 1].0, recs[|recs| - 1].1)
  {
    w1 := PutAll(NewWriter(), recs[..|recs| - 1]).value;
  }

  /** One Put extends the shape by the last record. */
  lemma PutShape(w1: Writer, recs: seq<Pair>)
    requires |recs| > 0 && Valid(w1)
    requires Shaped(w1, recs[..|recs| - 1])
    requires Put(w1, recs[|recs| - 1].0, recs[|recs| - 1].1).Success?
    ensures Shaped(Put(w1, recs[|recs| - 1].0, recs[|recs| - 1].1).value, recs)
  {
    var n := |recs| - 1;
    var w := Put(w1, recs[n].0, recs[n].1).value;
    PutFile(w1.file, w.file, recs);
    PutEntries(w1, w, recs);
  }

  /** The file after one more Put holds the records of the longer sequence. */
  lemma PutFile(f1: seq<Byte>, f: seq<Byte>, recs: seq<Pair>)
    requires |recs| > 0
    requires |f1| == IndexSize + |Data(recs[..|recs| - 1])| && f1[IndexSize..] == Data(recs[..|recs| - 1])
    requires f == f1 + Record(recs[|recs| - 1].0, recs[|recs| - 1].1)
    ensures |f| == IndexSize + |Data(recs)| && f[IndexSize..] == Data(recs)
    ensures |f1| == OffsetOf(recs, |recs| - 1)
  {
    var n := |recs| - 1;
    var rec := Record(recs[n].0, recs[n].1);
    assert Data(recs) == Data(recs[..n]) + rec;
    assert f[IndexSize..] == f1[IndexSize..] + rec;
  }

  /** The entries after one more Put are the entries of the longer record sequence. */
  lemma PutEntries(w1: Writer, w: Writer, recs: seq<Pair>)
    requires |recs| > 0 && |w1.entries| == Buckets && |w.entries| == Buckets
    requires forall c :: 0 <= c < Buckets ==> w1.entries[c] == EntriesOf(recs[..|recs| - 1], c)
    requires |w1.file| == OffsetOf(recs, |recs| - 1)
    requires var key := recs[|recs| - 1].0;
      var b := Bucket(CdbHash(key));
      && w.entries[b] == w1.entries[b] + [Slot(CdbHash(key), |w1.file|)]
      && forall c :: 0 <= c < Buckets && c != b ==> w.entries[c] == w1.entries[c]
    ensures forall c :: 0 <= c < Buckets ==> w.entries[c] == EntriesOf(recs, c)
  {
  }

  /**
   * Create a writer, Put every record, finalize: the bytes of the finished
   * database, or the error of the first Put that does not fit.
   */
  function Build(mode: EmptyTest, recs: seq<Pair>): (r: Result<seq<Byte>, Error>)
    ensures r.Success? <==> PutAll(NewWriter(), recs).Success?
    ensures r.Failure? ==> r.error == TooMuchData
    ensures r.Success? ==> |r.value| == IndexSize + |Data(recs)| + 32 * |recs| <= MaxInt64
  {
    var w :- PutAll(NewWriter(), recs);
    FinalizeSucceeds(mode, w);
    PutAllShape(recs);
    Success(Finalize(mode, w).value.file)
  }

  // ---- The finished file ----

  /**
   * The header bytes of bucket b: its table offset and its slot count
   * 2·len(entries[b]), as uint64.
   */
  lemma {:induction false} HeaderAt(offs: seq<nat>, entries: seq<seq<Slot>>, b: nat)
    requires |offs| == |entries| && b < |entries|
    ensures Header(offs, entries)[16 * b..16 * b + 8] == EncodeLE(offs[b], 8)
    ensures Header(offs, entries)[16 * b + 8..16 * b + 16] == EncodeLE(2 * |entries[b]|, 8)
  {
    var e1, e2 := EncodeLE(offs[0], 8), EncodeLE(2 * |entries[0]|, 8);
    var rest := Header(offs[1..], entries[1..]);
    assert Header(offs, entries) == e1 + e2 + rest;
    if b > 0 {
      HeaderAt(offs[1..], entries[1..], b - 1);
      SliceOfSuffix(e1 + e2, rest, 16 * b, 8, EncodeLE(offs[b], 8));
      SliceOfSuffix(e1 + e2, rest, 16 * b + 8, 8, EncodeLE(2 * |entries[b]|, 8));
    } else {
      SliceOfPrefix(e1 + e2, rest, 0, 8, e1);
      SliceOfPrefix(e1 + e2, rest, 8, 8, e2);
    }
  }

  /** Slot s of a table, written as a (hash, offset) uint64 pair at 16·s. */
  lemma {:induction false} TableBytesAt(t: seq<Slot>, s: nat)
    requires s < |t|
    ensures TableBytes(t)[16 * s..16 * s + 16] == WriteTuple64(t[s].hash, t[s].offset)
  {
    var head := WriteTuple64(t[0].hash, t[0].offset);
    var rest := TableBytes(t[1..]);
    assert TableBytes(t) == head + rest;
    if s > 0 {
      TableBytesAt(t[1..], s - 1);
      SliceOfSuffix(head, rest, 16 * s, 16, WriteTuple64(t[s].hash, t[s].offset));
    } else {
      SliceOfPrefix(head, rest, 0, 16, head);
    }
  }

  /**
   * Where the table of a bucket with entries es sits in the bytes appended
   * from position off: nowhere (offset 0) for no entries, else the bytes
   * of its table at its offset.
   */
  ghost predicate TableIn(mode: EmptyTest, es: seq<Slot>, off: nat, bytes: seq<Byte>, o: nat)
  {
    if |es| == 0 then o == 0
    else
      && off <= o && o - off + 32 * |es| <= |bytes|
      && BuildTable(mode, es).Some?
      && bytes[o - off..o - off + 32 * |es|] == TableBytes(BuildTable(mode, es).value)
  }

  /**
   * The bytes and offsets the table loop produces from position off: each
   * non-empty bucket's table at the offset recorded for it, 0 recorded for
   * the others, the tables back to back in bucket order (a table starts
   * 32 bytes per entry of the earlier buckets after off), and the first
   * table right at off (bucket 0's, when it has one).
   */
  ghost predicate TablesSpan(mode: EmptyTest, entries: seq<seq<Slot>>, off: nat, bytes: seq<Byte>, offs: seq<nat>)
  {
    && |offs| == |entries| && |bytes| == 32 * Total(entries)
    && (forall b {:trigger TableIn(mode, entries[b], off, bytes, offs[b])} ::
          0 <= b < |entries| ==> TableIn(mode, entries[b], off, bytes, offs[b]))
    && (forall b :: 0 <= b < |entries| && |entries[b]| > 0 ==> offs[b] == off + 32 * Total(entries[..b]))
    && (Total(entries) > 0 ==> exists b :: 0 <= b < |entries| && |entries[b]| > 0 && offs[b] == off)
    && (|entries| > 0 && |entries[0]| > 0 ==> offs[0] == off)
  }

  /** The table loop lays its tables out as TablesSpan says. */
  lemma {:induction false} TablesAt(mode: EmptyTest, entries: seq<seq<Slot>>, off: nat) returns (bytes: seq<Byte>, offs: seq<nat>)
    ensures Tables(mode, entries, off) == Success((bytes, offs))
    ensures TablesSpan(mode, entries, off, bytes, offs)
    decreases |entries|
  {
    if |entries| == 0 {
      bytes, offs := [], [];
    } else if |entries[0]| == 0 {
      var bytes', offs' := TablesAt(mode, entries[1..], off);
      bytes, offs := TablesSkip(mode, entries, off, bytes', offs');
    } else {
      var t := TablesPlaceSize(mode, entries);
      var bytes', offs' := TablesAt(mode, entries[1..], off + 16 * |t|);
      bytes, offs := TablesPlace(mode, entries, off, t, bytes', offs');
    }
  }

  /** The table loop over an empty first bucket, from the loop over the rest. */
  lemma TablesSkip(mode: EmptyTest, entries: seq<seq<Slot>>, off: nat, bytes': seq<Byte>, offs': seq<nat>)
    returns (bytes: seq<Byte>, offs: seq<nat>)
    requires |entries| > 0 && |entries[0]| == 0
    requires Tables(mode, entries[1..], off) == Success((bytes', offs'))
    requires TablesSpan(mode, entries[1..], off, bytes', offs')
    ensures Tables(mode, entries, off) == Success((bytes, offs))
    ensures TablesSpan(mode, entries, off, bytes, offs)
  {
    bytes, offs := bytes', [0] + offs';
    TablesSkipStep(mode, entries, off, bytes', offs');
    SkipEmpty(mode, entries, off, bytes', offs');
  }

  /** The table loop over a non-empty first bucket, from the loop over the rest. */
  lemma TablesPlace(mode: EmptyTest, entries: seq<seq<Slot>>, off: nat, t: seq<Slot>, bytes': seq<Byte>, offs': seq<nat>)
    returns (bytes: seq<Byte>, offs: seq<nat>)
    requires |entries| > 0 && |entries[0]| > 0
    requires BuildTable(mode, entries[0]) == Some(t) && |t| == 2 * |entries[0]|
    requires Tables(mode, entries[1..], off + 16 * |t|) == Success((bytes', offs'))
    requires TablesSpan(mode, entries[1..], off + 16 * |t|, bytes', offs')
    ensures Tables(mode, entries, off) == Success((bytes, offs))
    ensures TablesSpan(mode, entries, off, bytes, offs)
  {
    bytes, offs := TableBytes(t) + bytes', [off] + offs';
    TablesPlaceStep(mode, entries, off, t, bytes', offs');
    PlaceFirst(mode, entries, off, bytes', offs');
  }

  /** One turn of the table loop over an empty bucket. */
  lemma TablesSkipStep(mode: EmptyTest, entries: seq<seq<Slot>>, off: nat, bytes: seq<Byte>, offs: seq<nat>)
    requires |entries| > 0 && |entries[0]| == 0
    requires Tables(mode, entries[1..], off) == Success((bytes, offs))
    ensures Tables(mode, entries, off) == Success((bytes, [0] + offs))
  {
  }

  /** The table of a non-empty bucket is built, with twice as many slots as entries. */
  lemma TablesPlaceSize(mode: EmptyTest, entries: seq<seq<Slot>>) returns (t: seq<Slot>)
    requires |entries| > 0 && |entries[0]| > 0
    ensures BuildTable(mode, entries[0]) == Some(t) && |t| == 2 * |entries[0]|
  {
    NeverFull(mode, entries[0]);
    t := BuildTable(mode, entries[0]).value;
  }

  /** One turn of the table loop over a non-empty bucket. */
  lemma TablesPlaceStep(mode: EmptyTest, entries: seq<seq<Slot>>, off: nat, t: seq<Slot>, bytes: seq<Byte>, offs: seq<nat>)
    requires |entries| > 0 && |entries[0]| > 0 && BuildTable(mode, entries[0]) == Some(t)
    requires Tables(mode, entries[1..], off + 16 * |t|) == Success((bytes, offs))
    ensures Tables(mode, entries, off) == Success((TableBytes(t) + bytes, [off] + offs))
  {
  }

  /** An empty first bucket records offset 0 and writes nothing. */
  lemma SkipEmpty(mode: EmptyTest, entries: seq<seq<Slot>>, off: nat, bytes: seq<Byte>, offs: seq<nat>)
    requires |entries| > 0 && |entries[0]| == 0
    requires TablesSpan(mode, entries[1..], off, bytes, offs)
    ensures TablesSpan(mode, entries, off, bytes, [0] + offs)
  {
    var offs0 := [0] + offs;
    assert Total(entries) == Total(entries[1..]);
    assert forall b :: 1 <= b < |entries| ==> entries[b] == entries[1..][b - 1] && offs0[b] == offs[b - 1];
    forall b | 0 <= b < |entries| && |entries[b]| > 0
      ensures offs0[b] == off + 32 * Total(entries[..b])
    {
      TotalPrefixStep(entries, b);
    }
    if Total(entries) > 0 {
      var c :| 0 <= c < |entries[1..]| && |entries[1..][c]| > 0 && offs[c] == off;
      assert offs0[c + 1] == off;
    }
  }

  /** A non-empty first bucket has its table at off, and the rest follow it. */
  lemma PlaceFirst(mode: EmptyTest, entries: seq<seq<Slot>>, off: nat, bytes: seq<Byte>, offs: seq<nat>)
    requires |entries| > 0 && |entries[0]| > 0
    requires BuildTable(mode, entries[0]).Some? && |BuildTable(mode, entries[0]).value| == 2 * |entries[0]|
    requires TablesSpan(mode, entries[1..], off + 32 * |entries[0]|, bytes, offs)
    ensures TablesSpan(mode, entries, off, TableBytes(BuildTable(mode, entries[0]).value) + bytes, [off] + offs)
  {
    var off' := off + 32 * |entries[0]|;
    var head := TableBytes(BuildTable(mode, entries[0]).value);
    var all, offs0 := head + bytes, [off] + offs;
    assert Total(entries) == |entries[0]| + Total(entries[1..]);
    assert all[0..32 * |entries[0]|] == head;
    assert TableIn(mode, entries[0], off, all, offs0[0]);
    forall b | 1 <= b < |entries|
      ensures TableIn(mode, entries[b], off, all, offs0[b])
    {
      assert entries[b] == entries[1..][b - 1] && offs0[b] == offs[b - 1];
      TableInShift(mode, entries[b], off, head, bytes, offs0[b]);
    }
    forall b | 0 <= b < |entries| && |entries[b]| > 0
      ensures offs0[b] == off + 32 * Total(entries[..b])
    {
      if b == 0 {
        assert entries[..0] == [];
      } else {
        assert entries[b] == entries[1..][b - 1] && offs0[b] == offs[b - 1];
        TotalPrefixStep(entries, b);
      }
    }
  }

  /** The entries of the first b buckets: those of bucket 0 and of the b - 1 after it. */
  lemma TotalPrefixStep(entries: seq<seq<Slot>>, b: nat)
    requires 1 <= b <= |entries|
    ensures Total(entries[..b]) == |entries[0]| + Total(entries[1..][..b - 1])
  {
    assert entries[..b][1..] == entries[1..][..b - 1];
  }

  /** A bucket's entries are among those of every longer prefix of the buckets. */
  lemma {:induction false} TotalPrefixGrows(entries: seq<seq<Slot>>, b: nat, c: nat)
    requires b < c <= |entries|
    ensures Total(entries[..b]) + |entries[b]| <= Total(entries[..c])
  {
    TotalPrefixStep(entries, c);
    if b == 0 {
      assert entries[..0] == [];
    } else {
      TotalPrefixStep(entries, b);
      TotalPrefixGrows(entries[1..], b - 1, c - 1);
    }
  }

  /**
   * The tables of two non-empty buckets do not overlap, and the one of the
   * earlier bucket comes first.
   */
  lemma TablesInOrder(mode: EmptyTest, entries: seq<seq<Slot>>, off: nat, bytes: seq<Byte>, offs: seq<nat>, b: nat, c: nat)
    requires TablesSpan(mode, entries, off, bytes, offs)
    requires b < c < |entries| && |entries[b]| > 0 && |entries[c]| > 0
    ensures offs[b] + 32 * |entries[b]| <= offs[c]
  {
    TotalPrefixGrows(entries, b, c);
  }

  /** Bytes written in front of a table move it by their length. */
  lemma TableInShift(mode: EmptyTest, es: seq<Slot>, off: nat, head: seq<Byte>, bytes: seq<Byte>, o: nat)
    requires TableIn(mode, es, off + |head|, bytes, o)
    ensures TableIn(mode, es, off, head + bytes, o)
  {
    if |es| > 0 {
      var off' := off + |head|;
      assert (head + bytes)[o - off..o - off + 32 * |es|] == bytes[o - off'..o - off' + 32 * |es|];
    }
  }

  /** The pieces of the file Build returns for recs, and the facts that tie them together. */
  lemma BuildLayout(mode: EmptyTest, recs: seq<Pair>) returns (w: Writer, bytes: seq<Byte>, offs: seq<nat>)
    requires PutAll(NewWriter(), recs).Success?
    ensures PutAll(NewWriter(), recs) == Success(w) && Valid(w) && Shaped(w, recs)
    ensures TablesSpan(mode, w.entries, |w.file|, bytes, offs)
    ensures Build(mode, recs) == Success(Header(offs, w.entries) + Data(recs) + bytes)
  {
    w := PutAll(NewWriter(), recs).value;
    PutAllShape(recs);
    bytes, offs := TablesAt(mode, w.entries, |w.file|);
    FinalizeSucceeds(mode, w);
    assert w.file[IndexSize..] == Data(recs);
    FinalizedFile(mode, w, bytes, offs);
  }

  /** doFinalize writes the header, keeps the records, and appends the tables. */
  lemma FinalizedFile(mode: EmptyTest, w: Writer, bytes: seq<Byte>, offs: seq<nat>)
    requires Valid(w) && !w.finalized
    requires Tables(mode, w.entries, |w.file|) == Success((bytes, offs))
    ensures Finalize(mode, w).Success?
    ensures Finalize(mode, w).value.file == Header(offs, w.entries) + w.file[IndexSize..] + bytes
  {
  }
}
