/**
 * The write half of the 64-bit format (writer.go): a header reserved at
 * the head of the output, records streamed after it by Put, and one
 * open-addressed table per bucket appended by doFinalize, which then
 * writes the real header over the reserved one.
 *
 * The output stream is the sequence `file` of bytes written so far, with
 * `streamPos` the position of the underlying io.WriteSeeker where the next
 * bytes land; the buffering of the source is transparent to its contents.
 */
module Writer {
  import opened Wrappers
  import opened Bytes
  import opened GoInt
  import opened GoIO
  import opened Hash
  import opened Tuple
  import opened ProbeTable

  /** `indexSize` of writer.go: 256 (offset, length) pairs of two uint64. */
  const IndexSize: nat := 256 * 16

  /** The 256 buckets of `entries`. */
  const Buckets: nat := 256

  /**
   * The Writer struct: everything written so far and where the next write
   * lands, the per-bucket entries, the stream position, the running footer
   * estimate, and whether the `sync.Once` of finalize has fired.
   */
  datatype Writer = Writer(
    file: seq<Byte>,
    streamPos: nat,
    entries: seq<seq<Slot>>,
    bufferedOffset: int,
    estimatedFooterSize: int,
    finalized: bool)

  /** Sum of f(|entries[b]|) over the buckets. */
  function SumBy(entries: seq<seq<Slot>>, f: nat -> nat): (r: nat)
  {
    if |entries| == 0 then 0 else f(|entries[0]|) + SumBy(entries[1..], f)
  }

  function Id(n: nat): nat { n }

  /** The number of entries over all buckets: the records put so far. */
  function Total(entries: seq<seq<Slot>>): nat
  {
    SumBy(entries, Id)
  }

  /**
   * The footer estimate Put accumulates for a bucket of n entries:
   * 16 per entry, plus 16·k whenever the bucket reaches a power of two k.
   */
  function BucketEstimate(n: nat): nat
  {
    if n == 0 then 0
    else BucketEstimate(n - 1) + 16 + (if IsPow2(n) then 16 * n else 0)
  }

  function Estimate(entries: seq<seq<Slot>>): nat
  {
    SumBy(entries, BucketEstimate)
  }

  /**
   * The states NewWriter and successful Puts reach: the position is the
   * length of the output, the estimate is the sum of the bucket estimates,
   * and the file finalize would produce (data plus 32 bytes per entry of
   * tables) still fits in an int64.
   */
  ghost predicate Valid(w: Writer)
  {
    && |w.entries| == Buckets
    && IndexSize <= |w.file|
    && w.bufferedOffset == |w.file|
    && w.streamPos == |w.file|
    && w.estimatedFooterSize == Estimate(w.entries)
    && |w.file| + 32 * Total(w.entries) <= MaxInt64
    && EntriesWithin(w.entries, |w.file|)
  }

  /**
   * What every writer the API hands out satisfies, finalised or not: 256
   * buckets, a stream position inside the output, and a non-negative
   * bufferedOffset.
   */
  ghost predicate Usable(w: Writer)
  {
    |w.entries| == Buckets && w.streamPos <= |w.file| && 0 <= w.bufferedOffset
  }

  /** Every entry of bucket b has a 32-bit hash of bucket b and points at a record before end. */
  ghost predicate EntriesWithin(entries: seq<seq<Slot>>, end: nat)
    requires |entries| == Buckets
  {
    forall b, j :: 0 <= b < Buckets && 0 <= j < |entries[b]| ==>
      entries[b][j].hash < TwoTo32 && Bucket(entries[b][j].hash) == b &&
      IndexSize <= entries[b][j].offset < end
  }

  /** Appending an entry for a record at the old end keeps every entry within the new end. */
  lemma AppendWithin(entries: seq<seq<Slot>>, end: nat, end': nat, h: nat)
    requires |entries| == Buckets && EntriesWithin(entries, end)
    requires h < TwoTo32 && IndexSize <= end < end'
    ensures EntriesWithin(entries[Bucket(h) := entries[Bucket(h)] + [Slot(h, end)]], end')
  {
    var b := Bucket(h);
    var entries': seq<seq<Slot>> := entries[b := entries[b] + [Slot(h, end)]];
    forall c: int, j: int | 0 <= c < Buckets && 0 <= j < |entries'[c]|
      ensures entries'[c][j].hash < TwoTo32 && Bucket(entries'[c][j].hash) == c
      ensures IndexSize <= entries'[c][j].offset < end'
    {
      if c != b || j < |entries[b]| {
        assert entries'[c][j] == entries[c][j];
      }
    }
  }

  /** NewWriter: a zeroed header reserved, nothing else written, no entries. */
  function NewWriter(): (w: Writer)
    ensures Valid(w) && !w.finalized
    ensures w.file == Zeros(IndexSize) && w.bufferedOffset == IndexSize
    ensures Total(w.entries) == 0 && w.estimatedFooterSize == 0
  {
    var w := Writer(Zeros(IndexSize), IndexSize, seq(Buckets, _ => []), IndexSize, 0, false);
    SumOfEmpty(w.entries, Id);
    SumOfEmpty(w.entries, BucketEstimate);
    w
  }

  /** The bytes of one record: the two lengths as uint64, the key, the value. */
  function Record(key: seq<Byte>, value: seq<Byte>): (r: seq<Byte>)
    ensures |r| == 16 + |key| + |value|
  {
    WriteTuple64(|key|, |value|) + key + value
  }

  /**
   * Put. The size guard compares the mathematical sum (see
   * Findings.TooMuchDataAsWritten for the int64 comparison the source makes).
   * Put does not look at the finalized flag, as in the source: on a
   * finalised writer the record goes where the stream stands, and its
   * entry is filed but no table is ever written for it (PutAfterFinalize).
   */
  function Put(w: Writer, key: seq<Byte>, value: seq<Byte>): (r: Result<Writer, Error>)
    requires Usable(w)
    ensures r.Failure? <==>
      w.bufferedOffset + (16 + |key| + |value|) + w.estimatedFooterSize + 32 > MaxInt64
    ensures r.Failure? ==> r.error == TooMuchData
    ensures r.Success? ==> Usable(r.value) && r.value.finalized == w.finalized
    ensures r.Success? ==>
      && r.value.file == WriteAt(w.file, w.streamPos, Record(key, value))
      && r.value.streamPos == w.streamPos + |Record(key, value)|
      && r.value.bufferedOffset == w.bufferedOffset + |Record(key, value)|
    ensures r.Success? && Valid(w) ==> Valid(r.value) && r.value.file == w.file + Record(key, value)
    ensures r.Success? ==> Total(r.value.entries) == Total(w.entries) + 1
    ensures r.Success? ==>
      var b := Bucket(CdbHash(key));
      && r.value.entries[b] == w.entries[b] + [Slot(CdbHash(key), w.bufferedOffset)]
      && forall c :: 0 <= c < Buckets && c != b ==> r.value.entries[c] == w.entries[c]
  {
    var entrySize := 16 + |key| + |value|;
    if w.bufferedOffset + entrySize + w.estimatedFooterSize + 32 > MaxInt64 then
      Failure(TooMuchData)
    else
      var h := CdbHash(key);
      var b := Bucket(h);
      var entries := w.entries[b := w.entries[b] + [Slot(h, w.bufferedOffset)]];
      var n := |entries[b]|;
      var footer := w.estimatedFooterSize + 16 + (if BitAnd(n, n - 1) == 0 then 16 * n else 0);
      var w' := Writer(WriteAt(w.file, w.streamPos, Record(key, value)), w.streamPos + entrySize,
                       entries, w.bufferedOffset + entrySize, footer, w.finalized);
      PutKeepsValid(w, key, value, w');
      Success(w')
  }

  /** The bookkeeping of Put adds one entry and preserves Valid. */
  lemma PutKeepsValid(w: Writer, key: seq<Byte>, value: seq<Byte>, w': Writer)
    requires Usable(w)
    requires w.bufferedOffset + (16 + |key| + |value|) + w.estimatedFooterSize + 32 <= MaxInt64
    requires var b := Bucket(CdbHash(key));
             var n := |w.entries[b]| + 1;
             && w'.file == WriteAt(w.file, w.streamPos, Record(key, value))
             && w'.streamPos == w.streamPos + |Record(key, value)|
             && w'.entries == w.entries[b := w.entries[b] + [Slot(CdbHash(key), w.bufferedOffset)]]
             && w'.bufferedOffset == w.bufferedOffset + 16 + |key| + |value|
             && w'.estimatedFooterSize == w.estimatedFooterSize + 16 + (if BitAnd(n, n - 1) == 0 then 16 * n else 0)
    ensures Valid(w) ==> Valid(w')
    ensures Total(w'.entries) == Total(w.entries) + 1
  {
    var h := CdbHash(key);
    var b := Bucket(h);
    SumUpdate(w.entries, b, w.entries[b] + [Slot(h, w.bufferedOffset)], Id);
    if Valid(w) {
      assert |w'.file| == |w.file| + 16 + |key| + |value|;
      PutValid(w, key, value, w');
    }
  }

  /** On a writer that has not been finalised, Put's bookkeeping preserves Valid. */
  lemma PutValid(w: Writer, key: seq<Byte>, value: seq<Byte>, w': Writer)
    requires Valid(w)
    requires w.bufferedOffset + (16 + |key| + |value|) + w.estimatedFooterSize + 32 <= MaxInt64
    requires var b := Bucket(CdbHash(key));
             var n := |w.entries[b]| + 1;
             && |w'.file| == |w.file| + 16 + |key| + |value|
             && w'.streamPos == |w'.file|
             && w'.entries == w.entries[b := w.entries[b] + [Slot(CdbHash(key), w.bufferedOffset)]]
             && w'.bufferedOffset == w.bufferedOffset + 16 + |key| + |value|
             && w'.estimatedFooterSize == w.estimatedFooterSize + 16 + (if BitAnd(n, n - 1) == 0 then 16 * n else 0)
    ensures Valid(w')
  {
    var h := CdbHash(key);
    var b := Bucket(h);
    var n := |w.entries[b]| + 1;
    PowerOfTwoTest(n);
    SumUpdate(w.entries, b, w.entries[b] + [Slot(h, w.bufferedOffset)], Id);
    SumUpdate(w.entries, b, w.entries[b] + [Slot(h, w.bufferedOffset)], BucketEstimate);
    EstimateCovers(w.entries);
    AppendWithin(w.entries, |w.file|, |w'.file|, h);
  }

  /** PutAll: Put each record in order, stopping at the first error. */
  function PutAll(w: Writer, recs: seq<(seq<Byte>, seq<Byte>)>): (r: Result<Writer, Error>)
    requires Usable(w)
    ensures r.Success? ==> Usable(r.value) && r.value.finalized == w.finalized
    ensures r.Success? && Valid(w) ==> Valid(r.value)
    ensures r.Failure? ==> r.error == TooMuchData
  {
    if |recs| == 0 then Success(w)
    else
      var w1 :- PutAll(w, recs[..|recs| - 1]);
      Put(w1, recs[|recs| - 1].0, recs[|recs| - 1].1)
  }

  // ---- Footer estimate ----

  lemma {:induction false} SumOfEmpty(entries: seq<seq<Slot>>, f: nat -> nat)
    requires f(0) == 0
    requires forall b :: 0 <= b < |entries| ==> entries[b] == []
    ensures SumBy(entries, f) == 0
  {
    if |entries| > 0 {
      SumOfEmpty(entries[1..], f);
    }
  }

  /** Replacing one bucket changes the sum by the difference of its terms. */
  lemma {:induction false} SumUpdate(entries: seq<seq<Slot>>, b: nat, x: seq<Slot>, f: nat -> nat)
    requires b < |entries|
    ensures SumBy(entries[b := x], f) + f(|entries[b]|) == SumBy(entries, f) + f(|x|)
  {
    if b == 0 {
      assert entries[b := x][1..] == entries[1..];
    } else {
      assert entries[b := x][1..] == entries[1..][b - 1 := x];
      SumUpdate(entries[1..], b - 1, x, f);
    }
  }

  /** For 2^k <= n < 2^(k+1) the estimate of a bucket is 16·n + 16·(2^(k+1) - 1). */
  lemma {:induction false} BucketEstimateValue(n: nat, k: nat)
    requires Pow2(k) <= n < 2 * Pow2(k)
    ensures BucketEstimate(n) == 16 * n + 16 * (2 * Pow2(k) - 1)
    decreases n, 1
  {
    if n == Pow2(k) {
      EstimateAtPow2(n, k);
    } else {
      EstimateBetweenPow2(n, k);
    }
  }

  /** At n = 2^k the estimate adds the 16·n of a table that doubles. */
  lemma {:induction false} EstimateAtPow2(n: nat, k: nat)
    requires n == Pow2(k)
    ensures BucketEstimate(n) == 16 * n + 16 * (2 * Pow2(k) - 1)
    decreases n, 0
  {
    Pow2IsPow2(k);
    EstimateDoubles(n);
    if k > 0 {
      var q := Pow2(k - 1);
      assert n == 2 * q;
      BucketEstimateValue(n - 1, k - 1);
    }
  }

  /** At a power of two the estimate grows by 16 for the entry and 16·n for the doubled table. */
  lemma EstimateDoubles(n: nat)
    requires IsPow2(n)
    ensures BucketEstimate(n) == BucketEstimate(n - 1) + 16 + 16 * n
  {
  }

  /** Strictly between 2^k and 2^(k+1) the estimate grows by 16 per entry. */
  lemma {:induction false} EstimateBetweenPow2(n: nat, k: nat)
    requires Pow2(k) < n < 2 * Pow2(k)
    ensures BucketEstimate(n) == 16 * n + 16 * (2 * Pow2(k) - 1)
    decreases n, 0
  {
    NoPow2Between(k, n);
    BucketEstimateValue(n - 1, k);
    assert BucketEstimate(n) == BucketEstimate(n - 1) + 16;
  }

  /** A bucket's estimate covers its table: 16 bytes for each of its 2n slots. */
  lemma BucketEstimateCovers(n: nat)
    ensures BucketEstimate(n) >= 32 * n
  {
    if n > 0 {
      var k := Pow2Bracket(n);
      BucketEstimateValue(n, k);
    }
  }

  /** The running estimate is never below the size of the tables finalize writes. */
  lemma {:induction false} EstimateCovers(entries: seq<seq<Slot>>)
    ensures Estimate(entries) >= 32 * Total(entries)
  {
    if |entries| > 0 {
      BucketEstimateCovers(|entries[0]|);
      EstimateCovers(entries[1..]);
    }
  }

  // ---- doFinalize ----

  /** The bytes of a table: each slot as a (hash, offset) uint64 pair. */
  function TableBytes(t: seq<Slot>): (r: seq<Byte>)
    ensures |r| == 16 * |t|
  {
    if |t| == 0 then [] else WriteTuple64(t[0].hash, t[0].offset) + TableBytes(t[1..])
  }

  /**
   * The table loop of doFinalize, from the bucket entries[0] on, with
   * `off` the stream position: the bytes appended and the table offsets,
   * 0 for an empty bucket.
   */
  function Tables(mode: EmptyTest, entries: seq<seq<Slot>>, off: nat): (r: Result<(seq<Byte>, seq<nat>), Error>)
    ensures r.Success? ==> |r.value.1| == |entries| && |r.value.0| == 32 * Total(entries)
    ensures r.Failure? ==> r.error == HashTableFull
  {
    if |entries| == 0 then Success(([], []))
    else
      var rest := if |entries[0]| == 0 then Tables(mode, entries[1..], off)
                  else match BuildTable(mode, entries[0])
                    case None => Failure(HashTableFull)
                    case Some(t) => Tables(mode, entries[1..], off + 16 * |t|);
      var (bytes, offs) :- rest;
      if |entries[0]| == 0 then Success((bytes, [0] + offs))
      else
        var t := BuildTable(mode, entries[0]).value;
        Success((TableBytes(t) + bytes, [off] + offs))
  }

  /** The header: for each bucket its table offset and its size 2·len(entries), as uint64. */
  function Header(offs: seq<nat>, entries: seq<seq<Slot>>): (r: seq<Byte>)
    requires |offs| == |entries|
    ensures |r| == 16 * |entries|
  {
    if |entries| == 0 then []
    else EncodeLE(offs[0], 8) + EncodeLE(2 * |entries[0]|, 8) + Header(offs[1..], entries[1..])
  }

  /**
   * doFinalize: append the tables, then seek to the start and write the
   * header over the reserved bytes, which leaves the stream right after
   * the header.
   */
  function DoFinalize(mode: EmptyTest, w: Writer): (r: Result<Writer, Error>)
    requires Valid(w)
    ensures r.Success? ==>
      && |r.value.file| == |w.file| + 32 * Total(w.entries) <= MaxInt64
      && r.value.file[IndexSize..|w.file|] == w.file[IndexSize..]
      && r.value.bufferedOffset == |r.value.file|
      && r.value.streamPos == IndexSize
      && Usable(r.value) && r.value.entries == w.entries
  {
    var (bytes, offs) :- Tables(mode, w.entries, w.bufferedOffset);
    var body := w.file[IndexSize..] + bytes;
    var file := Header(offs, w.entries) + body;
    assert file[IndexSize..|w.file|] == body[..|w.file| - IndexSize];
    Success(w.(file := file, streamPos := IndexSize, bufferedOffset := w.bufferedOffset + |bytes|))
  }

  /**
   * finalize: doFinalize under a `sync.Once`. A second call does nothing
   * and reports no error.
   */
  function Finalize(mode: EmptyTest, w: Writer): (r: Result<Writer, Error>)
    requires Valid(w) || (w.finalized && Usable(w))
    ensures w.finalized ==> r == Success(w)
    ensures r.Success? ==> r.value.finalized && Usable(r.value)
  {
    if w.finalized then Success(w)
    else
      var w' :- DoFinalize(mode, w);
      Success(w'.(finalized := true))
  }

  /** "hash table full" is unreachable: finalize never fails, whatever the hashes. */
  lemma FinalizeSucceeds(mode: EmptyTest, w: Writer)
    requires Valid(w)
    ensures DoFinalize(mode, w).Success?
    ensures Finalize(mode, w).Success?
  {
    TablesSucceed(mode, w.entries, w.bufferedOffset);
  }

  lemma {:induction false} TablesSucceed(mode: EmptyTest, entries: seq<seq<Slot>>, off: nat)
    ensures Tables(mode, entries, off).Success?
    decreases |entries|
  {
    if |entries| > 0 {
      if |entries[0]| == 0 {
        TablesSucceed(mode, entries[1..], off);
      } else {
        NeverFull(mode, entries[0]);
        TablesSucceed(mode, entries[1..], off + 32 * |entries[0]|);
      }
    }
  }

  /** A second finalize leaves the database as the first one wrote it. */
  lemma FinalizeOnce(mode: EmptyTest, w: Writer)
    requires Valid(w)
    ensures Finalize(mode, w).Success?
    ensures Finalize(mode, Finalize(mode, w).value) == Finalize(mode, w)
  {
    FinalizeSucceeds(mode, w);
  }

  /**
   * Put after finalize: the header is already written and the stream stands
   * right after it, so the record lands at offset IndexSize, over the bytes
   * of the first record, and a further finalize writes no table for its
   * entry.
   */
  lemma PutAfterFinalize(mode: EmptyTest, w: Writer, key: seq<Byte>, value: seq<Byte>)
    requires Valid(w) && !w.finalized
    ensures Finalize(mode, w).Success?
    ensures var f := Finalize(mode, w).value;
      var rec := Record(key, value);
      Put(f, key, value).Success? ==>
        var g := Put(f, key, value).value;
        && g.file[..IndexSize] == f.file[..IndexSize]
        && g.file[IndexSize..IndexSize + |rec|] == rec
        && (IndexSize + |rec| <= |f.file| ==> |g.file| == |f.file|)
        && Finalize(mode, g) == Success(g)
  {
    FinalizeSucceeds(mode, w);
  }
}
