# A verified model of the 64-bit constant database (cdb)

This project models the core of a Go implementation of cdb, the
"constant database": a file written once and then read many times.

**Writing.** A `Writer` reserves a 4096-byte header. `Put` then streams
records, each made of two little-endian `uint64` lengths, the key and the
value. For every record the writer remembers a `(hash, offset)` entry in
one of 256 buckets, chosen by the low byte of `cdbHash(key)`. On
finalisation each non-empty bucket becomes an open-addressed table:
- the table has twice as many slots as the bucket has entries;
- entries are placed by linear probing from `(hash >> 8) mod size`;
- the tables are written back to back after the records;
- the header is filled with one `(table offset, table size)` pair per bucket,
  by seeking back to the start of the output.

`Put` does not look at whether the writer was finalised: a record put
afterwards lands where the seek left the stream, right after the header.

**Reading.**
- A memory-mapped reader provides `Get`, `All`, `Keys` and `Values`.
- An `io.ReaderAt` reader exists in 32-bit, 64-bit and generic
  (width-parameterised) versions.
- Sequential iterators walk the records.
- Little-endian tuple codecs are shared by all of them.

The model is functional:
- a file is an immutable `seq<Byte>`;
- the writer is a value;
- every operation is a pure function returning a `Result`. A Go runtime
  panic (slice out of range) is a `Failure(SliceOutOfRange)`.

Go's fixed-width arithmetic is written out in module `GoInt`:
- `uint32` and `uint64` wrap-around;
- `int64(x)` applied to a `uint64`;
- signed 64-bit wrap-around.

The files of the package disagree on shared names. `cdb.go`,
`iterator.go` and `util.go` use a 2048-byte header and 32-bit tables.
`writer.go` and `mmap.go` use a 4096-byte header and 64-bit tables. The
model therefore gives the `ReaderAt` readers, the iterators and the
generic codec a `Width` parameter (W32 or W64), and derives the word,
tuple and header sizes from it. The writer and the memory-mapped reader
are 64-bit only.

The test for an empty slot is a parameter, `EmptyTest`:
- `ZeroHash` is the code as written: a slot whose hash is 0 is empty.
- `ZeroOffset` is the corrected test: a slot whose offset is 0 is empty,
  as in the original cdb. A record never lies at offset 0, because the
  header is there.

The central theorems are `RoundTrip.MmapGetAfterBuild` and
`RoundTrip.ReaderGetAfterBuild`:
- `Put` a list of pairs, finalise, open, then `Get(k)`;
- the result is the value of the earliest `Put` of `k`, or nil when `k`
  was never put.

With `ZeroHash` this needs only the queried key's `cdbHash` to be
non-zero; other keys may hash to 0, and their entries are then lost
without disturbing the query. With `ZeroOffset` it needs nothing extra.
The requirement is tight: `RoundTrip.MmapGetZeroHashAfterBuild` and
`RoundTrip.ReaderGetZeroHashAfterBuild` show that with `ZeroHash` a key
that hashes to 0 always reads back as nil. `Sequential.AllAfterBuild` and its
companions prove the same for the scans: every record comes back in
`Put` order.

Modules, in dependency order:
- `Wrappers`, `Bytes`, `GoInt`, `GoIO`: basic definitions.
- `Hash`.
- `Tuple`, from `util.go`.
- `ProbeTable`: the linear-probe table, both placement and search.
- `ProbeWalk`: the probe loop of the readers.
- `Writer`.
- `Mmap`.
- `Reader`, from `cdb.go`.
- `Iterators`.
- `Layout`: what `Put` then finalise builds.
- `Finished`: how the built file reads back.
- `RoundTrip`.
- `Sequential`.
- `Findings`.

## Model

| member | source | states |
|---|---|---|
| Hash.ShiftAdd | hash.go:9 | `(h << 5) + h` on a `uint32` stays below 2^32 |
| Hash.ShiftAddIsTimes33 | hash.go:9 | `(h << 5) + h` truncated to 32 bits is 33·h mod 2^32 |
| Hash.XorByte | hash.go:9 | the xor of a byte into the low byte of the state is again a byte |
| Hash.Step | hash.go:9 | one step of the hash keeps the state a `uint32` |
| Hash.HashFrom | hash.go:8-10 | folding the step over any bytes keeps the state a `uint32` |
| Hash.CdbHash | hash.go:6-13 | cdbHash of any key is a `uint32` |
| Hash.HashOfEmpty | hash.go:3 | the hash of the empty key is the seed 5381 |
| Hash.HashAppend | hash.go:8-10 | the hash of a ++ b is the fold over b, started from the hash of a |
| Hash.HashSnoc | hash.go:8-10 | appending one byte to a key applies exactly one step to its hash |
| Hash.Bucket | writer.go:103 | `hash & 0xff` is a bucket number below 256 |
| Bytes.RoundTripLE | util.go:46-53 | a value that fits in n little-endian bytes decodes back to itself |
| Bytes.DecodeEncode | util.go:46-53 | encoding in n bytes, then decoding, keeps exactly the value mod 256^n |
| Bytes.EncodeDecode | util.go:34-44 | decoding n bytes, then re-encoding at width n, gives the same bytes |
| Tuple.ReadTuple | util.go:13-23 | the read succeeds exactly when 8 bytes are there; a failed read yields (0, 0) with the error |
| Tuple.WriteTuple | util.go:25-32 | writeTuple emits exactly 8 bytes |
| Tuple.TupleRoundTrip | util.go:13-32 | readTuple at any offset recovers the two `uint32` values that writeTuple put there, whatever surrounds them |
| Tuple.ReadTuple64 | util.go:34-44 | the read succeeds exactly when 16 bytes are there at an offset that is a valid int64; a failed read yields (0, 0) |
| Tuple.WriteTuple64 | util.go:46-53 | writeTuple64 emits exactly 16 bytes |
| Tuple.Tuple64RoundTrip | util.go:34-53 | readTuple64 recovers the two `uint64` values that writeTuple64 put there |
| Tuple.ReadTupleGeneric | util.go:57-82 | success exactly when 2W bytes are there; on success the two fields are the little-endian words at offset and offset+W; (0, 0) on failure |
| Tuple.WriteTupleGeneric | util.go:84-99 | the generic writer emits 8 bytes for `uint32` and 16 for `uint64` |
| Tuple.GenericRoundTrip | util.go:57-99 | the generic reader recovers what the generic writer wrote, at either width |
| Tuple.GenericReadAgrees | util.go:72-80 | the generic reader equals readTuple at `uint32` and readTuple64 at `uint64` |
| Tuple.GenericWriteAgrees | util.go:86-95 | the generic writer equals writeTuple at `uint32` and writeTuple64 at `uint64` |
| Tuple.RecordTuple | util.go:57-82 | for a file shorter than 2^(8W) bytes (every file at W64, below 4 GiB at W32), at a well-formed record the generic tuple read yields the key and value lengths |
| Tuple.RecordBody | cdb.go:434-465 | for a file shorter than 2^(8W) bytes (every file at W64, below 4 GiB at W32), at a well-formed record the body read returns exactly key ++ value, and the end offset does not wrap |
| Tuple.MinTableOffset | mmap.go:193-208 | the scan bound is at most the file size, at most every non-empty table's offset, and equal to one of them or to the file size |
| Writer.NewWriter | writer.go:55-72 | a new writer holds 4096 zero bytes and no entries; its offset is 4096 and its footer estimate is 0 |
| Writer.Record | writer.go:109-122 | a record is 16 + len(key) + len(value) bytes long |
| Writer.Put | writer.go:76-136 | fails with ErrTooMuchData, changing nothing, exactly when offset + entry size + footer estimate + 32 exceeds maxInt64; otherwise writes the record where the output stream stands (the end of the file before finalisation), advances offset and stream by its size, and adds one entry (hash, old offset) to bucket hash & 0xff, with every other bucket unchanged |
| Writer.PutAfterFinalize | writer.go:76-136 | Put after finalize writes the record at offset 4096, where the seek and header write of doFinalize (writer.go:250-258) left the stream, over the first record; the header is kept, and a further finalize writes no table for the new entry |
| Writer.PutKeepsValid | writer.go:124-133 | Put adds exactly one entry, and before finalisation its offset and footer-estimate updates keep the writer's invariants: the offset and the stream position equal the file length, and every entry points into the data |
| Writer.PutAll | writer.go:76-136 | a sequence of Puts either keeps the writer valid (usable once finalised) or stops with ErrTooMuchData |
| Writer.BucketEstimateValue | writer.go:128-133 | after n entries in a bucket, with 2^k <= n < 2^(k+1), that bucket has added 16n + 16(2^(k+1) - 1) to the footer estimate |
| Writer.EstimateCovers | writer.go:128-133 | the footer estimate is at least 32 bytes per entry, which is what the tables need |
| Writer.TableBytes | writer.go:225-231 | a table of n slots is written as 16n bytes |
| Writer.Tables | writer.go:196-231 | on success, one table offset per bucket and 32 bytes per entry; the only failure is "hash table full" |
| Writer.TablesSucceed | writer.go:219 | the "hash table full" error is never returned |
| Writer.Header | writer.go:241-248 | the header holds 16 bytes per bucket |
| Writer.DoFinalize | writer.go:189-261 | adds 32 bytes per entry to the file, leaves the records untouched, the final size fits in an int64, and the stream is left right after the header |
| Writer.Finalize | writer.go:179-187 | a finalised writer is returned unchanged; a successful call leaves the writer finalised |
| Writer.FinalizeSucceeds | writer.go:189-261 | finalising a valid writer always succeeds |
| Writer.FinalizeOnce | writer.go:179-187 | finalising a second time changes nothing |
| ProbeTable.StartSlot | writer.go:211 | the first probe slot `(hash >> 8) % size` lies inside the table |
| ProbeTable.Probe | writer.go:218 | the d-th slot of the probe sequence lies inside the table |
| ProbeTable.ProbeInjective | writer.go:211-221 | the probe sequence visits a slot at most once in a table's length |
| ProbeTable.ProbeCovers | writer.go:211-221 | the probe sequence reaches every slot of the table |
| ProbeTable.Insert | writer.go:211-221 | a successful insertion keeps the table's size |
| ProbeTable.PlaceFrom | writer.go:210-222 | placing a bucket's entries keeps the table's size |
| ProbeTable.NeverFull | writer.go:207-222 | a table of twice the bucket's size always takes every entry |
| ProbeTable.InsertPreserves | writer.go:211-221 | each insertion puts its entry at the first empty slot of its probe sequence, and keeps every earlier entry in place with only occupied slots before it |
| ProbeTable.PlaceFromPreserves | writer.go:210-222 | after placing all entries in order, every entry sits at the first free slot of its probe sequence at the time it was placed |
| ProbeTable.BuildTableContents | writer.go:207-222 | the table has 2n slots; every entry of the bucket is in it, and every other slot is the empty (0, 0) slot |
| ProbeTable.Find | mmap.go:78-99 | a slot the search returns is occupied and accepted |
| ProbeTable.FindPlaced | mmap.go:78-99 | searching the built table for a hash finds the earliest-placed accepted entry, at the slot where it was placed |
| ProbeTable.FindMissing | mmap.go:78-99 | when no entry is accepted, the search returns nothing |
| ProbeTable.FindFirst | mmap.go:78-99 | in a built table, the search succeeds exactly when some entry of the bucket is accepted, and then returns the first such entry in Put order |
| ProbeTable.Occupants | writer.go:210-222 | the entries of a bucket that do not test as free, none of them testing as free |
| ProbeTable.FreeDistanceView | writer.go:212-217 | the search for a free slot depends only on which slots test as free |
| ProbeTable.InsertView | writer.go:211-221 | an entry that tests as free lands on a free-testing slot and changes no slot's view; any other entry is placed in two tables with the same view alike |
| ProbeTable.PlaceFromView | writer.go:210-222 | placing a bucket's entries gives, slot for slot, the view that placing only its non-free-testing entries gives |
| ProbeTable.FindView | mmap.go:78-99 | the search depends only on the view of the table |
| ProbeTable.FirstMatchOccupants | mmap.go:78-99 | when only non-free-testing entries can be accepted, dropping the others keeps the first accepted entry |
| ProbeTable.FindFirstOccupied | mmap.go:78-99 | in a table built from any entries, when only non-free-testing entries can be accepted, the search succeeds exactly when some entry is accepted, and returns the first such entry in Put order |
| ProbeWalk.WalkSound | mmap.go:88-92 | a value the loop returns was found at a slot whose hash equals the key's hash |
| ProbeWalk.WalkIsFind | cdb.go:332-378 | the probe loop over slots read from a file returns what the table search returns |
| Mmap.ReadIndex | mmap.go:128-142 | fails with EINVAL exactly when the data is shorter than 4096 bytes; otherwise 256 `uint64` pairs |
| Mmap.OpenIndexEntry | mmap.go:128-142 | entry i of the index is the pair of little-endian `uint64`s at bytes [16i, 16i+16) of the file |
| Mmap.Open | mmap.go:36-66 | opening fails exactly when the file is shorter than the index |
| Mmap.ReadTupleMmap | mmap.go:175-182 | two little-endian `uint64`s when 16 bytes are there; (0, 0) past the end; a panic only when offset + 16 overflows int |
| Mmap.GetValueAtMmap | mmap.go:145-172 | a value returned is the value of a well-formed record with exactly this key; nil past the end of the data or on a key-length mismatch |
| Mmap.GetValueAtMmapAt | mmap.go:145-172 | at a well-formed record, the value when the key matches and nil otherwise |
| Mmap.GetValueAtMmapPastEnd | mmap.go:158-161 | a record body that would run past the end of the data gives nil |
| Mmap.SlotAt | mmap.go:82-83 | slot i of a table is the pair of little-endian `uint64`s at table offset + 16i; a slot past the end of the data reads as (0, 0), which the probe loop takes for an empty slot |
| Mmap.Get | mmap.go:69-102 | nil without probing when the bucket's table is empty; a value returned belongs to a record whose key is the query |
| Mmap.ScanRecord | mmap.go:210-239 | one step of the scan reads a well-formed record and moves past it |
| Mmap.Scan | mmap.go:210-239 | the scan yields nothing at or past its end position |
| Mmap.ScanSound | mmap.go:210-239 | every pair the scan yields is a record of the file, at increasing offsets inside the scanned range |
| Mmap.ScanComplete | mmap.go:210-239 | over records laid back to back, the scan yields exactly those records, in order |
| Mmap.All | mmap.go:190-241 | an empty database, or a table starting inside the header, yields nothing |
| Mmap.Keys | mmap.go:244-252 | the keys of All, in the same order, and success exactly when All succeeds |
| Mmap.Values | mmap.go:255-263 | the values of All, in the same order, and success exactly when All succeeds |
| Reader.ReadIndex | cdb.go:390-431 | fails exactly when the file is shorter than 256·2W bytes; otherwise 256 pairs of W-byte words |
| Reader.ReadIndexEntry | cdb.go:177-193 | entry i of the index is the pair of little-endian W-byte words at bytes [2W·i, 2W·i+2W): `uint32`s from the 2048-byte header for CDB, `uint64`s from the 4096-byte header for CDB64 |
| Reader.New | cdb.go:317-329 | opening fails exactly when the header cannot be read |
| Reader.GetValueAt | cdb.go:434-465 | for a file shorter than 2^(8W) bytes (every file at W64, below 4 GiB at W32), a value returned belongs to a record with exactly this key; nil on a key-length mismatch, before the key is read; an error when the tuple is past the end |
| Reader.GetValueAtAt | cdb.go:288-311 | for a file shorter than 2^(8W) bytes (every file at W64, below 4 GiB at W32), at a well-formed record, the value when the key matches and nil otherwise |
| Reader.SlotAt | cdb.go:234-238 | slot i of a table is the pair of little-endian W-byte words at table offset + 2W·i (8i for CDB, 16i for CDB64); a slot past the end of the file is a read error, which Get returns |
| Reader.Get | cdb.go:332-378 | nil when the bucket's table is empty; for a file shorter than 2^(8W) bytes (every file at W64, below 4 GiB at W32), a value returned belongs to a record whose key is the query |
| Iterators.Iter | iterator.go:78-84 | the iterator starts after the header and ends at the table offset of bucket 0 |
| Iterators.IterToTables | mmap.go:193-208 | the iterator with the end position All uses: before every non-empty table and inside the file |
| Iterators.Next | iterator.go:90-114 | false with nothing changed at the end; false with the error stored when a read fails; otherwise true and, for a file shorter than 2^(8W) bytes (every file at W64, below 4 GiB at W32), with the key and value of the record at pos, and pos advanced by 2W + klen + vlen |
| Iterators.Advance | iterator.go:108-111 | after both reads, true and, for a file shorter than 2^(8W) bytes (every file at W64, below 4 GiB at W32), with a key and value that form the record at pos, and pos moved just past that record; a panic when the wrapped buffer is shorter than the key length |
| Iterators.NextFinds | iterator.go:90-114 | for a file shorter than 2^(8W) bytes (every file at W64, below 4 GiB at W32), before the end position, Next reads the record at pos, whatever it holds |
| Iterators.Collect | iterator.go:90-114 | the `for it.Next()` loop ends; it yields nothing when the iterator starts at or past its end |
| Iterators.CollectComplete | iterator.go:90-114 | over records laid back to back, the loop yields exactly those records, in order |
| Iterators.CollectSound | iterator.go:26-50 | every pair the loop yields is a record of the file, at increasing offsets before the end position |
| Layout.Build | writer.go:189-261 | Put of every pair, then finalisation, succeeds exactly when every Put does; the file is the header, the records and 32 bytes per record |
| Layout.PutAllShape | writer.go:102-124 | after the Puts, the file holds the records in order, and each bucket holds the (hash, offset) entries of its keys in Put order |
| Layout.EntriesOfSound | writer.go:102-106 | every entry of a bucket comes from a record whose key hashes to that bucket |
| Layout.EntriesOfComplete | writer.go:102-106 | every record has its entry in the bucket of its key's hash |
| Layout.EntriesFirstMatch | writer.go:102-106 | the first entry of the key's bucket that an acceptance test picks out is that of the earliest record with that key |
| Layout.TablesAt | writer.go:196-231 | each non-empty bucket's table starts at the end of the data plus 32 bytes per entry of the earlier buckets and holds that bucket's placed slots; empty buckets get offset 0 |
| Layout.TablesInOrder | writer.go:204-231 | the tables of two non-empty buckets do not overlap, and the earlier bucket's comes first |
| Layout.BuildLayout | writer.go:189-261 | the built file is the header, then the records, then the tables |
| Layout.FinalizedFile | writer.go:241-259 | the header written over the reserved bytes holds the table offsets and sizes, and the records follow unchanged |
| Finished.FileRecord | writer.go:109-122 | each record lies, well-formed, at the offset its entry records |
| Finished.FileHeader | writer.go:241-248 | header bytes [16b, 16b+16) hold the little-endian offset and size of bucket b's table |
| Finished.FileSlot | writer.go:225-231 | slot s of bucket b's table holds the little-endian (hash, offset) of the placed entry |
| Finished.FileContiguous | mmap.go:210-239 | the records of the built file lie back to back from the end of the header |
| Finished.LaidEnd | writer.go:204 | every non-empty table starts at or after the end of the records, and the first one exactly there |
| Finished.BuiltReadable | writer.go:189-261 | the built file has the header, tables and records that the readers need |
| RoundTrip.LookupEmptyBucket | mmap.go:72-75 | a key whose bucket holds no entries was never put |
| RoundTrip.MatchesOccupied | mmap.go:84-92 | an entry the probe accepts for a key with non-zero hash, or under the offset-0 test, is not taken for a free slot |
| RoundTrip.WalkOnBuilt | mmap.go:78-99 | the probe loop over a built table returns the value of the earliest Put of the key, or nil |
| RoundTrip.WalkZeroHash | mmap.go:84-87 | with the hash-0 emptiness test the probe loop for hash 0 answers nil |
| RoundTrip.MmapGetReadable | mmap.go:69-102 | Get on a well-laid file returns the earliest value put for the key, or nil |
| RoundTrip.MmapGetAfterBuild | mmap.go:69-102 | Put…, finalise, then Get(k) on the memory-mapped reader returns the value of the earliest Put of k, and nil for absent keys |
| RoundTrip.MmapGetZeroHashReadable | mmap.go:69-102 | with the hash-0 emptiness test, Get on a well-laid file returns nil for a key that hashes to 0 |
| RoundTrip.MmapGetZeroHashAfterBuild | mmap.go:69-102 | with the hash-0 emptiness test, Put…, finalise, then Get(k) returns nil whenever k hashes to 0, put or not |
| RoundTrip.ReaderGetReadable | cdb.go:221-259 | Get of the 64-bit ReaderAt reader on a well-laid file returns the earliest value put for the key, or nil |
| RoundTrip.ReaderGetAfterBuild | cdb.go:221-259 | Put…, finalise, then Get(k) on New64 returns the value of the earliest Put of k, and nil for absent keys |
| RoundTrip.ReaderGetZeroHashReadable | cdb.go:221-259 | with the hash-0 emptiness test, Get of the 64-bit reader on a well-laid file returns nil for a key that hashes to 0 |
| RoundTrip.ReaderGetZeroHashAfterBuild | cdb.go:221-259 | with the hash-0 emptiness test, Put…, finalise, then Get(k) on New64 returns nil whenever k hashes to 0, put or not |
| Sequential.TablesStartAtEnd | mmap.go:193-208 | on a built file, the scan bound of All is exactly the end of the records |
| Sequential.AllAfterBuild | mmap.go:190-241 | All on the built file yields every record, in Put order, with duplicates kept |
| Sequential.KeysAfterBuild | mmap.go:244-252 | Keys on the built file yields every key, in Put order |
| Sequential.ValuesAfterBuild | mmap.go:255-263 | Values on the built file yields every value, in Put order |
| Sequential.IterToTablesAfterBuild | iterator.go:90-114 | an iterator ending where the tables start yields every record of the built file, in Put order |
| Sequential.IterAfterBuild | iterator.go:78-114 | Iterator64 as written yields every record in Put order when bucket 0 has an entry, or when there are no records |
| Sequential.IterEmptyBucketZero | iterator.go:82 | Iterator64 as written yields nothing when bucket 0 of the built file is empty |
| Findings.ZeroKeyHash | hash.go:6-13 | cdbHash("s9l0a6D") is 0 |
| Findings.WalkMissesZeroHash | mmap.go:86 | with the hash-0 emptiness test, the probe loop for a hash-0 key never returns a value |
| Findings.MmapGetMissesZeroHash | mmap.go:86 | Get of the memory-mapped reader never finds a key whose hash is 0 |
| Findings.ReaderGetMissesZeroHash | cdb.go:241 | Get of the ReaderAt reader never finds a key whose hash is 0 |
| Findings.ZeroKeyLost | mmap.go:86 | after Put("s9l0a6D", v) and finalisation, Get("s9l0a6D") succeeds and returns nil, although Lookup gives v |
| Findings.SingleRecordFound | mmap.go:69-102 | with the offset-0 emptiness test, a database of one record returns its value for its key |
| Findings.ZeroKeyFound | mmap.go:86 | with the offset-0 emptiness test, Get("s9l0a6D") returns v |
| Findings.LoneBuckets | writer.go:103 | the key "a" lands in a bucket other than 0, leaving bucket 0 empty |
| Findings.LoneRecordMissed | iterator.go:82 | Iterator64 over the file holding only ("a", "x") yields nothing |
| Findings.LoneRecordSeen | mmap.go:193-208 | the iterator bounded as All bounds its scan yields ("a", "x") from that file |
| Findings.TooMuchDataAsWritten | writer.go:95-99 | the int64 guard of Put, computed with wrap-around, is false for every input |
| Findings.GuardMissesOverflow | writer.go:95-99 | an offset 16 below maxInt64 and an empty record: the true sum exceeds maxInt64, but the wrapped sum is negative and the guard lets the record through |

## Left out

- File handling is not modelled: `Create`, `Open`, `Open64`, `Mmap`'s system calls, `Close`, `Freeze` and `Size`. The file is an immutable byte sequence handed to `Mmap.Open` and `Reader.New`.
- Write errors in `Put` and `doFinalize` are not modelled, and the `bufio` buffer is transparent: the file is modelled as it stands once every buffered byte is flushed, with a stream position where the next write lands. The seek-back of `doFinalize` replaces the reserved header bytes and moves that position to 4096.
- `sync.Once` in `finalize` becomes a `finalized` flag; concurrency is not modelled.
- The pluggable `hash` argument of `New`, `New64` and `NewGeneric` is fixed to `cdbHash`.
- The `Key`, `Value` and `Err` accessors of the iterators are field reads of the `Iterator` datatype.
- The early stop of `All`, `Keys` and `Values` when `yield` returns false is not modelled. The model returns the whole sequence the loop would produce.
- Writer.Put: the guard is stated on mathematical integers, i.e. the evidently intended check. The int64 computation as written is `Findings.TooMuchDataAsWritten`.
- Tuple.RecordTuple: stated only for files shorter than 2^(8W) bytes. On a 32-bit file of 4 GiB or more, a record's key and value lengths need not fit a uint32 word, so its tuple need not hold them.
- Tuple.RecordBody: stated only for files shorter than 2^(8W) bytes. On a larger 32-bit file the uint32 sum offset+8 (cdb.go:207) can wrap, so the body read need not be the record's.
- Reader.GetValueAt: the soundness clause (a value returned belongs to a record with this key) holds only for files shorter than 2^(8W) bytes. On a 32-bit file of 4 GiB or more the uint32 sums of cdb.go:141 and cdb.go:207 wrap, and the bytes returned need not form a record at the offset read.
- Reader.GetValueAtAt: stated only for files shorter than 2^(8W) bytes, for the same wrap-around.
- Reader.Get: the soundness clause holds only for files shorter than 2^(8W) bytes. On a 32-bit file of 4 GiB or more it inherits the wrap-around of getValueAt.
- Iterators.Next: the clauses about the record read and the new pos hold only for files shorter than 2^(8W) bytes. On a 32-bit file of 4 GiB or more the uint32 sums of iterator.go:38 and iterator.go:47 wrap, so pos need not advance by 2W + klen + vlen.
- Iterators.Advance: the same restriction as Iterators.Next, for the same wrap-around.
- Iterators.NextFinds: stated only for files shorter than 2^(8W) bytes, for the same wrap-around.
- Iterators.Collect: proved to end only for files shorter than 2^(8W) bytes, where pos cannot wrap.
- Reader.GetValueAt: `make([]byte, keyLength+valueLength)` (cdb.go:206, 299, 445) with a value length read from a corrupt file can panic or exhaust memory in Go. The model treats it as an ordinary buffer, which the following `ReadAt` then reports as a short read, an ordinary error of Get.
- Iterators.Next: `make([]byte, keyLength+valueLength)` with a length read from a corrupt file can panic or exhaust memory in Go. The model treats it as an ordinary buffer, which the following `ReadAt` then reports as a short read.
- Writer.Finalize: after a failed doFinalize the model does not mark the writer finalised, whereas `sync.Once` would. `Writer.FinalizeSucceeds` shows that doFinalize cannot fail, so the case never arises.
- The round-trip theorems are stated for the 64-bit writer. The package has no 32-bit writer, so the 32-bit readers are modelled, but no file is built for them.
- The source declares `indexSize`, `table`, `index` and `writeTuple64` twice, in different files. The model gives each file its own constants, through `Width`.

## Findings

| source | as written | input that shows it | evidently intended | confidence | as-written member | corrected member |
|---|---|---|---|---|---|---|
| mmap.go:86 | a table slot whose hash is 0 is treated as empty, in Get and in the writer's placement (also writer.go:213, cdb.go:148, cdb.go:241, cdb.go:360) | Put("s9l0a6D", v), finalise, Get("s9l0a6D"); cdbHash("s9l0a6D") is 0, so Get returns nil | every key put can be found; emptiness decided by offset 0, which no record can have | not executed | Findings.ZeroKeyLost | Findings.ZeroKeyFound |
| iterator.go:82 | Iterator64 ends at the table offset of bucket 0, which writer.go:199 sets to 0 when bucket 0 is empty | a database holding only ("a", "x"); "a" hashes to bucket 0xC4, and the iterator yields nothing | the iterator ends where the records end, i.e. the smallest offset of a non-empty table, as All does | not executed | Findings.LoneRecordMissed | Findings.LoneRecordSeen |
| writer.go:97 | the ErrTooMuchData guard adds int64 values and compares the sum with maxInt64, which an int64 can never exceed | bufferedOffset = maxInt64 - 15 and an empty key and value: the sum wraps to a negative number, so the record is accepted | reject a record when the true sum exceeds maxInt64 | not executed | Findings.GuardMissesOverflow | Writer.Put |
