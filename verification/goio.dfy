/**
 * The errors the model distinguishes, and `io.ReaderAt.ReadAt` over a file
 * held in memory as an immutable byte sequence.
 */
module GoIO {
  import opened Bytes
  import opened Wrappers

  datatype Error =
    | ShortRead        // io.EOF: ReadAt could not fill the whole buffer
    | NegativeOffset   // ReadAt was asked for a negative offset
    | SliceOutOfRange  // a Go runtime panic: slice bounds out of range
    | TooMuchData      // ErrTooMuchData, returned by Writer.Put
    | InvalidSize      // EINVAL: the file is shorter than the index
    | HashTableFull    // "hash table full", returned by doFinalize

  /**
   * `ReadAt(buf, off)` with `len(buf) == n`: the bytes [off, off+n) of the
   * file, or an error when they are not all there.
   */
  function ReadAt(data: seq<Byte>, off: int, n: nat): (r: Result<seq<Byte>, Error>)
    ensures r.Success? <==> 0 <= off && off + n <= |data|
    ensures r.Success? ==> |r.value| == n
  {
    if off < 0 then Failure(NegativeOffset)
    else if off + n > |data| then Failure(ShortRead)
    else Success(data[off..off + n])
  }

  /**
   * The slice expression `data[lo:hi]` on a slice whose capacity is its
   * length: a runtime panic unless 0 <= lo <= hi <= len(data).
   */
  function Slice(data: seq<Byte>, lo: int, hi: int): (r: Result<seq<Byte>, Error>)
    ensures r.Success? <==> 0 <= lo <= hi <= |data|
    ensures r.Success? ==> r.value == data[lo..hi]
    ensures r.Failure? ==> r.error == SliceOutOfRange
  {
    if 0 <= lo <= hi <= |data| then Success(data[lo..hi]) else Failure(SliceOutOfRange)
  }

  /**
   * `Write(bytes)` on an io.WriteSeeker positioned at pos: the bytes before
   * pos are kept, the written ones replace what was there, and the file
   * grows only when they run past its end.
   */
  function WriteAt(file: seq<Byte>, pos: nat, bytes: seq<Byte>): (r: seq<Byte>)
    requires pos <= |file|
    ensures |r| == if pos + |bytes| <= |file| then |file| else pos + |bytes|
    ensures r[..pos] == file[..pos] && r[pos..pos + |bytes|] == bytes
    ensures pos + |bytes| <= |file| ==> r[pos + |bytes|..] == file[pos + |bytes|..]
    ensures pos == |file| ==> r == file + bytes
  {
    file[..pos] + bytes + (if pos + |bytes| <= |file| then file[pos + |bytes|..] else [])
  }
}
