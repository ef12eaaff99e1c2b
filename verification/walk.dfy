/**
 * The probe loop that mmap.go and cdb.go repeat in each of their Get
 * methods, with the slot reader and the record check as parameters, and
 * its connection to the table-level walk ProbeTable.Find.
 */
module ProbeWalk {
  import opened Wrappers
  import opened Bytes
  import opened GoIO
  import opened ProbeTable

  /** The slot after the last one of a full turn is the starting slot again. */
  lemma ProbeTurn(start: nat, d: nat, size: nat)
    requires start < size && d < size
    ensures Probe(start, d + 1, size) == start <==> d + 1 == size
  {
    if d + 1 < size {
      ProbeValue(start, d + 1, size);
    } else {
      assert start + d + 1 == start + size * 1;
    }
  }

  /**
   * The probe loop at distance d from the starting slot `(h >> 8) % size`:
   * read the slot; stop at an empty one; at a slot with the query hash ask
   * `look` for the record at its offset; move on with wrap-around and stop
   * when back at the starting slot. Read and look errors end the loop.
   */
  function Walk(mode: EmptyTest, size: nat, h: nat,
                read: nat -> Result<Slot, Error>,
                look: nat -> Result<Option<seq<Byte>>, Error>,
                d: nat): (r: Result<Option<seq<Byte>>, Error>)
    requires d < size
    decreases size - d
  {
    var start := StartSlot(h, size);
    var slot := Probe(start, d, size);
    var s :- read(slot);
    if IsEmpty(mode, s) then Success(None)
    else
      var found :- if s.hash == h then look(s.offset) else Success(None);
      match found
      case Some(v) => Success(Some(v))
      case None =>
        ProbeTurn(start, d, size);
        if Probe(start, d + 1, size) == start then Success(None)
        else Walk(mode, size, h, read, look, d + 1)
  }

  /** A value comes only from a record `look` accepted, at the offset of a slot with the query hash. */
  lemma {:induction false} WalkSound(mode: EmptyTest, size: nat, h: nat,
                                     read: nat -> Result<Slot, Error>,
                                     look: nat -> Result<Option<seq<Byte>>, Error>, d: nat)
    requires d < size
    requires Walk(mode, size, h, read, look, d).Success?
    requires Walk(mode, size, h, read, look, d).value.Some?
    ensures exists i :: 0 <= i < size && read(i).Success? && read(i).value.hash == h &&
              look(read(i).value.offset) == Walk(mode, size, h, read, look, d)
    decreases size - d
  {
    var start := StartSlot(h, size);
    var slot := Probe(start, d, size);
    var s := read(slot).value;
    if !IsEmpty(mode, s) && s.hash == h && look(s.offset).Success? && look(s.offset).value.Some? {
      assert read(slot).value.hash == h;
    } else {
      ProbeTurn(start, d, size);
      WalkSound(mode, size, h, read, look, d + 1);
    }
  }

  /** The slots look accepts, as a predicate for ProbeTable.Find. */
  function Accepts(h: nat, look: nat -> Result<Option<seq<Byte>>, Error>): Slot -> bool
  {
    (s: Slot) => s.hash == h && look(s.offset).Success? && look(s.offset).value.Some?
  }

  /**
   * When the reader returns the slots of table t and look never fails at
   * a slot with the query hash, the loop is ProbeTable.Find over t,
   * followed by the look of the slot it finds.
   */
  lemma {:induction false} WalkIsFind(mode: EmptyTest, t: seq<Slot>, h: nat,
                                      read: nat -> Result<Slot, Error>,
                                      look: nat -> Result<Option<seq<Byte>>, Error>, d: nat)
    requires d < |t|
    requires forall i :: 0 <= i < |t| ==> read(i) == Success(t[i])
    requires forall i :: 0 <= i < |t| && !IsEmpty(mode, t[i]) && t[i].hash == h ==> look(t[i].offset).Success?
    ensures Walk(mode, |t|, h, read, look, d) ==
      match Find(mode, t, h, Accepts(h, look), d)
      case None => Success(None)
      case Some(i) => look(t[i].offset)
    decreases |t| - d
  {
    var start := StartSlot(h, |t|);
    ProbeTurn(start, d, |t|);
    if d + 1 < |t| {
      WalkIsFind(mode, t, h, read, look, d + 1);
    }
  }
}
