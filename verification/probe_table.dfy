/**
 * The open-addressed hash tables of the format, independent of their byte
 * encoding: the linear-probe placement of doFinalize (writer.go) and the
 * probe walk of the Get methods (mmap.go, cdb.go). The main result,
 * FindFirst, says the walk finds the earliest-placed entry that matches.
 */
module ProbeTable {
  import opened Wrappers

  /** A slot of a table, and also a writer `entry`: a key hash and the offset of its record. */
  datatype Slot = Slot(hash: nat, offset: nat)

  /** The zero value a fresh table is filled with. */
  const EmptySlot: Slot := Slot(0, 0)

  /**
   * How a slot is recognised as free. The source tests `hash == 0`; the
   * original CDB design tests the record position instead, and a record
   * never sits at offset 0 because the header is there.
   */
  datatype EmptyTest = ZeroHash | ZeroOffset

  predicate IsEmpty(mode: EmptyTest, s: Slot)
  {
    match mode
    case ZeroHash => s.hash == 0
    case ZeroOffset => s.offset == 0
  }

  /** `(hash >> 8) % size`: the slot where the probe sequence of a hash starts. */
  function StartSlot(h: nat, size: nat): (r: nat)
    requires size > 0
    ensures r < size
  {
    (h / 256) % size
  }

  /** The slot d steps after start, wrapping at size (`slot = (slot + 1) % size`, d times). */
  function Probe(start: nat, d: nat, size: nat): (r: nat)
    requires size > 0
    ensures r < size
  {
    (start + d) % size
  }

  /** Where an entry with hash h sits if it is d steps from its starting slot. */
  function PosOf(h: nat, d: nat, size: nat): (r: nat)
    requires size > 0
    ensures r < size
  {
    Probe(StartSlot(h, size), d, size)
  }

  lemma ProbeValue(start: nat, d: nat, size: nat)
    requires start < size && d < size
    ensures Probe(start, d, size) == if start + d < size then start + d else start + d - size
  {
    if start + d >= size {
      assert start + d == size * 1 + (start + d - size);
    }
  }

  /** Distinct distances below the table size reach distinct slots. */
  lemma ProbeInjective(start: nat, d1: nat, d2: nat, size: nat)
    requires start < size && d1 < size && d2 < size
    requires Probe(start, d1, size) == Probe(start, d2, size)
    ensures d1 == d2
  {
    ProbeValue(start, d1, size);
    ProbeValue(start, d2, size);
  }

  /** Every slot is reached from every start within size steps. */
  lemma ProbeCovers(start: nat, i: nat, size: nat) returns (d: nat)
    requires start < size && i < size
    ensures d < size && Probe(start, d, size) == i
  {
    d := if i >= start then i - start else i + size - start;
    ProbeValue(start, d, size);
  }

  /**
   * The placement loop for one entry: the first distance, from d on, whose
   * slot is free, or None when the walk comes back to its starting slot
   * ("hash table full").
   */
  function FreeDistance(mode: EmptyTest, t: seq<Slot>, start: nat, d: nat): (r: Option<nat>)
    requires |t| > 0
    ensures r.Some? ==> d <= r.value < |t| && IsEmpty(mode, t[Probe(start, r.value, |t|)])
    ensures r.Some? ==> forall e :: d <= e < r.value ==> !IsEmpty(mode, t[Probe(start, e, |t|)])
    ensures r.None? ==> forall e :: d <= e < |t| ==> !IsEmpty(mode, t[Probe(start, e, |t|)])
    decreases |t| - d
  {
    if d >= |t| then None
    else if IsEmpty(mode, t[Probe(start, d, |t|)]) then Some(d)
    else FreeDistance(mode, t, start, d + 1)
  }

  /** Place one entry at the first free slot from its starting slot. */
  function Insert(mode: EmptyTest, t: seq<Slot>, e: Slot): (r: Option<seq<Slot>>)
    requires |t| > 0
    ensures r.Some? ==> |r.value| == |t|
  {
    var start := StartSlot(e.hash, |t|);
    match FreeDistance(mode, t, start, 0)
    case None => None
    case Some(d) => Some(t[Probe(start, d, |t|) := e])
  }

  /** Place the entries one after another, in order, into t. */
  function PlaceFrom(mode: EmptyTest, t: seq<Slot>, es: seq<Slot>): (r: Option<seq<Slot>>)
    requires |t| > 0 || |es| == 0
    ensures r.Some? ==> |r.value| == |t|
    decreases |es|
  {
    if |es| == 0 then Some(t)
    else match Insert(mode, t, es[0])
      case None => None
      case Some(t') => PlaceFrom(mode, t', es[1..])
  }

  /** The table doFinalize builds for one bucket: twice as many slots as entries. */
  function BuildTable(mode: EmptyTest, es: seq<Slot>): Option<seq<Slot>>
  {
    PlaceFrom(mode, seq(2 * |es|, _ => EmptySlot), es)
  }

  /** The number of slots that do not test as free. */
  function Occupied(mode: EmptyTest, t: seq<Slot>): (n: nat)
    ensures n <= |t|
  {
    if |t| == 0 then 0
    else (if IsEmpty(mode, t[0]) then 0 else 1) + Occupied(mode, t[1..])
  }

  lemma {:induction false} OccupiedUpdate(mode: EmptyTest, t: seq<Slot>, i: nat, x: Slot)
    requires i < |t| && IsEmpty(mode, t[i])
    ensures Occupied(mode, t[i := x]) <= Occupied(mode, t) + 1
  {
    if i > 0 {
      assert t[i := x][1..] == t[1..][i - 1 := x];
      OccupiedUpdate(mode, t[1..], i - 1, x);
    } else {
      assert t[i := x][1..] == t[1..];
    }
  }

  lemma {:induction false} FullWhenNoneFree(mode: EmptyTest, t: seq<Slot>)
    requires forall i :: 0 <= i < |t| ==> !IsEmpty(mode, t[i])
    ensures Occupied(mode, t) == |t|
  {
    if |t| > 0 {
      FullWhenNoneFree(mode, t[1..]);
    }
  }

  /** A table with a free slot always accepts one more entry. */
  lemma InsertSucceeds(mode: EmptyTest, t: seq<Slot>, e: Slot)
    requires |t| > 0 && Occupied(mode, t) < |t|
    ensures Insert(mode, t, e).Some?
    ensures Occupied(mode, Insert(mode, t, e).value) <= Occupied(mode, t) + 1
  {
    var start := StartSlot(e.hash, |t|);
    var r := FreeDistance(mode, t, start, 0);
    if r.None? {
      forall i | 0 <= i < |t|
        ensures !IsEmpty(mode, t[i])
      {
        var d := ProbeCovers(start, i, |t|);
      }
      FullWhenNoneFree(mode, t);
    } else {
      OccupiedUpdate(mode, t, Probe(start, r.value, |t|), e);
    }
  }

  lemma {:induction false} PlaceFromSucceeds(mode: EmptyTest, t: seq<Slot>, es: seq<Slot>)
    requires |t| > 0 || |es| == 0
    requires Occupied(mode, t) + |es| <= |t|
    ensures PlaceFrom(mode, t, es).Some?
    decreases |es|
  {
    if |es| > 0 {
      InsertSucceeds(mode, t, es[0]);
      PlaceFromSucceeds(mode, Insert(mode, t, es[0]).value, es[1..]);
    }
  }

  lemma {:induction false} EmptyTableUnoccupied(mode: EmptyTest, n: nat)
    ensures Occupied(mode, seq(n, _ => EmptySlot)) == 0
  {
    if n > 0 {
      assert seq(n, _ => EmptySlot)[1..] == seq(n - 1, _ => EmptySlot);
      EmptyTableUnoccupied(mode, n - 1);
    }
  }

  /**
   * "hash table full" cannot happen: a table with twice as many slots as
   * entries always has a free slot left, whatever the hashes.
   */
  lemma NeverFull(mode: EmptyTest, es: seq<Slot>)
    ensures BuildTable(mode, es).Some?
    ensures |BuildTable(mode, es).value| == 2 * |es|
  {
    EmptyTableUnoccupied(mode, 2 * |es|);
    PlaceFromSucceeds(mode, seq(2 * |es|, _ => EmptySlot), es);
  }

  /** Entry j sits dist[j] steps from its starting slot. */
  ghost predicate HoldsEntries(t: seq<Slot>, es: seq<Slot>, dist: seq<nat>)
    requires |t| > 0
  {
    && |dist| == |es|
    && forall j :: 0 <= j < |es| ==> dist[j] < |t| && t[PosOf(es[j].hash, dist[j], |t|)] == es[j]
  }

  /** Every slot before an entry on its probe path is occupied. */
  ghost predicate PathsOccupied(mode: EmptyTest, t: seq<Slot>, es: seq<Slot>, dist: seq<nat>)
    requires |t| > 0 && |dist| == |es|
  {
    forall j, e :: 0 <= j < |es| && 0 <= e < dist[j] ==> !IsEmpty(mode, t[PosOf(es[j].hash, e, |t|)])
  }

  /** Entries with equal hashes lie along their common path in insertion order. */
  ghost predicate HashOrder(es: seq<Slot>, dist: seq<nat>)
    requires |dist| == |es|
  {
    forall j, k :: 0 <= j < k < |es| && es[j].hash == es[k].hash ==> dist[j] < dist[k]
  }

  /** Every occupied slot holds one of the entries. */
  ghost predicate OnlyEntries(mode: EmptyTest, t: seq<Slot>, es: seq<Slot>, dist: seq<nat>)
    requires |t| > 0 && |dist| == |es|
  {
    forall i :: 0 <= i < |t| && !IsEmpty(mode, t[i]) ==>
      exists j :: 0 <= j < |es| && PosOf(es[j].hash, dist[j], |t|) == i
  }

  /**
   * The linear-probing invariant of table t holding entries es, entry j at
   * distance dist[j] from its starting slot.
   */
  ghost predicate Placed(mode: EmptyTest, t: seq<Slot>, es: seq<Slot>, dist: seq<nat>)
    requires |t| > 0
  {
    && HoldsEntries(t, es, dist)
    && PathsOccupied(mode, t, es, dist)
    && HashOrder(es, dist)
    && OnlyEntries(mode, t, es, dist)
  }

  ghost predicate AllOccupied(mode: EmptyTest, es: seq<Slot>)
  {
    forall j :: 0 <= j < |es| ==> !IsEmpty(mode, es[j])
  }

  /** What placing e at distance d from its start, into a free slot, does to t. */
  ghost predicate InsertedAt(mode: EmptyTest, t: seq<Slot>, e: Slot, d: nat, t': seq<Slot>)
    requires |t| > 0
  {
    && d < |t|
    && IsEmpty(mode, t[PosOf(e.hash, d, |t|)])
    && (forall x :: 0 <= x < d ==> !IsEmpty(mode, t[PosOf(e.hash, x, |t|)]))
    && t' == t[PosOf(e.hash, d, |t|) := e]
  }

  lemma InsertedAtHolds(mode: EmptyTest, t: seq<Slot>, es: seq<Slot>, dist: seq<nat>, e: Slot, d: nat, t': seq<Slot>)
    requires |t| > 0 && HoldsEntries(t, es, dist) && AllOccupied(mode, es)
    requires InsertedAt(mode, t, e, d, t')
    ensures HoldsEntries(t', es + [e], dist + [d])
  {
    var m := |t|;
    var p := PosOf(e.hash, d, m);
    var es', dist' := es + [e], dist + [d];
    forall j | 0 <= j < |es'|
      ensures dist'[j] < m && t'[PosOf(es'[j].hash, dist'[j], m)] == es'[j]
    {
      if j < |es| {
        assert t[PosOf(es[j].hash, dist[j], m)] == es[j];
        assert !IsEmpty(mode, es[j]);
        assert PosOf(es[j].hash, dist[j], m) != p;
      }
    }
  }

  lemma InsertedAtPaths(mode: EmptyTest, t: seq<Slot>, es: seq<Slot>, dist: seq<nat>, e: Slot, d: nat, t': seq<Slot>)
    requires |t| > 0 && |dist| == |es| && PathsOccupied(mode, t, es, dist)
    requires !IsEmpty(mode, e) && InsertedAt(mode, t, e, d, t')
    ensures PathsOccupied(mode, t', es + [e], dist + [d])
  {
    var m := |t|;
    var p := PosOf(e.hash, d, m);
    var es', dist' := es + [e], dist + [d];
    forall j, x | 0 <= j < |es'| && 0 <= x < dist'[j]
      ensures !IsEmpty(mode, t'[PosOf(es'[j].hash, x, m)])
    {
      var q := PosOf(es'[j].hash, x, m);
      if j < |es| {
        assert !IsEmpty(mode, t[PosOf(es[j].hash, x, m)]);
      } else {
        assert !IsEmpty(mode, t[PosOf(e.hash, x, m)]);
      }
      if q != p {
        assert t'[q] == t[q];
      }
    }
  }

  lemma InsertedAtOrder(mode: EmptyTest, t: seq<Slot>, es: seq<Slot>, dist: seq<nat>, e: Slot, d: nat, t': seq<Slot>)
    requires |t| > 0 && HoldsEntries(t, es, dist) && PathsOccupied(mode, t, es, dist) && HashOrder(es, dist)
    requires AllOccupied(mode, es) && InsertedAt(mode, t, e, d, t')
    ensures HashOrder(es + [e], dist + [d])
  {
    var m := |t|;
    var es', dist' := es + [e], dist + [d];
    forall j, k | 0 <= j < k < |es'| && es'[j].hash == es'[k].hash
      ensures dist'[j] < dist'[k]
    {
      if k == |es| {
        // entry j shares e's starting slot; its own slot and those before it are taken
      }
    }
  }

  lemma InsertedAtOnly(mode: EmptyTest, t: seq<Slot>, es: seq<Slot>, dist: seq<nat>, e: Slot, d: nat, t': seq<Slot>)
    requires |t| > 0 && |dist| == |es| && OnlyEntries(mode, t, es, dist)
    requires InsertedAt(mode, t, e, d, t')
    ensures OnlyEntries(mode, t', es + [e], dist + [d])
  {
    var m := |t|;
    var p := PosOf(e.hash, d, m);
    var es', dist' := es + [e], dist + [d];
    forall i | 0 <= i < m && !IsEmpty(mode, t'[i])
      ensures exists j :: 0 <= j < |es'| && PosOf(es'[j].hash, dist'[j], m) == i
    {
      if i == p {
        assert PosOf(es'[|es|].hash, dist'[|es|], m) == i;
      } else {
        assert t'[i] == t[i];
        var j :| 0 <= j < |es| && PosOf(es[j].hash, dist[j], m) == i;
        assert PosOf(es'[j].hash, dist'[j], m) == i;
      }
    }
  }

  lemma InsertPreserves(mode: EmptyTest, t: seq<Slot>, es: seq<Slot>, dist: seq<nat>, e: Slot)
      returns (d: nat)
    requires |t| > 0 && Placed(mode, t, es, dist)
    requires AllOccupied(mode, es) && !IsEmpty(mode, e)
    requires Insert(mode, t, e).Some?
    ensures Placed(mode, Insert(mode, t, e).value, es + [e], dist + [d])
  {
    var m := |t|;
    var start := StartSlot(e.hash, m);
    d := FreeDistance(mode, t, start, 0).value;
    var t' := Insert(mode, t, e).value;
    assert InsertedAt(mode, t, e, d, t');
    InsertedAtHolds(mode, t, es, dist, e, d, t');
    InsertedAtPaths(mode, t, es, dist, e, d, t');
    InsertedAtOrder(mode, t, es, dist, e, d, t');
    InsertedAtOnly(mode, t, es, dist, e, d, t');
  }

  lemma {:induction false} PlaceFromPreserves(mode: EmptyTest, t: seq<Slot>, done: seq<Slot>, dist: seq<nat>, es: seq<Slot>)
      returns (dist': seq<nat>)
    requires |t| > 0 && Placed(mode, t, done, dist)
    requires AllOccupied(mode, done) && AllOccupied(mode, es)
    requires PlaceFrom(mode, t, es).Some?
    ensures Placed(mode, PlaceFrom(mode, t, es).value, done + es, dist')
    decreases |es|
  {
    if |es| == 0 {
      assert done + es == done;
      dist' := dist;
    } else {
      var d := InsertPreserves(mode, t, done, dist, es[0]);
      var t1 := Insert(mode, t, es[0]).value;
      var done1 := done + [es[0]];
      assert PlaceFrom(mode, t, es) == PlaceFrom(mode, t1, es[1..]);
      assert done1 + es[1..] == done + es;
      assert AllOccupied(mode, done1);
      dist' := PlaceFromPreserves(mode, t1, done1, dist + [d], es[1..]);
    }
  }

  /** The index of the first entry satisfying isMatch. */
  function FirstMatch(es: seq<Slot>, isMatch: Slot -> bool): (r: Option<nat>)
    ensures r.Some? ==> r.value < |es| && isMatch(es[r.value])
    ensures r.Some? ==> forall j :: 0 <= j < r.value ==> !isMatch(es[j])
    ensures r.None? ==> forall j :: 0 <= j < |es| ==> !isMatch(es[j])
  {
    if |es| == 0 then None
    else if isMatch(es[0]) then Some(0)
    else match FirstMatch(es[1..], isMatch)
      case None => None
      case Some(j) => Some(j + 1)
  }

  /** Appending an entry leaves an earlier first match alone and can only add one at the end. */
  lemma {:induction false} FirstMatchSnoc(es: seq<Slot>, x: Slot, isMatch: Slot -> bool)
    ensures FirstMatch(es + [x], isMatch) ==
      if FirstMatch(es, isMatch).Some? then FirstMatch(es, isMatch)
      else if isMatch(x) then Some(|es|) else None
  {
    if |es| > 0 {
      assert (es + [x])[1..] == es[1..] + [x];
      FirstMatchSnoc(es[1..], x, isMatch);
    }
  }

  /**
   * The probe walk of Get, from distance d: stop at a free slot (absent),
   * return the slot index of a match, and give up after size steps, when
   * the walk is back at its starting slot.
   */
  function Find(mode: EmptyTest, t: seq<Slot>, h: nat, isMatch: Slot -> bool, d: nat): (r: Option<nat>)
    requires |t| > 0
    ensures r.Some? ==> r.value < |t| && !IsEmpty(mode, t[r.value]) && isMatch(t[r.value])
    decreases |t| - d
  {
    if d >= |t| then None
    else
      var i := Probe(StartSlot(h, |t|), d, |t|);
      if IsEmpty(mode, t[i]) then None
      else if isMatch(t[i]) then Some(i)
      else Find(mode, t, h, isMatch, d + 1)
  }

  /** Before the first match's slot, the walk sees occupied, non-matching slots. */
  lemma PassesBefore(mode: EmptyTest, t: seq<Slot>, es: seq<Slot>, dist: seq<nat>,
                     h: nat, isMatch: Slot -> bool, jf: nat, d: nat)
    requires |t| > 0 && Placed(mode, t, es, dist)
    requires forall s :: isMatch(s) ==> s.hash == h
    requires FirstMatch(es, isMatch) == Some(jf)
    requires d < dist[jf]
    ensures !IsEmpty(mode, t[Probe(StartSlot(h, |t|), d, |t|)])
    ensures !isMatch(t[Probe(StartSlot(h, |t|), d, |t|)])
  {
    var m := |t|;
    var i := Probe(StartSlot(h, m), d, m);
    assert es[jf].hash == h;
    assert !IsEmpty(mode, t[PosOf(es[jf].hash, d, m)]);
    if isMatch(t[i]) {
      var j :| 0 <= j < |es| && PosOf(es[j].hash, dist[j], m) == i;
      assert t[i] == es[j];
      ProbeInjective(StartSlot(h, m), dist[j], d, m);
      assert false;
    }
  }

  /** A walk over occupied, non-matching slots up to a matching one finds it. */
  lemma {:induction false} FindReaches(mode: EmptyTest, t: seq<Slot>, h: nat, isMatch: Slot -> bool,
                                       target: nat, d: nat)
    requires d <= target < |t|
    requires forall x :: d <= x < target ==>
      !IsEmpty(mode, t[Probe(StartSlot(h, |t|), x, |t|)]) && !isMatch(t[Probe(StartSlot(h, |t|), x, |t|)])
    requires !IsEmpty(mode, t[Probe(StartSlot(h, |t|), target, |t|)])
    requires isMatch(t[Probe(StartSlot(h, |t|), target, |t|)])
    ensures Find(mode, t, h, isMatch, d) == Some(Probe(StartSlot(h, |t|), target, |t|))
    decreases target - d
  {
    if d < target {
      FindReaches(mode, t, h, isMatch, target, d + 1);
    }
  }

  /** In a placed table, the walk for a matching hash ends at the first match's slot. */
  lemma FindPlaced(mode: EmptyTest, t: seq<Slot>, es: seq<Slot>, dist: seq<nat>,
                   h: nat, isMatch: Slot -> bool, jf: nat)
    requires |t| > 0 && Placed(mode, t, es, dist) && AllOccupied(mode, es)
    requires forall s :: isMatch(s) ==> s.hash == h
    requires FirstMatch(es, isMatch) == Some(jf)
    ensures Find(mode, t, h, isMatch, 0) == Some(PosOf(h, dist[jf], |t|))
    ensures t[PosOf(h, dist[jf], |t|)] == es[jf]
  {
    var m := |t|;
    var start := StartSlot(h, m);
    assert es[jf].hash == h;
    assert t[PosOf(es[jf].hash, dist[jf], m)] == es[jf];
    forall x | 0 <= x < dist[jf]
      ensures !IsEmpty(mode, t[Probe(start, x, m)]) && !isMatch(t[Probe(start, x, m)])
    {
      PassesBefore(mode, t, es, dist, h, isMatch, jf, x);
    }
    FindReaches(mode, t, h, isMatch, dist[jf], 0);
  }

  /** In a placed table, the walk finds nothing when no entry matches. */
  lemma FindMissing(mode: EmptyTest, t: seq<Slot>, es: seq<Slot>, dist: seq<nat>,
                    h: nat, isMatch: Slot -> bool)
    requires |t| > 0 && |dist| == |es| && HoldsEntries(t, es, dist) && OnlyEntries(mode, t, es, dist)
    requires FirstMatch(es, isMatch).None?
    ensures Find(mode, t, h, isMatch, 0).None?
  {
  }

  /**
   * Placement followed by the probe walk: when every entry is occupied
   * under the emptiness test and a match implies the query hash, the walk
   * finds a slot exactly when some entry matches, and the slot it finds
   * holds the earliest-placed matching entry.
   */
  lemma FindFirst(mode: EmptyTest, es: seq<Slot>, h: nat, isMatch: Slot -> bool)
    requires |es| > 0 && AllOccupied(mode, es)
    requires forall s :: isMatch(s) ==> s.hash == h
    ensures BuildTable(mode, es).Some?
    ensures var t := BuildTable(mode, es).value;
            |t| > 0 &&
            var r := Find(mode, t, h, isMatch, 0);
            && (r.Some? <==> FirstMatch(es, isMatch).Some?)
            && (r.Some? ==> t[r.value] == es[FirstMatch(es, isMatch).value])
  {
    NeverFull(mode, es);
    var t0 := seq(2 * |es|, _ => EmptySlot);
    var t := BuildTable(mode, es).value;
    EmptyPlaced(mode, t0);
    var dist := PlaceFromPreserves(mode, t0, [], [], es);
    assert [] + es == es;
    match FirstMatch(es, isMatch)
    case Some(jf) =>
      FindPlaced(mode, t, es, dist, h, isMatch, jf);
    case None =>
      FindMissing(mode, t, es, dist, h, isMatch);
  }

  /** Placing entries writes nothing but those entries: every other slot stays as it was. */
  lemma {:induction false} PlaceFromContents(mode: EmptyTest, t: seq<Slot>, es: seq<Slot>, all: seq<Slot>)
    requires |t| > 0 || |es| == 0
    requires PlaceFrom(mode, t, es).Some?
    requires forall i :: 0 <= i < |t| ==> t[i] == EmptySlot || t[i] in all
    requires forall j :: 0 <= j < |es| ==> es[j] in all
    ensures var r := PlaceFrom(mode, t, es).value;
            forall i :: 0 <= i < |r| ==> r[i] == EmptySlot || r[i] in all
    decreases |es|
  {
    if |es| > 0 {
      var t' := Insert(mode, t, es[0]).value;
      assert forall i :: 0 <= i < |t'| ==> t'[i] == EmptySlot || t'[i] in all;
      PlaceFromContents(mode, t', es[1..], all);
    }
  }

  /**
   * The table built for a bucket holds every entry, and every slot that is
   * not an entry is the (0, 0) slot it was made with.
   */
  lemma BuildTableContents(mode: EmptyTest, es: seq<Slot>)
    requires AllOccupied(mode, es)
    ensures BuildTable(mode, es).Some?
    ensures var t := BuildTable(mode, es).value;
            && |t| == 2 * |es|
            && (forall i :: 0 <= i < |t| ==> t[i] == EmptySlot || t[i] in es)
            && (forall j :: 0 <= j < |es| ==> es[j] in t)
  {
    NeverFull(mode, es);
    var t0 := seq(2 * |es|, _ => EmptySlot);
    var t := BuildTable(mode, es).value;
    assert forall i :: 0 <= i < |t| ==> t[i] == EmptySlot || t[i] in es by {
      PlaceFromContents(mode, t0, es, es);
    }
    if |es| > 0 {
      BuildTableHolds(mode, es);
    }
  }

  /** Every entry lands in the table built for its bucket. */
  lemma BuildTableHolds(mode: EmptyTest, es: seq<Slot>)
    requires AllOccupied(mode, es) && |es| > 0 && BuildTable(mode, es).Some?
    ensures forall j :: 0 <= j < |es| ==> es[j] in BuildTable(mode, es).value
  {
    var t0 := seq(2 * |es|, _ => EmptySlot);
    var t := BuildTable(mode, es).value;
    EmptyPlaced(mode, t0);
    var dist := PlaceFromPreserves(mode, t0, [], [], es);
    assert [] + es == es;
    forall j | 0 <= j < |es|
      ensures es[j] in t
    {
      assert t[PosOf(es[j].hash, dist[j], |t|)] == es[j];
    }
  }

  lemma EmptyPlaced(mode: EmptyTest, t: seq<Slot>)
    requires |t| > 0 && forall i :: 0 <= i < |t| ==> t[i] == EmptySlot
    ensures Placed(mode, t, [], [])
  {
  }

  // ---- Entries that test as free ----

  /** The entries of es that do not test as free, in order. */
  function Occupants(mode: EmptyTest, es: seq<Slot>): (r: seq<Slot>)
    ensures AllOccupied(mode, r) && |r| <= |es|
    decreases |es|
  {
    if |es| == 0 then []
    else (if IsEmpty(mode, es[0]) then [] else [es[0]]) + Occupants(mode, es[1..])
  }

  /** Two tables agree on which slots test as free and on what the other slots hold. */
  ghost predicate SameView(mode: EmptyTest, t: seq<Slot>, u: seq<Slot>)
  {
    && |t| == |u|
    && forall i :: 0 <= i < |t| ==>
         IsEmpty(mode, t[i]) == IsEmpty(mode, u[i]) && (!IsEmpty(mode, t[i]) ==> t[i] == u[i])
  }

  /** The placement loop only looks at which slots test as free. */
  lemma {:induction false} FreeDistanceView(mode: EmptyTest, t: seq<Slot>, u: seq<Slot>, start: nat, d: nat)
    requires |t| > 0 && SameView(mode, t, u)
    ensures FreeDistance(mode, t, start, d) == FreeDistance(mode, u, start, d)
    decreases |t| - d
  {
    if d < |t| {
      FreeDistanceView(mode, t, u, start, d + 1);
    }
  }

  /**
   * Inserting an entry that tests as free changes no slot's view; inserting
   * any other entry into tables with the same view succeeds in both or in
   * neither, and keeps the views equal.
   */
  lemma InsertView(mode: EmptyTest, t: seq<Slot>, u: seq<Slot>, e: Slot)
    requires |t| > 0 && SameView(mode, t, u)
    ensures IsEmpty(mode, e) && Insert(mode, t, e).Some? ==> SameView(mode, Insert(mode, t, e).value, u)
    ensures !IsEmpty(mode, e) ==> Insert(mode, t, e).Some? == Insert(mode, u, e).Some?
    ensures !IsEmpty(mode, e) && Insert(mode, t, e).Some? ==>
      SameView(mode, Insert(mode, t, e).value, Insert(mode, u, e).value)
  {
    FreeDistanceView(mode, t, u, StartSlot(e.hash, |t|), 0);
  }

  /**
   * Placing entries some of which test as free gives the table, as far as
   * the view goes, that placing only the others gives: a free-testing entry
   * lands in a free slot, possibly over another such entry, and is never
   * seen again.
   */
  lemma {:induction false} PlaceFromView(mode: EmptyTest, t: seq<Slot>, u: seq<Slot>, es: seq<Slot>)
    requires |t| > 0 && SameView(mode, t, u)
    requires PlaceFrom(mode, t, es).Some?
    ensures PlaceFrom(mode, u, Occupants(mode, es)).Some?
    ensures SameView(mode, PlaceFrom(mode, t, es).value, PlaceFrom(mode, u, Occupants(mode, es)).value)
    decreases |es|
  {
    if |es| > 0 {
      var e := es[0];
      var t' := Insert(mode, t, e).value;
      InsertView(mode, t, u, e);
      if IsEmpty(mode, e) {
        assert Occupants(mode, es) == Occupants(mode, es[1..]);
        PlaceFromView(mode, t', u, es[1..]);
      } else {
        var u' := Insert(mode, u, e).value;
        var occ := Occupants(mode, es);
        assert occ == [e] + Occupants(mode, es[1..]);
        assert occ[0] == e && occ[1..] == Occupants(mode, es[1..]);
        PlaceFromView(mode, t', u', es[1..]);
      }
    }
  }

  /** The walk, like the placement, only looks at the view of the table. */
  lemma {:induction false} FindView(mode: EmptyTest, t: seq<Slot>, u: seq<Slot>, h: nat, isMatch: Slot -> bool, d: nat)
    requires |t| > 0 && SameView(mode, t, u)
    ensures Find(mode, t, h, isMatch, d) == Find(mode, u, h, isMatch, d)
    decreases |t| - d
  {
    if d < |t| {
      FindView(mode, t, u, h, isMatch, d + 1);
    }
  }

  /** When only entries that do not test as free can match, dropping the others keeps the first match. */
  lemma {:induction false} FirstMatchOccupants(mode: EmptyTest, es: seq<Slot>, isMatch: Slot -> bool)
    requires forall j :: 0 <= j < |es| && isMatch(es[j]) ==> !IsEmpty(mode, es[j])
    ensures var occ := Occupants(mode, es);
      && (FirstMatch(occ, isMatch).Some? <==> FirstMatch(es, isMatch).Some?)
      && (FirstMatch(es, isMatch).Some? ==> occ[FirstMatch(occ, isMatch).value] == es[FirstMatch(es, isMatch).value])
    decreases |es|
  {
    if |es| > 0 {
      var occ := Occupants(mode, es);
      var rest := Occupants(mode, es[1..]);
      assert forall j :: 0 <= j < |es[1..]| ==> es[1..][j] == es[j + 1];
      FirstMatchOccupants(mode, es[1..], isMatch);
      if !IsEmpty(mode, es[0]) {
        assert occ == [es[0]] + rest && occ[1..] == rest;
      } else {
        assert occ == rest;
      }
    }
  }

  /**
   * FindFirst for a bucket whatever its entries: entries that test as free
   * may be lost, but when only entries that do not can match, the walk over
   * the built table still finds a slot exactly when some entry matches,
   * and the slot holds the earliest matching entry.
   */
  lemma FindFirstOccupied(mode: EmptyTest, es: seq<Slot>, h: nat, isMatch: Slot -> bool)
    requires |es| > 0
    requires forall s :: isMatch(s) ==> s.hash == h
    requires forall j :: 0 <= j < |es| && isMatch(es[j]) ==> !IsEmpty(mode, es[j])
    ensures BuildTable(mode, es).Some?
    ensures var t := BuildTable(mode, es).value;
            |t| > 0 &&
            var r := Find(mode, t, h, isMatch, 0);
            && (r.Some? <==> FirstMatch(es, isMatch).Some?)
            && (r.Some? ==> t[r.value] == es[FirstMatch(es, isMatch).value])
  {
    NeverFull(mode, es);
    var occ := Occupants(mode, es);
    var t0 := seq(2 * |es|, _ => EmptySlot);
    var t := BuildTable(mode, es).value;
    PlaceFromView(mode, t0, t0, es);
    var u := PlaceFrom(mode, t0, occ).value;
    EmptyPlaced(mode, t0);
    var dist := PlaceFromPreserves(mode, t0, [], [], occ);
    assert [] + occ == occ;
    FindView(mode, t, u, h, isMatch, 0);
    FirstMatchOccupants(mode, es, isMatch);
    match FirstMatch(occ, isMatch)
    case Some(jf) =>
      FindPlaced(mode, u, occ, dist, h, isMatch, jf);
    case None =>
      FindMissing(mode, u, occ, dist, h, isMatch);
  }
}
