/**
 The in-memory record file of src/catalog/VolatileCatCache.cpp: valid flags, slot offsets and one byte vector,
 and the iterators that live through updates.
 */
module SlotFile {
  import opened Base

  /** The state of one `InmemFile`. */
  datatype File = File(valid: seq<bool>, offsets: seq<nat>, bytes: seq<Byte>)

  /** The largest number of slots a file can get. */
  const MAX_SLOTS := 0xfffe

  predicate WellFormed(f: File) {
    && |f.valid| == |f.offsets| <= MAX_SLOTS
    && Aligned(8, |f.bytes|)
    && (forall i :: 0 <= i < |f.offsets| ==> Aligned(8, f.offsets[i]) && f.offsets[i] <= |f.bytes|)
    && (forall i, j {:trigger InOrder(f.offsets, i, j)} :: 0 <= i < j < |f.offsets| ==> InOrder(f.offsets, i, j))
  }

  predicate InOrder(offsets: seq<nat>, i: nat, j: nat)
    requires i < |offsets| && j < |offsets|
  {
    offsets[i] <= offsets[j]
  }

  const EMPTY := File([], [], [])

  function SlotEnd(f: File, i: nat): nat
    requires i < |f.offsets|
  {
    if i == |f.offsets| - 1 then |f.bytes| else f.offsets[i + 1]
  }

  /** All bytes of a slot: the record and whatever follows it up to the next slot. */
  function Slot(f: File, i: nat): (r: seq<Byte>)
    requires WellFormed(f) && i < |f.offsets|
    ensures f.offsets[i] <= SlotEnd(f, i) <= |f.bytes| && |r| == SlotEnd(f, i) - f.offsets[i]
  {
    assert i + 1 < |f.offsets| ==> InOrder(f.offsets, i, i + 1);
    f.bytes[f.offsets[i]..SlotEnd(f, i)]
  }

  /** The map from record id to slot contents that a file stands for. */
  function Live(f: File): map<nat, seq<Byte>>
    requires WellFormed(f)
  {
    map i | 0 <= i < |f.offsets| && f.valid[i] :: Slot(f, i)
  }

  /** A record as a new slot holds it: padded with zeros to a multiple of 8. */
  function Padded(rec: seq<Byte>): seq<Byte> {
    Resize(rec, AlignUp(8, |rec|))
  }

  /** The padding is zeros, fewer than eight, up to a multiple of eight. */
  lemma PaddedExactly(rec: seq<Byte>)
    ensures rec <= Padded(rec) && |Padded(rec)| % 8 == 0 && |Padded(rec)| < |rec| + 8
    ensures forall k :: |rec| <= k < |Padded(rec)| ==> Padded(rec)[k] == 0
  {
  }

  /** `AppendRecord`: nothing if the file is full. */
  function Append(f: File, rec: seq<Byte>): Option<File> {
    if |f.offsets| >= MAX_SLOTS then None
    else
      var at := |f.bytes|;
      Some(File(f.valid + [true], f.offsets + [at], Put(Resize(f.bytes, AlignUp(8, at + |rec|)), at, rec)))
  }

  /** `UpdateCurrentCatEntry` on slot `i`: in place if the record fits, else invalidate and append. */
  function Update(f: File, i: nat, rec: seq<Byte>): Option<File>
    requires WellFormed(f) && i < |f.offsets|
  {
    if |rec| <= SlotEnd(f, i) - f.offsets[i] then Some(f.(bytes := Put(f.bytes, f.offsets[i], rec)))
    else Append(f.(valid := f.valid[i := false]), rec)
  }

  // ---------------------------------------------------------------- refinement of a map

  /** Slots do not overlap and follow one another. */
  lemma SlotsApart(f: File, i: nat, j: nat)
    requires WellFormed(f) && i < j < |f.offsets|
    ensures f.offsets[i] <= SlotEnd(f, i) <= f.offsets[j] <= SlotEnd(f, j) <= |f.bytes|
  {
    assert InOrder(f.offsets, i, i + 1);
    assert i + 1 < j ==> InOrder(f.offsets, i + 1, j);
    assert j + 1 < |f.offsets| ==> InOrder(f.offsets, j, j + 1);
  }

  lemma AlignShift(at: nat, len: nat)
    requires Aligned(8, at)
    ensures AlignUp(8, at + len) == at + AlignUp(8, len)
  {
  }

  lemma AppendSlots(f: File, rec: seq<Byte>)
    requires WellFormed(f) && Append(f, rec).Some?
    ensures WellFormed(Append(f, rec).value)
    ensures Slot(Append(f, rec).value, |f.offsets|) == Padded(rec)
    ensures forall i :: 0 <= i < |f.offsets| ==> Slot(Append(f, rec).value, i) == Slot(f, i)
  {
    var at := |f.bytes|;
    var g := Append(f, rec).value;
    AlignShift(at, |rec|);
    forall i, j | 0 <= i < j < |g.offsets|
      ensures InOrder(g.offsets, i, j)
    {
      if j < |f.offsets| {
        assert InOrder(f.offsets, i, j);
      }
    }
    forall i | 0 <= i < |f.offsets|
      ensures Slot(g, i) == Slot(f, i)
    {
      assert |Slot(f, i)| >= 0;
      assert SlotEnd(g, i) == SlotEnd(f, i) <= at;
    }
  }

  /** Appending adds one binding under an id that no slot ever had and changes no other record. */
  lemma AppendRefines(f: File, rec: seq<Byte>)
    requires WellFormed(f) && Append(f, rec).Some?
    ensures WellFormed(Append(f, rec).value) && |f.offsets| !in Live(f)
    ensures Live(Append(f, rec).value) == Live(f)[|f.offsets| := Padded(rec)]
  {
    AppendSlots(f, rec);
  }

  /** The slot contents after an in-place update: the record, then what was behind it. */
  function Overwritten(slot: seq<Byte>, rec: seq<Byte>): seq<Byte>
    requires |rec| <= |slot|
  {
    rec + slot[|rec|..]
  }

  lemma UpdateSlots(f: File, i: nat, rec: seq<Byte>)
    requires WellFormed(f) && i < |f.offsets| && |rec| <= |Slot(f, i)|
    ensures WellFormed(Update(f, i, rec).value)
    ensures Slot(Update(f, i, rec).value, i) == Overwritten(Slot(f, i), rec)
    ensures forall j :: 0 <= j < |f.offsets| && j != i ==> Slot(Update(f, i, rec).value, j) == Slot(f, j)
  {
    var g := Update(f, i, rec).value;
    var now, expected := Slot(g, i), Overwritten(Slot(f, i), rec);
    assert |now| == |expected| && forall x :: 0 <= x < |now| ==> now[x] == expected[x];
    forall j | 0 <= j < |f.offsets| && j != i
      ensures Slot(g, j) == Slot(f, j)
    {
      if j < i { SlotsApart(f, j, i); } else { SlotsApart(f, i, j); }
    }
  }

  /**
   Updating a live slot replaces the front of its contents in place, or moves the record to a fresh id if it
   does not fit; no other record changes.
   */
  lemma UpdateRefines(f: File, i: nat, rec: seq<Byte>)
    requires WellFormed(f) && i in Live(f) && Update(f, i, rec).Some?
    ensures WellFormed(Update(f, i, rec).value)
    ensures Live(Update(f, i, rec).value) ==
            if |rec| <= |Live(f)[i]| then Live(f)[i := Overwritten(Live(f)[i], rec)]
            else (Live(f) - {i})[|f.offsets| := Padded(rec)]
  {
    if |rec| <= |Live(f)[i]| {
      UpdateSlots(f, i, rec);
      var g := Update(f, i, rec).value;
      assert g.valid == f.valid && |g.offsets| == |f.offsets|;
      assert Live(g) == Live(f)[i := Overwritten(Slot(f, i), rec)];
    } else {
      InvalidateRefines(f, i);
      AppendRefines(f.(valid := f.valid[i := false]), rec);
    }
  }

  /** Clearing the valid flag of a slot removes its record and nothing else. */
  lemma InvalidateRefines(f: File, i: nat)
    requires WellFormed(f) && i < |f.offsets|
    ensures WellFormed(f.(valid := f.valid[i := false]))
    ensures forall j :: 0 <= j < |f.offsets| ==> Slot(f.(valid := f.valid[i := false]), j) == Slot(f, j)
    ensures Live(f.(valid := f.valid[i := false])) == Live(f) - {i}
  {
    var h := f.(valid := f.valid[i := false]);
    assert forall j :: 0 <= j < |f.offsets| ==> Slot(h, j) == Slot(f, j);
  }

  // ---------------------------------------------------------------- iteration

  /** `CatFileIterator`, and whether it stands on a record. */
  datatype Iter = Iter(next: nat, end: nat, on: bool)

  function Start(f: File, first: nat): Iter {
    Iter(first, |f.offsets|, false)
  }

  /** The first valid slot in `[i, end)`, or `end`. */
  function FirstValid(valid: seq<bool>, i: nat, end: nat): (r: nat)
    requires end <= |valid|
    ensures i <= end ==> i <= r <= end
    ensures forall j :: i <= j < r && j < end ==> !valid[j]
    decreases end - i
  {
    if i >= end then end else if valid[i] then i else FirstValid(valid, i + 1, end)
  }

  /** `NextCatEntry`. Once it is past the end it stays there. */
  function NextOf(f: File, it: Iter): (r: Iter)
    requires it.end <= |f.valid|
  {
    var i := FirstValid(f.valid, it.next, it.end);
    Iter(i + 1, it.end, i < it.end)
  }

  /** The ids of the valid slots below `n`, in order. */
  function ValidIds(f: File, n: nat): (r: seq<nat>)
    requires n <= |f.valid|
  {
    if n == 0 then [] else ValidIds(f, n - 1) + if f.valid[n - 1] then [n - 1] else []
  }

  /** What a user of an iterator may do in turn. */
  datatype Event = Next | UpdateCurrent(rec: seq<Byte>) | AppendNew(rec: seq<Byte>)

  /** The file, the iterator, and the records returned so far. The run ends early when the file is full. */
  datatype Run = Run(f: File, it: Iter, seen: seq<(nat, seq<Byte>)>, full: bool)

  ghost predicate RunOk(r: Run) {
    WellFormed(r.f) && r.it.end <= |r.f.offsets| && (r.it.on ==> 0 < r.it.next <= r.it.end)
  }

  function After(r: Run, f: Option<File>): Run {
    if f.None? then r.(full := true) else r.(f := f.value)
  }

  /** One event. An update without a current record is undefined in the source and has no effect here. */
  function Happen(r: Run, e: Event): Run
    requires RunOk(r)
  {
    if r.full then r else
      match e
      case Next =>
        var it := NextOf(r.f, r.it);
        NextOn(r.f, r.it);
        Run(r.f, it, if it.on then r.seen + [(it.next - 1, Slot(r.f, it.next - 1))] else r.seen, false)
      case UpdateCurrent(rec) =>
        if r.it.on && r.f.valid[r.it.next - 1] then After(r, Update(r.f, r.it.next - 1, rec)) else r
      case AppendNew(rec) => After(r, Append(r.f, rec))
  }

  lemma NextOn(f: File, it: Iter)
    requires it.end <= |f.valid|
    ensures NextOf(f, it).on ==> 0 < NextOf(f, it).next <= it.end
  {
  }

  lemma HappenOk(r: Run, e: Event)
    requires RunOk(r)
    ensures RunOk(Happen(r, e)) && Happen(r, e).it.end == r.it.end
  {
    match e
    case Next => NextOn(r.f, r.it);
    case UpdateCurrent(rec) =>
      if !r.full && r.it.on && r.f.valid[r.it.next - 1] && Update(r.f, r.it.next - 1, rec).Some? {
        UpdateRefines(r.f, r.it.next - 1, rec);
      }
    case AppendNew(rec) =>
      if Append(r.f, rec).Some? { AppendSlots(r.f, rec); }
  }

  function RunAll(r: Run, es: seq<Event>): (r': Run)
    requires RunOk(r)
    ensures RunOk(r') && r'.it.end == r.it.end
    decreases |es|
  {
    if es == [] then r else
      HappenOk(r, es[0]);
      RunAll(Happen(r, es[0]), es[1..])
  }

  /** A record returned by the iteration is slot `id` of the file at creation with the contents it had then. */
  predicate Original(f: File, s: (nat, seq<Byte>), id: nat)
    requires WellFormed(f)
  {
    id < |f.offsets| && s == (id, Slot(f, id))
  }

  ghost predicate Untouched(f0: File, f: File, i: nat)
    requires WellFormed(f0) && WellFormed(f) && i < |f0.offsets| <= |f.offsets|
  {
    f.valid[i] == f0.valid[i] && Slot(f, i) == Slot(f0, i)
  }

  /** Everything ahead of the iterator is untouched; everything behind it has been returned. */
  ghost predicate Tracks(f0: File, r: Run) {
    && WellFormed(f0) && RunOk(r) && r.it.end == |f0.offsets| && r.it.next <= |f0.offsets| + 1
    && |f0.offsets| <= |r.f.offsets|
    && (forall i {:trigger Untouched(f0, r.f, i)} :: r.it.next <= i < |f0.offsets| ==> Untouched(f0, r.f, i))
    && SeenAre(f0, r.seen, ValidIds(f0, Min(r.it.next, |f0.offsets|)))
  }

  lemma {:induction false} FirstValidSkips(f: File, i: nat, end: nat)
    requires i <= end <= |f.valid|
    ensures var k := FirstValid(f.valid, i, end); (k < end ==> f.valid[k]) && ValidIds(f, k) == ValidIds(f, i)
    decreases end - i
  {
    if i < end && !f.valid[i] {
      FirstValidSkips(f, i + 1, end);
    }
  }

  lemma {:induction false} FirstValidSame(v: seq<bool>, w: seq<bool>, i: nat, end: nat)
    requires end <= |v| && end <= |w| && forall j :: i <= j < end ==> v[j] == w[j]
    ensures FirstValid(v, i, end) == FirstValid(w, i, end)
    decreases end - i
  {
    if i < end {
      FirstValidSame(v, w, i + 1, end);
    }
  }

  /** The iterator moves to the next slot in use of the file at creation. */
  lemma NextFollows(f0: File, r: Run)
    requires Tracks(f0, r) && r.it.next <= r.it.end
    ensures var i := FirstValid(f0.valid, r.it.next, r.it.end);
      && NextOf(r.f, r.it) == Iter(i + 1, r.it.end, i < r.it.end)
      && ValidIds(f0, i) == ValidIds(f0, r.it.next)
      && (i < r.it.end ==> f0.valid[i] && Untouched(f0, r.f, i))
  {
    var n, end := r.it.next, r.it.end;
    forall j | n <= j < end
      ensures r.f.valid[j] == f0.valid[j]
    {
      assert Untouched(f0, r.f, j);
    }
    FirstValidSame(r.f.valid, f0.valid, n, end);
    FirstValidSkips(f0, n, end);
    var i := FirstValid(f0.valid, n, end);
    assert i < end ==> Untouched(f0, r.f, i);
  }

  lemma NextTracks(f0: File, r: Run)
    requires Tracks(f0, r) && !r.full
    ensures Tracks(f0, Happen(r, Next))
  {
    NextOn(r.f, r.it);
    if r.it.next <= r.it.end {
      NextFollows(f0, r);
      if FirstValid(f0.valid, r.it.next, r.it.end) < r.it.end {
        NextReturns(f0, r, FirstValid(f0.valid, r.it.next, r.it.end));
      }
    } else {
      assert NextOf(r.f, r.it) == Iter(r.it.end + 1, r.it.end, false);
    }
  }

  lemma NextReturns(f0: File, r: Run, i: nat)
    requires Tracks(f0, r) && !r.full && r.it.next <= i < r.it.end && NextOf(r.f, r.it) == Iter(i + 1, r.it.end, true)
    requires ValidIds(f0, i) == ValidIds(f0, r.it.next) && f0.valid[i] && Untouched(f0, r.f, i)
    ensures Tracks(f0, Happen(r, Next))
  {
    SeenGrows(f0, r.seen, ValidIds(f0, r.it.next), i);
    NextOn(r.f, r.it);
    var r' := Happen(r, Next);
    assert r' == Run(r.f, Iter(i + 1, r.it.end, true), r.seen + [(i, Slot(f0, i))], false);
    assert Min(r'.it.next, |f0.offsets|) == i + 1;
  }

  /** The records returned so far are the listed slots of the file at creation. */
  ghost predicate SeenAre(f0: File, seen: seq<(nat, seq<Byte>)>, ids: seq<nat>)
    requires WellFormed(f0)
  {
    |seen| == |ids| && forall k {:trigger seen[k]} :: 0 <= k < |seen| ==> Original(f0, seen[k], ids[k])
  }

  lemma SeenGrows(f0: File, seen: seq<(nat, seq<Byte>)>, ids: seq<nat>, i: nat)
    requires WellFormed(f0) && SeenAre(f0, seen, ids) && i < |f0.offsets|
    ensures SeenAre(f0, seen + [(i, Slot(f0, i))], ids + [i])
  {
  }

  lemma UpdateKeepsOthers(f: File, c: nat, rec: seq<Byte>)
    requires WellFormed(f) && c < |f.offsets| && f.valid[c] && Update(f, c, rec).Some?
    ensures var g := Update(f, c, rec).value; WellFormed(g) && |f.offsets| <= |g.offsets|
    ensures var g := Update(f, c, rec).value;
      forall i :: 0 <= i < |f.offsets| && i != c ==> g.valid[i] == f.valid[i] && Slot(g, i) == Slot(f, i)
  {
    if |rec| <= |Slot(f, c)| {
      UpdateSlots(f, c, rec);
    } else {
      InvalidateRefines(f, c);
      AppendSlots(f.(valid := f.valid[c := false]), rec);
    }
  }

  lemma UpdateTracks(f0: File, r: Run, rec: seq<Byte>)
    requires Tracks(f0, r) && r.it.on && r.f.valid[r.it.next - 1] && Update(r.f, r.it.next - 1, rec).Some?
    ensures Tracks(f0, r.(f := Update(r.f, r.it.next - 1, rec).value))
  {
    UpdateKeepsOthers(r.f, r.it.next - 1, rec);
    var g := Update(r.f, r.it.next - 1, rec).value;
    forall i | r.it.next <= i < |f0.offsets|
      ensures Untouched(f0, g, i)
    {
      assert Untouched(f0, r.f, i);
    }
  }

  lemma AppendTracks(f0: File, r: Run, rec: seq<Byte>)
    requires Tracks(f0, r) && Append(r.f, rec).Some?
    ensures Tracks(f0, r.(f := Append(r.f, rec).value))
  {
    AppendSlots(r.f, rec);
    var g := Append(r.f, rec).value;
    forall i | r.it.next <= i < |f0.offsets|
      ensures Untouched(f0, g, i)
    {
      assert Untouched(f0, r.f, i);
    }
  }

  lemma HappenTracks(f0: File, r: Run, e: Event)
    requires Tracks(f0, r)
    ensures Tracks(f0, Happen(r, e))
  {
    if !r.full {
      match e
      case Next => NextTracks(f0, r);
      case UpdateCurrent(rec) =>
        if r.it.on && r.f.valid[r.it.next - 1] && Update(r.f, r.it.next - 1, rec).Some? {
          UpdateTracks(f0, r, rec);
        }
      case AppendNew(rec) =>
        if Append(r.f, rec).Some? {
          AppendTracks(f0, r, rec);
        }
    }
  }

  lemma {:induction false} RunTracks(f0: File, r: Run, es: seq<Event>)
    requires Tracks(f0, r)
    ensures Tracks(f0, RunAll(r, es))
    decreases |es|
  {
    if es != [] {
      HappenTracks(f0, r, es[0]);
      RunTracks(f0, Happen(r, es[0]), es[1..]);
    }
  }

  /**
   Iterator completeness: whatever updates of the current record and appends are interleaved, an iteration over
   the whole file returns the records live at its creation, each once, in slot order and with the contents they
   had then, and no other; when it has run out, it has returned all of them. Its 16-bit index never wraps.
   */
  lemma IterationComplete(f0: File, es: seq<Event>)
    requires WellFormed(f0)
    ensures RunOk(Run(f0, Start(f0, 0), [], false))
    ensures var r := RunAll(Run(f0, Start(f0, 0), [], false), es); var ids := ValidIds(f0, |f0.offsets|);
      && |r.seen| <= |ids| && r.it.next <= 0xffff
      && (forall k :: 0 <= k < |r.seen| ==> Original(f0, r.seen[k], ids[k]))
      && (r.it.next == |f0.offsets| + 1 ==> |r.seen| == |ids|)
  {
    var r0 := Run(f0, Start(f0, 0), [], false);
    RunTracks(f0, r0, es);
    var r := RunAll(r0, es);
    ValidIdsPrefix(f0, Min(r.it.next, |f0.offsets|), |f0.offsets|);
  }

  lemma {:induction false} ValidIdsPrefix(f: File, m: nat, n: nat)
    requires m <= n <= |f.valid|
    ensures ValidIds(f, m) <= ValidIds(f, n)
  {
    if m < n {
      ValidIdsPrefix(f, m, n - 1);
    }
  }

  /** `ValidIds` lists exactly the valid slots, in increasing order. */
  lemma {:induction false} ValidIdsExact(f: File, n: nat)
    requires n <= |f.valid|
    ensures forall i :: i in ValidIds(f, n) <==> 0 <= i < n && f.valid[i]
    ensures forall j, k :: 0 <= j < k < |ValidIds(f, n)| ==> ValidIds(f, n)[j] < ValidIds(f, n)[k]
  {
    if n > 0 {
      ValidIdsExact(f, n - 1);
      var ids := ValidIds(f, n - 1);
      forall k | 0 <= k < |ids|
        ensures ids[k] < n - 1
      {
        assert ids[k] in ids;
      }
    }
  }

  /** An iterator that has returned false returns false again. */
  lemma ExhaustedStays(f: File, it: Iter, g: File)
    requires it.end <= |f.valid| && it.end <= |g.valid| && !NextOf(f, it).on
    ensures !NextOf(g, NextOf(f, it)).on && NextOf(g, NextOf(f, it)) == NextOf(f, it)
  {
  }

  // ---------------------------------------------------------------- the mutable file and its iterator

  class InmemFile {
    var valid: seq<bool>
    var offsets: seq<nat>
    var bytes: seq<Byte>

    function State(): File
      reads this
    {
      File(valid, offsets, bytes)
    }

    constructor ()
      ensures State() == EMPTY && WellFormed(State())
    {
      valid, offsets, bytes := [], [], [];
    }

    /** `AppendRecord`: the slot id of the new record, or nothing if the file is full. */
    method AppendRecord(rec: seq<Byte>) returns (sid: Option<nat>)
      requires WellFormed(State())
      modifies this
      ensures sid == if |old(offsets)| >= MAX_SLOTS then None else Some(|old(offsets)|)
      ensures sid.None? ==> State() == old(State())
      ensures sid.Some? ==> Append(old(State()), rec) == Some(State()) && WellFormed(State())
    {
      if |offsets| >= MAX_SLOTS {
        return None;
      }
      AppendSlots(State(), rec);
      var offset := |bytes|;
      var newSize := AlignUp(8, offset + |rec|);
      valid := valid + [true];
      offsets := offsets + [offset];
      bytes := Put(Resize(bytes, newSize), offset, rec);
      return Some(|offsets| - 1);
    }
  }

  class CatFileIterator {
    const f: InmemFile
    var nextidx: nat
    const endidx: nat

    ghost predicate Valid()
      reads this, f
    {
      WellFormed(f.State()) && endidx <= |f.offsets|
    }

    /** `IterateCatEntry` and `IterateCatEntryFrom`. */
    constructor (file: InmemFile, first: nat)
      requires WellFormed(file.State())
      ensures Valid() && f == file && nextidx == first && endidx == |file.offsets|
    {
      f, nextidx, endidx := file, first, |file.offsets|;
    }

    /** `NextCatEntry`. */
    method NextCatEntry() returns (more: bool)
      requires Valid()
      modifies this
      ensures Valid()
      ensures Iter(nextidx, endidx, more) == NextOf(f.State(), Iter(old(nextidx), endidx, false))
    {
      var i := nextidx;
      while i < endidx
        invariant FirstValid(f.valid, i, endidx) == FirstValid(f.valid, nextidx, endidx)
        decreases endidx - i
      {
        if f.valid[i] {
          nextidx := i + 1;
          return true;
        }
        i := i + 1;
      }
      nextidx := endidx + 1;
      return false;
    }

    /** `GetCurrentCatEntry`: the bytes from the slot's offset on, as far as the slot reaches. */
    method GetCurrentCatEntry() returns (buf: seq<Byte>)
      requires Valid() && 0 < nextidx <= endidx && f.valid[nextidx - 1]
      ensures buf == Slot(f.State(), nextidx - 1) && (nextidx - 1) in Live(f.State())
    {
      var cur := nextidx - 1;
      assert cur + 1 < |f.offsets| ==> InOrder(f.offsets, cur, cur + 1);
      buf := f.bytes[f.offsets[cur]..if cur == |f.offsets| - 1 then |f.bytes| else f.offsets[cur + 1]];
    }

    /** `UpdateCurrentCatEntry`: the id under which the record now lives, or nothing if the file is full. */
    method UpdateCurrentCatEntry(rec: seq<Byte>) returns (sid: Option<nat>)
      requires Valid() && 0 < nextidx <= endidx && f.valid[nextidx - 1]
      modifies f
      ensures Update(old(f.State()), nextidx - 1, rec).Some? <==> sid.Some?
      ensures sid.Some? ==> Valid() && Update(old(f.State()), nextidx - 1, rec) == Some(f.State())
      ensures sid.Some? ==> sid.value == if |rec| <= |Slot(old(f.State()), nextidx - 1)| then nextidx - 1 else |old(f.offsets)|
    {
      var cur := nextidx - 1;
      assert cur + 1 < |f.offsets| ==> InOrder(f.offsets, cur, cur + 1);
      var len := if cur == |f.offsets| - 1 then |f.bytes| - f.offsets[cur] else f.offsets[cur + 1] - f.offsets[cur];
      if |rec| <= len {
        UpdateSlots(f.State(), cur, rec);
        f.bytes := Put(f.bytes, f.offsets[cur], rec);
        return Some(cur);
      }
      f.valid := f.valid[cur := false];
      sid := f.AppendRecord(rec);
    }
  }
}
