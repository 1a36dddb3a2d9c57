/**
 Which schemas keep every row: all rows come back from their payloads if and only if the null bits fit
 (src/catalog/Schema.cpp:195-225). Where they do not, a row of empty values is lost.
 */
module RoundTrips {
  import opened Base
  import opened Codec
  import opened CodecWrite
  import opened CodecRead
  import opened Layout
  import opened Records

  // ---------------------------------------------------------------- rows of empty values

  /** A value behind the end array takes no room. */
  ghost predicate EmptyAt(V: View, ds: seq<Datum>, k: nat)
    requires k < |V.f| == |ds|
  {
    k < V.nFixed || ds[k].Null? || DataLen(V.f[k], ds[k]) == 0
  }

  ghost predicate AllEmpty(V: View, ds: seq<Datum>) {
    |ds| == |V.f| && forall k {:trigger EmptyAt(V, ds, k)} :: 0 <= k < |ds| ==> EmptyAt(V, ds, k)
  }

  /** The fixed-length fields have offsets of their own. */
  ghost predicate FrontPlaced(V: View) {
    forall k {:trigger EmptyOffset(V, k)} :: 0 <= k < V.nFixed && k < |V.f| ==> !EmptyOffset(V, k)
  }

  predicate EmptyOffset(V: View, k: nat)
    requires k < |V.f|
  {
    V.f[k].offset < 0
  }

  lemma ShapeFront(V: View)
    requires Shape(V)
    ensures FrontPlaced(V)
  {
    forall k | 0 <= k < V.nFixed && k < |V.f|
      ensures !EmptyOffset(V, k)
    {
      assert Placed(V, k);
    }
  }

  lemma {:induction false} EmptyFront(V: View, ds: seq<Datum>, k: nat)
    requires FrontPlaced(V) && AllEmpty(V, ds) && k <= |V.f|
    ensures V.dataAt <= RunOff(V, ds, k) <= AlignUp(8, V.dataAt)
  {
    if k > 0 {
      EmptyFront(V, ds, k - 1);
      assert EmptyAt(V, ds, k - 1) && (k - 1 < V.nFixed ==> !EmptyOffset(V, k - 1));
      AlignUpMonotone(V.f[k - 1].align, RunOff(V, ds, k - 1), AlignUp(8, V.dataAt));
      AlignedEight(V.f[k - 1].align, AlignUp(8, V.dataAt));
    }
  }

  lemma EmptyFrontTotal(V: View, ds: seq<Datum>)
    requires FrontPlaced(V) && AllEmpty(V, ds)
    ensures Total(V, ds) == AlignUp(8, V.dataAt)
  {
    EmptyFront(V, ds, |V.f|);
  }

  lemma EmptyRunOff(V: View, ds: seq<Datum>, k: nat)
    requires Shape(V) && AllEmpty(V, ds) && k <= |V.f|
    ensures V.dataAt <= RunOff(V, ds, k) <= AlignUp(8, V.dataAt)
  {
    ShapeFront(V);
    EmptyFront(V, ds, k);
  }

  lemma EmptyTotal(V: View, ds: seq<Datum>)
    requires Shape(V) && AllEmpty(V, ds)
    ensures Total(V, ds) == AlignUp(8, V.dataAt)
  {
    ShapeFront(V);
    EmptyFrontTotal(V, ds);
  }

  // ---------------------------------------------------------------- a null bit in the end array

  /** The NULL at position `k` is the only difference to a row that the codec theorems cover. */
  ghost predicate ButOne(V: View, ds: seq<Datum>, k: nat) {
    && Shape(V) && V.nFixed <= k < V.nFixed + V.nVar && k < |ds| && RowOk(V, ds) && !ds[k].Null?
    && AllEmpty(V, ds) && AllEmpty(V, ds[k := Null]) && AlignUp(8, V.dataAt) <= I16_MAX
  }

  /** Up to position `k` the two rows are written alike. */
  lemma {:induction false} SameUpTo(V: View, ds: seq<Datum>, k: nat, j: nat, st: WState) returns (r: WState)
    requires ButOne(V, ds, k) && j <= k && InStep(V, ds, j, st)
    ensures InStep(V, ds, k, r)
    ensures WriteFrom(V, ds[k := Null], 0, j, st) == WriteFrom(V, ds[k := Null], 0, k, r)
    decreases k - j
  {
    if j == k {
      r := st;
    } else {
      EmptyRunOff(V, ds, j + 1);
      StepHolds(V, ds, j, 0, st);
      var next :| Step(V, V.f[j], ds[j], 0, st) == Go(next) && InStep(V, ds, j + 1, next);
      WriteFromGo(V, ds[k := Null], 0, j, st, next);
      r := SameUpTo(V, ds, k, j + 1, next);
    }
  }

  /** The offset is in step, and the end array in front of the entry of position `k` is that of `c`. */
  ghost predicate EndsKept(V: View, ds: seq<Datum>, k: nat, c: seq<Byte>, j: nat, st: WState)
    requires |ds| == |V.f| && j <= |V.f|
  {
    V.dataAt <= st.off == RunOff(V, ds, j) == |st.buf| <= I16_MAX && SameBytes(c, st.buf, V.endsAt, EndAt(V, k))
  }

  lemma EndsKeptStep(V: View, ds: seq<Datum>, k: nat, c: seq<Byte>, j: nat, st: WState)
    requires ButOne(V, ds, k) && k < j < |V.f| && EndsKept(V, ds[k := Null], k, c, j, st)
    ensures Step(V, V.f[j], ds[k := Null][j], 0, st).Go?
    ensures EndsKept(V, ds[k := Null], k, c, j + 1, Step(V, V.f[j], ds[k := Null][j], 0, st).st)
  {
    KindFacts(V, j);
    EmptyRunOff(V, ds[k := Null], j + 1);
    if ds[j].Null? {
      assert NullAllowed(V, ds, j);
      StepNullEffect(V, ds, j, st);
    } else {
      assert TypedAt(V, ds, j);
      var d := StepTailEffect(V, ds[j], j, 0, st);
    }
  }

  lemma {:induction false} EndsKeptToEnd(V: View, ds: seq<Datum>, k: nat, c: seq<Byte>, j: nat, st: WState)
    requires ButOne(V, ds, k) && k < j <= |V.f| && EndsKept(V, ds[k := Null], k, c, j, st)
    ensures var r := WriteFrom(V, ds[k := Null], 0, j, st);
      r.Wrote? && V.dataAt <= |r.payload| && SameBytes(c, r.payload, V.endsAt, EndAt(V, k))
    decreases |V.f| - j
  {
    if j == |V.f| {
      EmptyTotal(V, ds[k := Null]);
    } else {
      EndsKeptStep(V, ds, k, c, j, st);
      EndsKeptToEnd(V, ds, k, c, j + 1, Step(V, V.f[j], ds[k := Null][j], 0, st).st);
    }
  }

  /** The entries of the end array in front of that of position `k` are the unbounded offsets. */
  ghost predicate EntriesHeld(V: View, ds: seq<Datum>, k: nat, b: seq<Byte>)
    requires k <= |V.f| == |ds|
  {
    V.dataAt <= |b| && forall j {:trigger EntryHeld(V, ds, j, b)} :: V.nFixed <= j < k ==> EntryHeld(V, ds, j, b)
  }

  ghost predicate EntryHeld(V: View, ds: seq<Datum>, j: nat, b: seq<Byte>)
    requires j < |V.f| == |ds|
  {
    InRange(b, EndAt(V, j), 2) && Get16(b, EndAt(V, j)) == RunOff(V, ds, j + 1)
  }

  /** The null bit of the field at position `k` lies in the end array, more than one entry in front of the field's own. */
  predicate BitInEnds(V: View, k: nat) {
    k < |V.f| && V.f[k].nullBit >= 0 && V.endsAt <= V.bitmapAt + V.f[k].nullBit / 8 < EndAt(V, k) - 2
  }

  /** The NULL is written, and its bit changes the end array. */
  lemma NullInEnds(V: View, ds: seq<Datum>, k: nat) returns (b: seq<Byte>)
    requires ButOne(V, ds, k) && BitInEnds(V, k)
    ensures EntriesHeld(V, ds, k, b) && EndAt(V, k) + 2 <= V.dataAt
    ensures var r := Write16(V, ds[k := Null], 0);
      r.Wrote? && V.dataAt <= |r.payload| && SameBytes(SetBit(b, V.bitmapAt, V.f[k].nullBit), r.payload, V.endsAt, EndAt(V, k))
  {
    KindFacts(V, k);
    ZerosHold(V, ds);
    var st := SameUpTo(V, ds, k, 0, WState(Zeros(V.dataAt), V.dataAt));
    b := st.buf;
    assert EntriesHeld(V, ds, k, b) by {
      EntriesOf(V, ds, k, b);
    }
    var next := StepNull(V, V.f[k], st).st;
    var c := SetBit(b, V.bitmapAt, V.f[k].nullBit);
    SameRunOff(V, ds, k, k);
    assert Step(V, V.f[k], Null, 0, st) == Go(next);
    assert EndsKept(V, ds[k := Null], k, c, k + 1, next);
    EndsKeptToEnd(V, ds, k, c, k + 1, next);
  }

  lemma {:induction false} SameRunOff(V: View, ds: seq<Datum>, k: nat, j: nat)
    requires |ds| == |V.f| && j <= k < |V.f|
    ensures RunOff(V, ds[k := Null], j) == RunOff(V, ds, j)
  {
    if j > 0 {
      SameRunOff(V, ds, k, j - 1);
    }
  }

  lemma EntriesOf(V: View, ds: seq<Datum>, k: nat, b: seq<Byte>)
    requires Shape(V) && |ds| == |V.f| && k <= V.nFixed + V.nVar && V.dataAt <= |b| && FieldsHeld(V, ds, k, b)
    ensures EntriesHeld(V, ds, k, b)
  {
    forall j | V.nFixed <= j < k
      ensures EntryHeld(V, ds, j, b)
    {
      assert FieldHeld(V, ds, j, b) && Placed(V, j);
    }
  }

  // ---------------------------------------------------------------- what is read back

  /** Setting a clear bit of a cell that holds an offset makes it larger, or negative. */
  lemma CellChanged(b: seq<Byte>, q: seq<Byte>, at: int, high: bool, m: nat)
    requires InRange(b, at, 2) && InRange(q, at, 2) && 0 <= Get16(b, at) <= I16_MAX - 7 && m < 8
    requires var B := if high then at + 1 else at; !BitOf(b[B], m) && q[B] == OrBit(b[B], m)
    requires var C := if high then at else at + 1; q[C] == b[C]
    ensures Get16(q, at) > Get16(b, at) || Get16(q, at) <= -8
  {
    var lo, hi := b[at], b[at + 1];
    I16OfWord(lo as int + 0x100 * (hi as int));
    I16OfWord(q[at] as int + 0x100 * (q[at + 1] as int));
    OrBitAdds(if high then hi else lo, m);
    if high {
      assert Pow2(7) == 2 * Pow2(6) == 4 * Pow2(5) == 8 * Pow2(4) == 128;
      if m < 7 {
        OrBitBound(hi, m, 7);
      }
    }
  }

  /** A variable-length field whose entry is too large does not read as empty. */
  lemma GrownField(V: View, ds: seq<Datum>, q: seq<Byte>, e: nat)
    requires Shape(V) && |ds| == |V.f| && V.nFixed <= e < V.nFixed + V.nVar && Readable(V, q, e)
    requires 0 <= RunOff(V, ds, e) <= RunOff(V, ds, e + 1) <= I16_MAX && RunOff(V, ds, e + 1) == Begin(V, ds, e)
    requires (if e > V.nFixed then EndEntry(V, q, e - V.nFixed - 1) else V.dataAt) == RunOff(V, ds, e)
    requires EndEntry(V, q, e - V.nFixed) > RunOff(V, ds, e + 1)
    ensures ReadField(V, q, e) != Ref([])
  {
    assert Placed(V, e);
    PositionByKind(V, e);
    var end := EndEntry(V, q, e - V.nFixed);
    assert VarRange(V, q, V.f[e]) == (Begin(V, ds, e), end - Begin(V, ds, e));
  }

  /** A variable-length field behind a negative entry does not read as empty. */
  lemma FieldBehindNegative(V: View, q: seq<Byte>, e: nat)
    requires Shape(V) && V.nFixed < e < V.nFixed + V.nVar && Readable(V, q, e)
    requires EndEntry(V, q, e - V.nFixed - 1) <= -8
    ensures ReadField(V, q, e) != Ref([])
  {
    assert Placed(V, e);
    PositionByKind(V, e);
    NegativeStays(V.f[e].align, EndEntry(V, q, e - V.nFixed - 1));
  }

  /** The row is written, and each field of the payload reads back as stored. */
  ghost predicate Back(V: View, ds: seq<Datum>) {
    && |ds| == |V.f| && Write16(V, ds, 0).Wrote?
    && forall k {:trigger ReadsBack(V, ds, Write16(V, ds, 0).payload, k)} :: 0 <= k < |V.f| ==>
         ReadsBack(V, ds, Write16(V, ds, 0).payload, k)
  }

  ghost predicate ReadsBack(V: View, ds: seq<Datum>, p: seq<Byte>, k: nat)
    requires k < |V.f| == |ds|
  {
    Readable(V, p, k) && ReadField(V, p, k) == Stored(V.f[k], ds[k])
  }

  /** All variable-length fields are empty strings. */
  ghost predicate EmptyStrings(V: View, ds: seq<Datum>) {
    |ds| == |V.f| && V.nFixed + V.nVar <= |ds| && forall k {:trigger ds[k]} :: V.nFixed <= k < V.nFixed + V.nVar ==> ds[k] == Ref([])
  }

  /** Where the bit of field `k` lies in the end array: the position whose entry it is in, and the byte of the entry. */
  lemma CellOfBit(V: View, k: nat) returns (e: nat, high: bool)
    requires Shape(V) && V.nFixed <= k < V.nFixed + V.nVar && BitInEnds(V, k)
    ensures V.nFixed <= e && e + 1 < k
    ensures V.bitmapAt + V.f[k].nullBit / 8 == EndAt(V, e) + if high then 1 else 0
  {
    var d := V.bitmapAt + V.f[k].nullBit / 8 - V.endsAt;
    e, high := V.nFixed + d / 2, d % 2 == 1;
  }

  /** A bit of an entry is in every payload what it was when the entry was stored. */
  lemma EntryBit(V: View, ds: seq<Datum>, k: nat, b: seq<Byte>, p: seq<Byte>, e: nat, x: nat)
    requires Shape(V) && |ds| == |V.f| && V.nFixed <= e < k <= V.nFixed + V.nVar
    requires EntriesHeld(V, ds, k, b) && EntriesHeld(V, ds, k, p)
    requires EndAt(V, e) <= V.bitmapAt + x / 8 < EndAt(V, e) + 2 && EndAt(V, e) + 2 <= |b| && EndAt(V, e) + 2 <= |p|
    ensures GetBit(p, V.bitmapAt, x) == GetBit(b, V.bitmapAt, x)
  {
    assert EntryHeld(V, ds, e, b) && EntryHeld(V, ds, e, p);
    Get16Injective(b, p, EndAt(V, e));
  }

  /** If the bit happens to be set by the offsets, the empty string at position `k` reads as NULL. */
  lemma OffsetReadsAsNull(V: View, ds: seq<Datum>, k: nat, b: seq<Byte>, e: nat)
    requires ButOne(V, ds, k) && BitInEnds(V, k) && EntriesHeld(V, ds, k, b)
    requires V.nFixed <= e < k && EndAt(V, e) <= V.bitmapAt + V.f[k].nullBit / 8 < EndAt(V, e) + 2 <= |b|
    requires GetBit(b, V.bitmapAt, V.f[k].nullBit)
    ensures !Back(V, ds)
  {
    EmptyTotal(V, ds);
    WriteFits(V, ds, 0);
    var p :| Write16(V, ds, 0) == Wrote(Total(V, ds), p) && Encodes(V, ds, p);
    EntriesOf(V, ds, k, p);
    EntryBit(V, ds, k, b, p, e, V.f[k].nullBit);
    assert !ReadsBack(V, ds, p, k);
  }

  /** An empty string ends where it begins. */
  lemma EmptyStringRange(V: View, ds: seq<Datum>, e: nat)
    requires Shape(V) && AllEmpty(V, ds) && V.nFixed <= e < V.nFixed + V.nVar && EmptyStrings(V, ds)
    ensures RunOff(V, ds, e + 1) == Begin(V, ds, e) && V.dataAt <= RunOff(V, ds, e) <= RunOff(V, ds, e + 1) <= AlignUp(8, V.dataAt)
    ensures e == V.nFixed ==> RunOff(V, ds, e) == V.dataAt
  {
    EmptyRunOff(V, ds, e);
    EmptyRunOff(V, ds, e + 1);
    RunOffMonotone(V, ds, e, e + 1);
    RunOffFixed(V, ds, V.nFixed);
    assert ds[e] == Ref([]) && Placed(V, e);
  }

  /** The changed entry is read back as a larger field or spoils the next one. */
  lemma ChangedEntryRead(V: View, ds: seq<Datum>, q: seq<Byte>, e: nat)
    requires Shape(V) && AllEmpty(V, ds) && V.nFixed <= e && e + 1 < V.nFixed + V.nVar && EmptyStrings(V, ds)
    requires AlignUp(8, V.dataAt) <= I16_MAX && Readable(V, q, e) && Readable(V, q, e + 1)
    requires EndEntry(V, q, e - V.nFixed) > RunOff(V, ds, e + 1) || EndEntry(V, q, e - V.nFixed) <= -8
    requires e > V.nFixed ==> EndEntry(V, q, e - V.nFixed - 1) == RunOff(V, ds, e)
    ensures ReadField(V, q, e) != Ref([]) || ReadField(V, q, e + 1) != Ref([])
  {
    if EndEntry(V, q, e - V.nFixed) <= -8 {
      FieldBehindNegative(V, q, e + 1);
    } else {
      EmptyStringRange(V, ds, e);
      GrownField(V, ds, q, e);
    }
  }

  lemma CellMarked(b: seq<Byte>, q: seq<Byte>, from: int, to: int, bitmapAt: int, x: nat, at: int, high: bool)
    requires from <= at && at + 2 <= to && bitmapAt + x / 8 == at + if high then 1 else 0
    requires InRange(b, at, 2) && InRange(q, at, 2) && 0 <= Get16(b, at) <= I16_MAX - 7
    requires SameBytes(SetBit(b, bitmapAt, x), q, from, to) && !GetBit(b, bitmapAt, x)
    ensures Get16(q, at) > Get16(b, at) || Get16(q, at) <= -8
  {
    CellChanged(b, q, at, high, x % 8);
  }

  lemma CellKept(b: seq<Byte>, q: seq<Byte>, from: int, to: int, bitmapAt: int, x: nat, at: int)
    requires from <= at && at + 2 <= to && at + 2 <= bitmapAt + x / 8 < |b|
    requires InRange(b, at, 2) && InRange(q, at, 2) && SameBytes(SetBit(b, bitmapAt, x), q, from, to)
    ensures Get16(q, at) == Get16(b, at)
  {
    Get16Same(b, q, at);
  }

  /** Setting a clear bit in the entry of position `e` changes that entry, and no earlier one. */
  lemma EntryChanged(V: View, ds: seq<Datum>, k: nat, b: seq<Byte>, q: seq<Byte>, e: nat, high: bool, x: nat)
    requires Shape(V) && AllEmpty(V, ds) && AlignUp(8, V.dataAt) <= I16_MAX && k <= |V.f| && EntriesHeld(V, ds, k, b)
    requires V.nFixed <= e && e + 1 < k < V.nFixed + V.nVar && V.dataAt <= |q|
    requires V.bitmapAt + x / 8 == EndAt(V, e) + (if high then 1 else 0) < |b| && !GetBit(b, V.bitmapAt, x)
    requires SameBytes(SetBit(b, V.bitmapAt, x), q, V.endsAt, EndAt(V, k))
    ensures Get16(q, EndAt(V, e)) > RunOff(V, ds, e + 1) || Get16(q, EndAt(V, e)) <= -8
    ensures e > V.nFixed ==> Get16(q, EndAt(V, e - 1)) == RunOff(V, ds, e)
  {
    EmptyRunOff(V, ds, e + 1);
    assert EntryHeld(V, ds, e, b);
    CellMarked(b, q, V.endsAt, EndAt(V, k), V.bitmapAt, x, EndAt(V, e), high);
    if e > V.nFixed {
      assert EntryHeld(V, ds, e - 1, b);
      CellKept(b, q, V.endsAt, EndAt(V, k), V.bitmapAt, x, EndAt(V, e - 1));
    }
  }

  /** If the bit is clear, a NULL at position `k` changes the length of an earlier field. */
  lemma NullChangesField(V: View, ds: seq<Datum>, k: nat, b: seq<Byte>, q: seq<Byte>, e: nat, high: bool)
    requires ButOne(V, ds, k) && BitInEnds(V, k) && EmptyStrings(V, ds) && EntriesHeld(V, ds, k, b)
    requires V.nFixed <= e && e + 1 < k && EndAt(V, k) <= |b| && V.dataAt <= |q|
    requires V.bitmapAt + V.f[k].nullBit / 8 == EndAt(V, e) + if high then 1 else 0
    requires !GetBit(b, V.bitmapAt, V.f[k].nullBit)
    requires SameBytes(SetBit(b, V.bitmapAt, V.f[k].nullBit), q, V.endsAt, EndAt(V, k))
    ensures !ReadsBack(V, ds[k := Null], q, e) || !ReadsBack(V, ds[k := Null], q, e + 1)
  {
    EntryChanged(V, ds, k, b, q, e, high, V.f[k].nullBit);
    if Readable(V, q, e) && Readable(V, q, e + 1) {
      ChangedEntryRead(V, ds, q, e);
    }
  }

  /** A null bit in the end array loses a row: the one with an empty string there, or the one with NULL there. */
  lemma BitInEndsLoses(V: View, ds: seq<Datum>, k: nat)
    requires ButOne(V, ds, k) && BitInEnds(V, k) && EmptyStrings(V, ds)
    ensures !Back(V, ds) || !Back(V, ds[k := Null])
  {
    var b := NullInEnds(V, ds, k);
    var e, high := CellOfBit(V, k);
    if GetBit(b, V.bitmapAt, V.f[k].nullBit) {
      OffsetReadsAsNull(V, ds, k, b, e);
    } else {
      NullChangesField(V, ds, k, b, Write16(V, ds[k := Null], 0).payload, e, high);
    }
  }

  /** A null bit that a NULL shares with an empty string loses the row. */
  lemma SharedBitLoses(V: View, ds: seq<Datum>, j: nat, k: nat)
    requires RowOk(V, ds) && AllEmpty(V, ds) && AlignUp(8, V.dataAt) <= I16_MAX && j < |V.f| && k < |V.f|
    requires V.f[j].nullBit == V.f[k].nullBit && ds[j].Null? && !ds[k].Null?
    ensures !Back(V, ds)
  {
    EmptyTotal(V, ds);
    WriteFits(V, ds, 0);
    var p :| Write16(V, ds, 0) == Wrote(Total(V, ds), p) && Encodes(V, ds, p);
    SharedBitLosesField(V, ds, p, j, k);
    assert !ReadsBack(V, ds, p, k);
  }

  // ---------------------------------------------------------------- rows in field order

  /** The row comes back from its payload, NULLs and values intact. */
  ghost predicate ComesBack(cols: seq<Col>, row: seq<Datum>)
    requires LayoutOf(cols).Some?
  {
    && |row| == |cols| && WriteRow(cols, row).Wrote? && RowReadable(cols, WriteRow(cols, row).payload)
    && RowIn(cols, WriteRow(cols, row).payload) == StoredIn(cols, row)
  }

  /** Every row that the schema accepts and that fits comes back. */
  ghost predicate AllComeBack(cols: seq<Col>)
    requires LayoutOf(cols).Some?
  {
    forall row: seq<Datum> {:trigger RowFor(cols, row)} :: RowFor(cols, row) && LengthOf(cols, row) <= I16_MAX ==> ComesBack(cols, row)
  }

  /** No row fits: even that of empty values is too long. */
  predicate NothingFits(cols: seq<Col>)
    requires LayoutOf(cols).Some?
  {
    AlignUp(8, LayoutOf(cols).value.dataAt) > I16_MAX
  }

  function EmptyValue(c: Col): Datum {
    if c.len == -1 then Ref([])
    else if c.nullable then Null
    else if c.byref then Ref(Zeros(c.len)) else Val(0)
  }

  /** Empty strings, zeros, and NULL in the nullable fixed-length fields. */
  function EmptyRow(cols: seq<Col>): (r: seq<Datum>)
    ensures |r| == |cols| && forall i {:trigger r[i]} :: 0 <= i < |cols| ==> r[i] == EmptyValue(cols[i])
  {
    seq(|cols|, i requires 0 <= i < |cols| => EmptyValue(cols[i]))
  }

  lemma EmptyRowFor(cols: seq<Col>)
    requires ColsOk(cols)
    ensures RowFor(cols, EmptyRow(cols))
    ensures forall i {:trigger cols[i]} :: 0 <= i < |cols| && cols[i].nullable ==> RowFor(cols, EmptyRow(cols)[i := Null])
  {
    forall i | 0 <= i < |cols|
      ensures Typed(FieldOf(cols, i), EmptyRow(cols)[i]) && (EmptyRow(cols)[i].Null? ==> cols[i].nullable)
    {
      assert ColOk(cols[i]);
    }
  }

  lemma EmptyRowOk(cols: seq<Col>)
    requires ColsOk(cols) && LayoutOf(cols).Some? && Count(cols, Var) < 16384
    ensures RowOk(ViewOf(cols), RowPlaced(cols, EmptyRow(cols)))
  {
    ShapeOfLayout(cols);
    EmptyRowFor(cols);
    var V, ds := ViewOf(cols), RowPlaced(cols, EmptyRow(cols));
    forall k | 0 <= k < |cols|
      ensures TypedAt(V, ds, k) && NullAllowed(V, ds, k)
    {
      PlacedField(cols, EmptyRow(cols), k);
      OrderAt(cols, k);
      var i := OrderOf(cols)[k];
      assert V.f[k] == FieldOf(cols, i) && ds[k] == EmptyValue(cols[i]);
      if ds[k].Null? {
        NullFixedBit(cols, i);
        RoomForBitmap(cols);
      }
    }
  }

  lemma EmptyRowEmpty(cols: seq<Col>, k: nat)
    requires ColsOk(cols) && LayoutOf(cols).Some? && Count(cols, Var) < 16384 && k < |cols|
    ensures var V, ds := ViewOf(cols), RowPlaced(cols, EmptyRow(cols));
      && AllEmpty(V, ds) && AllEmpty(V, ds[k := Null]) && EmptyStrings(V, ds)
  {
    ShapeOfLayout(cols);
    var V, ds := ViewOf(cols), RowPlaced(cols, EmptyRow(cols));
    forall j | 0 <= j < |cols|
      ensures EmptyAt(V, ds, j) && EmptyAt(V, ds[k := Null], j)
      ensures V.nFixed <= j < V.nFixed + V.nVar ==> ds[j] == Ref([])
    {
      OrderAt(cols, j);
      var i := OrderOf(cols)[j];
      assert V.f[j] == FieldOf(cols, i) && ds[j] == EmptyValue(cols[i]);
    }
  }

  lemma EmptyRowFits(cols: seq<Col>, i: nat)
    requires ColsOk(cols) && LayoutOf(cols).Some? && Count(cols, Var) < 16384 && i < |cols|
    ensures LengthOf(cols, EmptyRow(cols)) == LengthOf(cols, EmptyRow(cols)[i := Null]) == AlignUp(8, LayoutOf(cols).value.dataAt)
  {
    ShapeOfLayout(cols);
    ReplacePlaced(cols, EmptyRow(cols), i, Null);
    EmptyRowEmpty(cols, PositionOf(cols, i));
    EmptyTotal(ViewOf(cols), RowPlaced(cols, EmptyRow(cols)));
    EmptyTotal(ViewOf(cols), RowPlaced(cols, EmptyRow(cols)[i := Null]));
  }

  lemma ComesBackPlaced(cols: seq<Col>, row: seq<Datum>)
    requires LayoutOf(cols).Some? && ComesBack(cols, row)
    ensures Back(ViewOf(cols), RowPlaced(cols, row))
  {
    var V, ds, p := ViewOf(cols), RowPlaced(cols, row), WriteRow(cols, row).payload;
    forall k | 0 <= k < |cols|
      ensures ReadsBack(V, ds, p, k)
    {
      OrderAt(cols, k);
      var i := OrderOf(cols)[k];
      assert FieldReadable(cols, p, i) && FieldIn(cols, p, i) == StoredIn(cols, row)[i];
    }
  }

  /** A nullable variable-length field whose bit is that of a nullable fixed-length field. */
  lemma CollisionLoses(cols: seq<Col>, i: nat)
    requires ColsOk(cols) && LayoutOf(cols).Some? && Count(cols, Var) < 16384 && !NothingFits(cols)
    requires i < |cols| && Is(cols[i], NullVar)
    requires Count(cols, NullVar) <= |Pick(cols, Var, i)| < Count(cols, NullVar) + Count(cols, NullFixed)
    ensures !ComesBack(cols, EmptyRow(cols))
  {
    var V, ds := ViewOf(cols), RowPlaced(cols, EmptyRow(cols));
    var j := CollidingField(cols, |Pick(cols, Var, i)|);
    EmptyRowOk(cols);
    EmptyRowEmpty(cols, 0);
    assert ds[PositionOf(cols, i)] == EmptyValue(cols[i]) && ds[PositionOf(cols, j)] == EmptyValue(cols[j]);
    SharedBitLoses(V, ds, PositionOf(cols, j), PositionOf(cols, i));
    if ComesBack(cols, EmptyRow(cols)) {
      ComesBackPlaced(cols, EmptyRow(cols));
    }
  }

  /** A nullable variable-length field whose bit lies behind the room in front of the end array. */
  lemma OutsideBitLoses(cols: seq<Col>, i: nat)
    requires ColsOk(cols) && LayoutOf(cols).Some? && Count(cols, Var) < 16384 && !NothingFits(cols)
    requires i < |cols| && Is(cols[i], NullVar)
    requires |Pick(cols, Var, i)| / 8 >= LayoutOf(cols).value.endsAt - LayoutOf(cols).value.bitmapAt
    ensures !ComesBack(cols, EmptyRow(cols)) || !ComesBack(cols, EmptyRow(cols)[i := Null])
  {
    var V, row, k := ViewOf(cols), EmptyRow(cols), PositionOf(cols, i);
    var ds := RowPlaced(cols, row);
    ShapeOfLayout(cols);
    EmptyRowOk(cols);
    EmptyRowEmpty(cols, k);
    ReplacePlaced(cols, row, i, Null);
    PickFinds(cols, Var, |cols|, i);
    RoomForNullVar(cols, i);
    assert ds[k] == EmptyValue(cols[i]) && V.f[k] == FieldOf(cols, i);
    BitInEndsLoses(V, ds, k);
    if ComesBack(cols, row) && ComesBack(cols, row[i := Null]) {
      ComesBackPlaced(cols, row);
      ComesBackPlaced(cols, row[i := Null]);
    }
  }

  lemma RoomForNullVar(cols: seq<Col>, i: nat)
    requires LayoutOf(cols).Some? && Count(cols, Var) < 16384 && i < |cols| && Is(cols[i], NullVar)
    ensures LayoutOf(cols).value.endsAt - LayoutOf(cols).value.bitmapAt >= 1
  {
    PickFinds(cols, NullVar, |cols|, i);
    if Count(cols, Fixed) == |cols| {
      AllFixed(cols);
    } else {
      RoomForBitmap(cols);
    }
  }

  /** No row fits if that of empty values does not. */
  lemma NothingShorter(cols: seq<Col>, row: seq<Datum>)
    requires LayoutOf(cols).Some? && |row| == |cols|
    ensures LengthOf(cols, row) >= AlignUp(8, LayoutOf(cols).value.dataAt)
  {
    RunOffMonotone(ViewOf(cols), RowPlaced(cols, row), 0, |cols|);
    AlignUpMonotone(8, ViewOf(cols).dataAt, RunOff(ViewOf(cols), RowPlaced(cols, row), |cols|));
  }

  ghost predicate NullBitsFit(cols: seq<Col>)
    requires LayoutOf(cols).Some?
  {
    BitsFit(cols, LayoutOf(cols).value.endsAt - LayoutOf(cols).value.bitmapAt)
  }

  lemma FittingComesBack(cols: seq<Col>, row: seq<Datum>)
    requires Usable(cols) && RowFor(cols, row) && LengthOf(cols, row) <= I16_MAX
    ensures ComesBack(cols, row)
  {
    WriteRowFits(cols, row);
    RowRoundTrip(cols, row, WriteRow(cols, row).payload, WriteRow(cols, row).payload);
  }

  lemma EmptyRowLost(cols: seq<Col>, i: nat)
    requires ColsOk(cols) && LayoutOf(cols).Some? && Count(cols, Var) < 16384 && !NothingFits(cols)
    requires i < |cols| && cols[i].nullable
    requires !ComesBack(cols, EmptyRow(cols)) || !ComesBack(cols, EmptyRow(cols)[i := Null])
    ensures !AllComeBack(cols)
  {
    EmptyRowFor(cols);
    EmptyRowFits(cols, i);
  }

  /** If the null bits do not fit, one of two rows of empty values does not come back. */
  lemma SomeRowLost(cols: seq<Col>)
    requires ColsOk(cols) && LayoutOf(cols).Some? && Count(cols, Var) < 16384 && !NullBitsFit(cols) && !NothingFits(cols)
    ensures !AllComeBack(cols)
  {
    var room := LayoutOf(cols).value.endsAt - LayoutOf(cols).value.bitmapAt;
    var i :| 0 <= i < |cols| && Is(cols[i], NullVar) &&
      !(!(Count(cols, NullVar) <= |Pick(cols, Var, i)| < Count(cols, NullVar) + Count(cols, NullFixed))
        && |Pick(cols, Var, i)| / 8 < room);
    if |Pick(cols, Var, i)| / 8 >= room {
      OutsideBitLoses(cols, i);
    } else {
      CollisionLoses(cols, i);
    }
    EmptyRowLost(cols, i);
  }

  lemma BelowWrapExactly(cols: seq<Col>)
    requires ColsOk(cols) && LayoutOf(cols).Some? && Count(cols, Var) < 16384
    ensures AllComeBack(cols) <==> NullBitsFit(cols) || NothingFits(cols)
  {
    if NullBitsFit(cols) || NothingFits(cols) {
      forall row: seq<Datum> | RowFor(cols, row) && LengthOf(cols, row) <= I16_MAX
        ensures ComesBack(cols, row)
      {
        NothingShorter(cols, row);
        FittingComesBack(cols, row);
      }
    } else {
      SomeRowLost(cols);
    }
  }

  // ---------------------------------------------------------------- too many variable-length fields

  /** The first variable-length field has its entry behind the buffer, so the writer does not get past it. */
  lemma {:induction false} StuckAtFirstVar(V: View, ds: seq<Datum>, k: nat, st: WState)
    requires |ds| == |V.f| && k <= V.nFixed < |V.f| && forall j {:trigger V.f[j]} :: 0 <= j < V.nFixed ==> V.f[j].offset >= 0
    requires V.f[V.nFixed].offset == -1 && V.f[V.nFixed].len == -1 && |st.buf| < V.endsAt
    ensures !WriteFrom(V, ds, 0, k, st).Wrote?
    decreases V.nFixed - k
  {
    if k < V.nFixed {
      var next := Step(V, V.f[k], ds[k], 0, st);
      if next.Go? {
        StuckAtFirstVar(V, ds, k + 1, next.st);
      }
    }
  }

  lemma EndArrayWraps(ends: int, n: nat)
    requires 0 <= ends <= I16_MAX && 16384 <= n <= I16_MAX
    ensures AddWithCheck(ends, 2 * n) == (true, ends + 2 * n - 0x1_0000)
  {
    assert I16(2 * n) == 2 * n - 0x1_0000;
  }

  /** The data region then begins in front of the end array. */
  lemma WrappedRegions(cols: seq<Col>)
    requires ColsOk(cols) && LayoutOf(cols).Some? && Count(cols, Var) >= 16384
    ensures ViewOf(cols).dataAt == ViewOf(cols).endsAt + 2 * Count(cols, Var) - 0x1_0000 < ViewOf(cols).endsAt
    ensures Count(cols, Fixed) + Count(cols, Var) <= |cols| && ViewOf(cols).nFixed == Count(cols, Fixed)
  {
    PickPartition(cols, |cols|);
    EndArrayWraps(EndsAt(cols), Count(cols, Var));
  }

  lemma FrontOfLayout(cols: seq<Col>, j: nat)
    requires LayoutOf(cols).Some? && j <= Count(cols, Fixed) < Count(cols, Fixed) + Count(cols, Var) <= |cols|
    ensures j < Count(cols, Fixed) ==> ViewOf(cols).f[j].offset >= 0
    ensures j == Count(cols, Fixed) ==> ViewOf(cols).f[j].offset == -1 && ViewOf(cols).f[j].len == -1
  {
    OrderAt(cols, j);
    assert ViewOf(cols).f[j] == FieldOf(cols, OrderOf(cols)[j]);
    if j == Count(cols, Fixed) {
      PickAt(cols, Var, |cols|, 0);
    }
  }

  /**
   From 16384 variable-length fields on no row is ever written, whatever the other fields are. If the data region begins
   in front of the payload every row is refused as too long.
   */
  lemma WrapNeverWrites(cols: seq<Col>, row: seq<Datum>)
    requires ColsOk(cols) && LayoutOf(cols).Some? && Count(cols, Var) >= 16384 && |row| == |cols|
    ensures !WriteRow(cols, row).Wrote?
    ensures LayoutOf(cols).value.dataAt < 0 ==> WriteRow(cols, row) == TooLong
  {
    WrappedRegions(cols);
    var V, ds := ViewOf(cols), RowPlaced(cols, row);
    if V.dataAt >= 0 {
      forall j | 0 <= j <= Count(cols, Fixed)
        ensures j < Count(cols, Fixed) ==> V.f[j].offset >= 0
      {
        FrontOfLayout(cols, j);
      }
      FrontOfLayout(cols, Count(cols, Fixed));
      StuckAtFirstVar(V, ds, 0, WState(Zeros(V.dataAt), V.dataAt));
    }
  }

  lemma WrappedFront(cols: seq<Col>)
    requires ColsOk(cols) && LayoutOf(cols).Some? && Count(cols, Var) >= 16384
    ensures FrontPlaced(ViewOf(cols)) && ViewOf(cols).nFixed == Count(cols, Fixed)
  {
    WrappedRegions(cols);
    forall k | 0 <= k < Count(cols, Fixed)
      ensures !EmptyOffset(ViewOf(cols), k)
    {
      FrontOfLayout(cols, k);
    }
  }

  lemma EmptyRowAt(cols: seq<Col>, k: nat)
    requires LayoutOf(cols).Some? && ViewOf(cols).nFixed == Count(cols, Fixed) && k < |cols|
    ensures EmptyAt(ViewOf(cols), RowPlaced(cols, EmptyRow(cols)), k)
  {
    OrderAt(cols, k);
    var i := OrderOf(cols)[k];
    assert ViewOf(cols).f[k] == FieldOf(cols, i) && RowPlaced(cols, EmptyRow(cols))[k] == EmptyValue(cols[i]);
  }

  lemma WrappedEmptyRow(cols: seq<Col>)
    requires ColsOk(cols) && LayoutOf(cols).Some? && Count(cols, Var) >= 16384
    ensures LengthOf(cols, EmptyRow(cols)) == AlignUp(8, LayoutOf(cols).value.dataAt)
  {
    WrappedFront(cols);
    forall k | 0 <= k < |cols|
      ensures EmptyAt(ViewOf(cols), RowPlaced(cols, EmptyRow(cols)), k)
    {
      EmptyRowAt(cols, k);
    }
    EmptyFrontTotal(ViewOf(cols), RowPlaced(cols, EmptyRow(cols)));
  }

  lemma WrappedExactly(cols: seq<Col>)
    requires ColsOk(cols) && LayoutOf(cols).Some? && Count(cols, Var) >= 16384
    ensures AllComeBack(cols) <==> NothingFits(cols)
  {
    if NothingFits(cols) {
      forall row: seq<Datum> | RowFor(cols, row)
        ensures LengthOf(cols, row) > I16_MAX
      {
        NothingShorter(cols, row);
      }
    } else {
      EmptyRowFor(cols);
      WrappedEmptyRow(cols);
      WrapNeverWrites(cols, EmptyRow(cols));
    }
  }

  /**
   Every row that a schema accepts and that fits into a payload comes back from it if and only if the schema is usable,
   that is, has fewer than 16384 variable-length fields and null bits that fit, or no row fits at all.
   */
  lemma AllComeBackExactly(cols: seq<Col>)
    requires ColsOk(cols) && LayoutOf(cols).Some?
    ensures AllComeBack(cols) <==> Usable(cols) || NothingFits(cols)
  {
    if Count(cols, Var) < 16384 {
      BelowWrapExactly(cols);
    } else {
      WrappedExactly(cols);
    }
  }

  // ---------------------------------------------------------------- schemas on either side

  /** `n` strings that are not nullable. */
  function Strings(n: nat): (r: seq<Col>)
    ensures |r| == n && forall i {:trigger r[i]} :: 0 <= i < n ==> r[i] == Col(-1, 1, true, false)
  {
    seq(n, i => Col(-1, 1, true, false))
  }

  lemma {:induction false} StringsPicks(cols: seq<Col>, n: nat)
    requires n <= |cols| && forall i {:trigger cols[i]} :: 0 <= i < n ==> cols[i] == Col(-1, 1, true, false)
    ensures Pick(cols, Fixed, n) == [] && |Pick(cols, Var, n)| == n && FixedEnd(cols, n) == 0
    ensures Pick(cols, NullFixed, n) == [] && Pick(cols, NullVar, n) == []
  {
    if n > 0 {
      StringsPicks(cols, n - 1);
    }
  }

  /**
   However many strings there are, the layout is computed. From 16384 on the data region begins in front of the
   payload, and every row is refused as too long.
   */
  lemma ManyStrings(n: nat)
    requires 1 <= n <= I16_MAX
    ensures ColsOk(Strings(n)) && LayoutOf(Strings(n)).Some? && Count(Strings(n), Var) == n
    ensures LayoutOf(Strings(n)).value.dataAt == if n < 16384 then 2 * n else 2 * n - 0x1_0000
    ensures forall row: seq<Datum> {:trigger WriteRow(Strings(n), row)} :: |row| == n && n >= 16384 ==>
              WriteRow(Strings(n), row) == TooLong
  {
    StringsPicks(Strings(n), n);
  }

  /** Such strings and a nullable one behind them. */
  function StringsThenNullable(n: nat): seq<Col> {
    Strings(n) + [Col(-1, 1, true, true)]
  }

  lemma ThenNullablePicks(cols: seq<Col>, n: nat)
    requires |cols| == n + 1 <= I16_MAX && cols[n] == Col(-1, 1, true, true)
    requires forall i {:trigger cols[i]} :: 0 <= i < n ==> cols[i] == Col(-1, 1, true, false)
    ensures ColsOk(cols) && Count(cols, Var) == n + 1 && Is(cols[n], NullVar) && Count(cols, Fixed) == 0
    ensures |Pick(cols, Var, n)| == n && Count(cols, NullFixed) == 0 && Count(cols, NullVar) == 1 && FixedEnd(cols, |cols|) == 0
  {
    StringsPicks(cols, n);
  }

  lemma OneByteBitmap(n: nat)
    requires n < I16_MAX
    ensures AddWithCheck(2, 2 * (n + 1)).0 <==> n != 16382
    ensures n != 16382 ==> (AlignUp(8, AddWithCheck(2, 2 * (n + 1)).1) > I16_MAX <==> 16378 < n < 16382)
  {
    if n < 16383 {
      AddWithCheckExact(2, 2 * (n + 1));
    } else {
      EndArrayWraps(2, n + 1);
    }
  }

  lemma OneBitEnds(cols: seq<Col>)
    requires FixedEnd(cols, |cols|) == 0 && Count(cols, NullVar) == 1 && Count(cols, NullFixed) == 0
    ensures EndsAt(cols) == 2
  {
  }

  lemma OneBitLayout(cols: seq<Col>, n: nat)
    requires Count(cols, Var) == n + 1 == |cols| && FixedEnd(cols, |cols|) == 0 && Count(cols, Fixed) == 0 && EndsAt(cols) == 2
    ensures var (ok, dataAt) := AddWithCheck(2, 2 * (n + 1));
      LayoutOf(cols) == if ok then Some(Tables(cols, 0, 2, dataAt, false)) else None
  {
  }

  lemma NullableLastLayout(cols: seq<Col>, n: nat)
    requires Count(cols, Var) == n + 1 == |cols| <= I16_MAX && FixedEnd(cols, |cols|) == 0 && Count(cols, Fixed) == 0
    requires Count(cols, NullVar) == 1 && Count(cols, NullFixed) == 0
    ensures LayoutOf(cols).Some? <==> n != 16382
    ensures n != 16382 ==>
              var L := LayoutOf(cols).value;
              L.bitmapAt == 0 && L.endsAt == 2 && (NothingFits(cols) <==> 16378 < n < 16382)
  {
    OneBitEnds(cols);
    OneBitLayout(cols, n);
    OneByteBitmap(n);
  }

  /**
   From 16 strings in front on, a nullable string has its null bit in the end array, and rows are lost, but for where no
   row fits any more: with 16379 to 16381 strings in front. With 16382 there is no layout; with more there is, and rows
   are lost again.
   */
  lemma StringsThenNullableComeBack(n: nat)
    requires n < I16_MAX
    ensures LayoutOf(StringsThenNullable(n)).Some? <==> n != 16382
    ensures n != 16382 ==> (AllComeBack(StringsThenNullable(n)) <==> n < 16 || 16378 < n < 16382)
  {
    var cols := StringsThenNullable(n);
    assert cols[n] == Col(-1, 1, true, true) && |cols| == n + 1;
    ThenNullablePicks(cols, n);
    NullableLastLayout(cols, n);
    if n != 16382 {
      assert NullBitsFit(cols) <==> n / 8 < 2 by {
        assert forall i :: 0 <= i < n ==> !Is(cols[i], NullVar);
      }
      AllComeBackExactly(cols);
    }
  }

  /** A string, a nullable string and a nullable byte: the last two share a null bit. */
  function TwoSharing(): seq<Col> {
    [Col(-1, 1, true, false), Col(-1, 1, true, true), Col(1, 1, false, true)]
  }

  lemma TwoSharingPicks(n: nat)
    requires n <= 3
    ensures Pick(TwoSharing(), Fixed, n) == [] && FixedEnd(TwoSharing(), n) == 0
    ensures Pick(TwoSharing(), Var, n) == if n == 0 then [] else if n == 1 then [0] else [0, 1]
    ensures Pick(TwoSharing(), NullVar, n) == if n < 2 then [] else [1]
    ensures Pick(TwoSharing(), NullFixed, n) == if n < 3 then [] else [2]
  {
    if n > 0 {
      TwoSharingPicks(n - 1);
    }
  }

  lemma TwoSharingLayout()
    ensures var cols := TwoSharing();
      && ColsOk(cols) && LayoutOf(cols).Some? && Count(cols, Var) == 2 && Count(cols, NullVar) == 1
      && Count(cols, NullFixed) == 1 && |Pick(cols, Var, 1)| == 1 && Is(cols[1], NullVar) && LayoutOf(cols).value.dataAt == 6
    ensures EmptyRow(TwoSharing()) == [Ref([]), Ref([]), Null]
  {
    TwoSharingPicks(1);
    TwoSharingPicks(3);
    assert EndsAt(TwoSharing()) == 2;
  }

  /** An empty string next to a NULL byte is lost. */
  lemma TwoSharingLoses()
    ensures ColsOk(TwoSharing()) && LayoutOf(TwoSharing()).Some? && !NullBitsFit(TwoSharing())
    ensures RowFor(TwoSharing(), [Ref([]), Ref([]), Null]) && !ComesBack(TwoSharing(), [Ref([]), Ref([]), Null])
  {
    var cols := TwoSharing();
    TwoSharingLayout();
    EmptyRowFor(cols);
    CollisionLoses(cols, 1);
  }
}
