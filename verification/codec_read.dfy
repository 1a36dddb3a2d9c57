/**
 Reading a payload back from the layout, the null bits and the end array alone
 (src/catalog/Schema.cpp:248-332, 462-506), and what the reader makes of a well-formed payload.
 */
module CodecRead {
  import opened Base
  import opened Digits
  import opened Codec
  import opened CodecWrite

  /** `FieldIsNull`. */
  predicate IsNullAt(V: View, p: seq<Byte>, k: nat)
    requires k < |V.f| && BitReadable(V, p, k)
  {
    V.f[k].nullBit >= 0 && GetBit(p, V.bitmapAt, V.f[k].nullBit)
  }

  /** All null bits and the end array can be read. */
  ghost predicate Header(V: View, p: seq<Byte>) {
    && Regions(V) && V.dataAt <= |p|
    && forall k {:trigger BitReadable(V, p, k)} :: 0 <= k < |V.f| ==> BitReadable(V, p, k)
  }

  ghost predicate BitReadable(V: View, p: seq<Byte>, k: nat)
    requires k < |V.f|
  {
    V.f[k].nullBit >= 0 ==> 0 <= V.bitmapAt + V.f[k].nullBit / 8 < |p|
  }

  /** The 16-bit offset the reader has reached when its scan of the nullable fixed fields arrives at `k`. */
  function Scan(V: View, p: seq<Byte>, seqno: nat, k: nat, off: int): int
    requires Header(V, p) && seqno <= k < |V.f|
    decreases k - seqno
  {
    assert BitReadable(V, p, seqno);
    if seqno == k then off
    else if IsNullAt(V, p, seqno) then Scan(V, p, seqno + 1, k, off)
    else Scan(V, p, seqno + 1, k, I16(TypeAlign(V.f[seqno].align, off) + V.f[seqno].len))
  }

  /** Entry `idx` of the end array. */
  function EndEntry(V: View, p: seq<Byte>, idx: nat): (r: int)
    requires Regions(V) && V.dataAt <= |p| && idx < V.nVar
    ensures -0x8000 <= r <= I16_MAX
  {
    Get16(p, V.endsAt + 2 * idx)
  }

  /** Where that scan starts: the last entry of the end array, or the end of the empty end array. */
  function ScanStart(V: View, p: seq<Byte>): int
    requires Header(V, p)
  {
    if V.nVar == 0 then V.dataAt else EndEntry(V, p, V.nVar - 1)
  }

  /** Begin and length of a variable-length field, from its end array entry and the one before. */
  function VarRange(V: View, p: seq<Byte>, f: Field): (int, int)
    requires Header(V, p) && 0 <= -f.offset - 1 < V.nVar
  {
    var idx := -f.offset - 1;
    var end := EndEntry(V, p, idx);
    var begin := TypeAlign(f.align, if idx > 0 then EndEntry(V, p, idx - 1) else V.dataAt);
    (begin, if end >= begin then I16(end - begin) else 0)
  }

  /** `GetOffsetAndLength`. */
  function ReadRange(V: View, p: seq<Byte>, k: nat): (int, int)
    requires Shape(V) && Header(V, p) && k < |V.f|
  {
    var f := V.f[k];
    if f.offset >= 0 then (f.offset, f.len)
    else if f.len == -1 then
      PositionByKind(V, k);
      VarRange(V, p, f)
    else
      PositionByKind(V, k);
      (TypeAlign(f.align, Scan(V, p, V.nFixed + V.nVar, k, ScanStart(V, p))), f.len)
  }

  lemma PositionByKind(V: View, k: nat)
    requires Shape(V) && k < |V.f|
    ensures V.f[k].offset >= 0 <==> k < V.nFixed
    ensures V.f[k].offset < 0 && V.f[k].len == -1 ==> 0 <= -V.f[k].offset - 1 == k - V.nFixed < V.nVar
    ensures V.f[k].offset < 0 && V.f[k].len != -1 ==> V.nFixed + V.nVar <= k
  {
    assert Placed(V, k);
  }

  /** The bytes that `GetField` looks at lie inside the payload. */
  ghost predicate Readable(V: View, p: seq<Byte>, k: nat)
    requires k < |V.f|
  {
    && Shape(V) && Header(V, p) && BitReadable(V, p, k)
    && (!IsNullAt(V, p, k) ==> InRange(p, ReadRange(V, p, k).0, ReadRange(V, p, k).1))
  }

  /** `GetField`: NULL, the bytes of a by-reference value, or the zero-extended bytes of a by-value one. */
  function ReadField(V: View, p: seq<Byte>, k: nat): Datum
    requires k < |V.f| && Readable(V, p, k)
  {
    if IsNullAt(V, p, k) then Null else
      var (at, len) := ReadRange(V, p, k);
      if V.f[k].byref then Ref(p[at..at + len]) else Val(FromBytes(p[at..at + len]))
  }

  /** The row that a round trip gives back. */
  function StoredRow(V: View, ds: seq<Datum>): (r: seq<Datum>)
    requires |ds| == |V.f|
  {
    seq(|ds|, k requires 0 <= k < |ds| => Stored(V.f[k], ds[k]))
  }

  // ---------------------------------------------------------------- the reader on well-formed payloads

  ghost predicate Sound(V: View, ds: seq<Datum>) {
    RowOk(V, ds) && BitsInside(V) && BitsDistinct(V)
  }

  lemma HeaderHeld(V: View, ds: seq<Datum>, p: seq<Byte>)
    requires BitsInside(V) && RowOk(V, ds) && Holds(V, ds, |V.f|, p)
    ensures Header(V, p)
  {
    forall k | 0 <= k < |V.f|
      ensures BitReadable(V, p, k)
    {
      assert BitInside(V, k);
    }
  }

  lemma DistinctAt(V: View, k: nat, l: nat)
    requires BitsDistinct(V) && k < |V.f| && l < |V.f| && k != l && V.f[k].nullBit >= 0 && V.f[l].nullBit >= 0
    ensures V.f[k].nullBit != V.f[l].nullBit
  {
    assert BitsDiffer(V, if k < l then k else l, if k < l then l else k);
  }

  /** A null bit reads back as the nullness of its own field. */
  lemma NullRead(V: View, ds: seq<Datum>, p: seq<Byte>, k: nat)
    requires Sound(V, ds) && Holds(V, ds, |V.f|, p) && k < |V.f|
    ensures BitReadable(V, p, k) && (IsNullAt(V, p, k) <==> ds[k].Null?)
  {
    var x := V.f[k].nullBit;
    assert BitInside(V, k) && NullAllowed(V, ds, k);
    if x >= 0 {
      assert BitHeld(V, ds, |V.f|, p, x);
      if NullAt(V, ds, |V.f|, x) {
        var j :| 0 <= j < |V.f| && V.f[j].nullBit == x && ds[j].Null?;
        if j != k {
          DistinctAt(V, j, k);
        }
      }
    }
  }

  ghost predicate NullReads(V: View, ds: seq<Datum>, p: seq<Byte>, k: nat)
    requires k < |V.f| == |ds|
  {
    BitReadable(V, p, k) && (IsNullAt(V, p, k) <==> ds[k].Null?)
  }

  /** The null bits of the fields from position `from` on say which of them are NULL. */
  ghost predicate NullsReadFrom(V: View, ds: seq<Datum>, p: seq<Byte>, from: int)
    requires |ds| == |V.f|
  {
    forall k {:trigger NullReads(V, ds, p, k)} :: 0 <= k < |V.f| && from <= k ==> NullReads(V, ds, p, k)
  }

  lemma AllNullsRead(V: View, ds: seq<Datum>, p: seq<Byte>)
    requires Sound(V, ds) && Holds(V, ds, |V.f|, p)
    ensures NullsReadFrom(V, ds, p, 0)
  {
    forall k | 0 <= k < |V.f|
      ensures NullReads(V, ds, p, k)
    {
      NullRead(V, ds, p, k);
    }
  }

  /** The reader's 16-bit step over a non-null field is the unbounded one. */
  lemma StepExact(V: View, ds: seq<Datum>, k: nat)
    requires Shape(V) && RowTyped(V, ds) && V.nFixed <= k < |V.f| && !ds[k].Null? && RunOff(V, ds, |V.f|) <= I16_MAX
    ensures TypeAlign(V.f[k].align, RunOff(V, ds, k)) == Begin(V, ds, k)
    ensures I16(TypeAlign(V.f[k].align, RunOff(V, ds, k)) + DataLen(V.f[k], ds[k])) == RunOff(V, ds, k + 1)
    ensures 0 <= RunOff(V, ds, k) <= Begin(V, ds, k) <= RunOff(V, ds, k + 1) <= I16_MAX
  {
    TailFacts(V, ds, k);
    RunOffMonotone(V, ds, k + 1, |V.f|);
  }

  lemma ScanOver(V: View, p: seq<Byte>, seqno: nat, k: nat, off: int)
    requires Header(V, p) && seqno < k < |V.f| && BitReadable(V, p, seqno) && !IsNullAt(V, p, seqno)
    ensures Scan(V, p, seqno, k, off) ==
            Scan(V, p, seqno + 1, k, I16(TypeAlign(V.f[seqno].align, off) + V.f[seqno].len))
  {
  }

  /** The reader's scan over the nullable fixed fields follows the writer's running offset. */
  lemma {:induction false} ScanRefines(V: View, ds: seq<Datum>, p: seq<Byte>, seqno: nat, k: nat)
    requires Shape(V) && RowTyped(V, ds) && Header(V, p) && NullsReadFrom(V, ds, p, V.nFixed + V.nVar) && RunOff(V, ds, |V.f|) <= I16_MAX
    requires V.nFixed + V.nVar <= seqno <= k < |V.f|
    ensures Scan(V, p, seqno, k, RunOff(V, ds, seqno)) == RunOff(V, ds, k)
    decreases k - seqno
  {
    if seqno < k {
      assert NullReads(V, ds, p, seqno);
      KindFacts(V, seqno);
      ScanRefines(V, ds, p, seqno + 1, k);
      if ds[seqno].Null? {
        assert RunOff(V, ds, seqno + 1) == RunOff(V, ds, seqno);
      } else {
        StepExact(V, ds, seqno);
        ScanOver(V, p, seqno, k, RunOff(V, ds, seqno));
      }
    }
  }

  lemma EndRead(V: View, ds: seq<Datum>, p: seq<Byte>, j: nat)
    requires |ds| == |V.f| && Regions(V) && V.dataAt <= |p| && TailsHeld(V, ds, |V.f|, p)
    requires Shape(V) && V.nFixed <= j < V.nFixed + V.nVar
    ensures EndEntry(V, p, j - V.nFixed) == RunOff(V, ds, j + 1)
  {
    assert FieldHeld(V, ds, j, p) && Placed(V, j);
  }

  lemma ScanStartRefines(V: View, ds: seq<Datum>, p: seq<Byte>)
    requires Shape(V) && |ds| == |V.f| && Header(V, p) && TailsHeld(V, ds, |V.f|, p)
    ensures ScanStart(V, p) == RunOff(V, ds, V.nFixed + V.nVar)
  {
    if V.nVar == 0 {
      RunOffFixed(V, ds, V.nFixed);
    } else {
      EndRead(V, ds, p, V.nFixed + V.nVar - 1);
    }
  }

  lemma VarRefines(V: View, ds: seq<Datum>, p: seq<Byte>, k: nat)
    requires Shape(V) && RowTyped(V, ds) && Header(V, p) && TailsHeld(V, ds, |V.f|, p)
    requires RunOff(V, ds, |V.f|) <= I16_MAX && V.nFixed <= k < V.nFixed + V.nVar && !ds[k].Null?
    ensures V.f[k].offset == -(k - V.nFixed) - 1
    ensures VarRange(V, p, V.f[k]) == (Begin(V, ds, k), DataLen(V.f[k], ds[k]))
  {
    assert Placed(V, k);
    StepExact(V, ds, k);
    EndRead(V, ds, p, k);
    PreviousEnd(V, ds, p, k);
    VarEnd(V, ds, k);
  }

  lemma VarEnd(V: View, ds: seq<Datum>, k: nat)
    requires Shape(V) && |ds| == |V.f| && V.nFixed <= k < V.nFixed + V.nVar && !ds[k].Null?
    ensures RunOff(V, ds, k + 1) == Begin(V, ds, k) + DataLen(V.f[k], ds[k])
  {
    assert Placed(V, k);
  }

  /** The entry in front of a variable-length field, or the start of the data region, is where the writer was. */
  lemma PreviousEnd(V: View, ds: seq<Datum>, p: seq<Byte>, k: nat)
    requires Shape(V) && |ds| == |V.f| && Header(V, p) && TailsHeld(V, ds, |V.f|, p)
    requires V.nFixed <= k < V.nFixed + V.nVar
    ensures (if k > V.nFixed then EndEntry(V, p, k - V.nFixed - 1) else V.dataAt) == RunOff(V, ds, k)
  {
    if k > V.nFixed {
      EndRead(V, ds, p, k - 1);
    } else {
      RunOffFixed(V, ds, k);
    }
  }

  lemma NullFixedRefines(V: View, ds: seq<Datum>, p: seq<Byte>, k: nat)
    requires Shape(V) && RowTyped(V, ds) && Header(V, p) && NullsReadFrom(V, ds, p, V.nFixed + V.nVar) && TailsHeld(V, ds, |V.f|, p)
    requires RunOff(V, ds, |V.f|) <= I16_MAX && V.nFixed + V.nVar <= k < |V.f|
    ensures Scan(V, p, V.nFixed + V.nVar, k, ScanStart(V, p)) == RunOff(V, ds, k)
  {
    ScanStartRefines(V, ds, p);
    ScanRefines(V, ds, p, V.nFixed + V.nVar, k);
  }

  /**
   The reader's offset is the writer's: the range that `GetOffsetAndLength` reconstructs for a non-null field
   is the fixed offset or the aligned running offset at which the writer put it.
   */
  lemma ReadRangeRefines(V: View, ds: seq<Datum>, p: seq<Byte>, k: nat)
    requires Shape(V) && RowTyped(V, ds) && Header(V, p) && NullsReadFrom(V, ds, p, V.nFixed + V.nVar) && TailsHeld(V, ds, |V.f|, p)
    requires RunOff(V, ds, |V.f|) <= I16_MAX && k < |V.f| && !ds[k].Null?
    ensures ReadRange(V, p, k) == (PlaceOf(V, ds, k), DataLen(V.f[k], ds[k]))
  {
    PositionByKind(V, k);
    if k < V.nFixed {
      assert Placed(V, k);
    } else {
      KindFacts(V, k);
      if k < V.nFixed + V.nVar {
        VarRefines(V, ds, p, k);
      } else {
        NullFixedRefines(V, ds, p, k);
        StepExact(V, ds, k);
      }
    }
  }

  /** Where the writer puts a non-null field. */
  function PlaceOf(V: View, ds: seq<Datum>, k: nat): int
    requires |ds| == |V.f| && k < |V.f|
  {
    if k < V.nFixed then V.f[k].offset else Begin(V, ds, k)
  }

  /** The bytes of a non-null field are at that place. */
  lemma PlaceHeld(V: View, ds: seq<Datum>, p: seq<Byte>, k: nat)
    requires RowOk(V, ds) && FieldsHeld(V, ds, |V.f|, p) && k < |V.f| && !ds[k].Null?
    ensures HoldsAt(p, PlaceOf(V, ds, k), FieldBytes(V.f[k], ds[k]))
    ensures |FieldBytes(V.f[k], ds[k])| == DataLen(V.f[k], ds[k])
  {
    assert FieldHeld(V, ds, k, p);
    if k < V.nFixed {
      FixedFacts(V, ds, k);
    } else {
      TailFacts(V, ds, k);
    }
  }

  /** A value of the right type comes back from its bytes. */
  lemma ValueRead(f: Field, d: Datum)
    requires FieldOk(f) && Typed(f, d) && !d.Null?
    ensures (if f.byref then Ref(FieldBytes(f, d)) else Val(FromBytes(FieldBytes(f, d)))) == Stored(f, d)
  {
  }

  /** Reading the range where the value is held gives the value. */
  lemma ReadHeld(V: View, p: seq<Byte>, k: nat, at: int, d: Datum)
    requires Shape(V) && Header(V, p) && k < |V.f| && Typed(V.f[k], d) && !d.Null?
    requires BitReadable(V, p, k) && !IsNullAt(V, p, k)
    requires HoldsAt(p, at, FieldBytes(V.f[k], d)) && ReadRange(V, p, k) == (at, |FieldBytes(V.f[k], d)|)
    ensures Readable(V, p, k) && ReadField(V, p, k) == Stored(V.f[k], d)
  {
    HeldSlice(p, at, FieldBytes(V.f[k], d));
    assert Placed(V, k);
    ValueRead(V.f[k], d);
  }

  /** Each field of a well-formed payload reads back as the value stored, whatever follows the payload. */
  lemma ReadFieldExact(V: View, ds: seq<Datum>, p: seq<Byte>, k: nat)
    requires Sound(V, ds) && Holds(V, ds, |V.f|, p) && RunOff(V, ds, |V.f|) <= I16_MAX && k < |V.f|
    ensures Readable(V, p, k) && ReadField(V, p, k) == Stored(V.f[k], ds[k])
  {
    HeaderHeld(V, ds, p);
    AllNullsRead(V, ds, p);
    assert NullReads(V, ds, p, k) && TypedAt(V, ds, k);
    if !ds[k].Null? {
      ReadRangeRefines(V, ds, p, k);
      PlaceHeld(V, ds, p, k);
      ReadHeld(V, p, k, PlaceOf(V, ds, k), ds[k]);
    }
  }

  /**
   Round trip, self-delimiting: if a buffer starts with the payload of a row, every field reads back as the
   value stored; the bytes behind the payload do not matter.
   */
  lemma RoundTrip(V: View, ds: seq<Datum>, p: seq<Byte>, stale: seq<Byte>)
    requires Sound(V, ds) && Encodes(V, ds, p) && Total(V, ds) <= I16_MAX
    ensures forall k :: 0 <= k < |V.f| ==>
              Readable(V, p + stale, k) && ReadField(V, p + stale, k) == StoredRow(V, ds)[k]
  {
    HoldsFrame(V, ds, |V.f|, p, p + stale);
    forall k | 0 <= k < |V.f|
      ensures Readable(V, p + stale, k) && ReadField(V, p + stale, k) == StoredRow(V, ds)[k]
    {
      ReadFieldExact(V, ds, p + stale, k);
    }
  }
}
