/**
 The record codec of src/catalog/Schema.cpp over byte sequences.

 Fields are taken in storage order: non-nullable fixed-length fields, then variable-length fields, then
 nullable fixed-length fields. `Write16` is the writer with every 16-bit conversion it performs. `Holds` and
 `Encodes` describe a well-formed payload without reference to the writer, over the unbounded integers.
 */
module Codec {
  import opened Base
  import opened Digits

  /** A value: SQL NULL, a pass-by-value 64-bit representation, or bytes passed by reference. */
  datatype Datum = Null | Val(rep: nat) | Ref(bytes: seq<Byte>)

  type Row = seq<Datum>

  /** `GetUInt32` and `GetOid`. */
  function U32(d: Datum): nat {
    if d.Val? then d.rep % 0x1_0000_0000 else 0
  }

  /** A type length as cached in a layout: -1 for variable-length. */
  type TypLen = x: int | -1 <= x <= I16_MAX

  /** The cached layout information of one field (`Schema::FieldInfo`). */
  datatype Field = Field(len: TypLen, align: Alignment, byref: bool, nullBit: int, offset: int)

  /** The layout of a schema with the fields listed in storage order. */
  datatype View = View(f: seq<Field>, nFixed: nat, nVar: nat, bitmapAt: int, endsAt: int, dataAt: int)

  predicate IsValueLen(len: int) {
    len == 1 || len == 2 || len == 4 || len == 8
  }

  predicate FieldOk(f: Field) {
    -1 <= f.nullBit && (!f.byref ==> IsValueLen(f.len))
  }

  predicate Regions(V: View) {
    0 <= V.bitmapAt <= V.endsAt && V.dataAt == V.endsAt + 2 * V.nVar <= I16_MAX && V.nFixed + V.nVar <= |V.f|
  }

  /** The regions of a layout: where each kind of field lives, and that fixed fields do not overlap. */
  ghost predicate Shape(V: View) {
    && Regions(V) && Aligned(2, V.endsAt)
    && (forall k {:trigger Placed(V, k)} :: 0 <= k < |V.f| ==> Placed(V, k))
    && (forall j, k {:trigger Apart(V, j, k)} :: 0 <= j < k < V.nFixed ==> Apart(V, j, k))
  }

  /** The field at position `k` is of the kind that belongs there. */
  ghost predicate Placed(V: View, k: nat)
    requires k < |V.f|
  {
    var f := V.f[k];
    FieldOk(f) &&
    if k < V.nFixed then
      f.len >= 0 && f.nullBit == -1 && 0 <= f.offset && Aligned(f.align, f.offset) && f.offset + f.len <= V.bitmapAt
    else if k < V.nFixed + V.nVar then f.len == -1 && f.byref && f.offset == -(k - V.nFixed) - 1
    else f.len >= 0 && f.nullBit >= 0 && f.offset == -(k - V.nFixed - V.nVar) - 1
  }

  ghost predicate Apart(V: View, j: nat, k: nat)
    requires j < |V.f| && k < |V.f|
  {
    V.f[j].offset + V.f[j].len <= V.f[k].offset
  }

  /** Every null bit lies between the bitmap and the end array. */
  ghost predicate BitsInside(V: View) {
    forall k {:trigger BitInside(V, k)} :: 0 <= k < |V.f| ==> BitInside(V, k)
  }

  ghost predicate BitInside(V: View, k: nat)
    requires k < |V.f|
  {
    V.f[k].nullBit >= 0 ==> V.bitmapAt + V.f[k].nullBit / 8 < V.endsAt
  }

  /** No two nullable fields share a null bit. */
  ghost predicate BitsDistinct(V: View) {
    forall j, k {:trigger BitsDiffer(V, j, k)} :: 0 <= j < k < |V.f| ==> BitsDiffer(V, j, k)
  }

  ghost predicate BitsDiffer(V: View, j: nat, k: nat)
    requires j < |V.f| && k < |V.f|
  {
    V.f[j].nullBit >= 0 ==> V.f[j].nullBit != V.f[k].nullBit
  }

  /** The datum has the representation that the field's type prescribes. */
  predicate Typed(f: Field, d: Datum) {
    d.Null? || if f.byref then d.Ref? && (f.len == -1 || |d.bytes| == f.len) else d.Val?
  }

  predicate TypedAt(V: View, ds: seq<Datum>, k: nat)
    requires k < |V.f| && k < |ds|
  {
    Typed(V.f[k], ds[k])
  }

  predicate RowTyped(V: View, ds: seq<Datum>) {
    |ds| == |V.f| && forall k {:trigger TypedAt(V, ds, k)} :: 0 <= k < |ds| ==> TypedAt(V, ds, k)
  }

  ghost predicate NullAllowed(V: View, ds: seq<Datum>, k: nat)
    requires k < |V.f| && k < |ds|
  {
    ds[k].Null? ==> V.f[k].nullBit >= 0 && BitInside(V, k)
  }

  /** NULLs occur in nullable fields only, and only in those whose null bit does not lie in the end array or behind it. */
  ghost predicate NullsAllowed(V: View, ds: seq<Datum>) {
    |ds| == |V.f| && forall k {:trigger NullAllowed(V, ds, k)} :: 0 <= k < |ds| ==> NullAllowed(V, ds, k)
  }

  // ---------------------------------------------------------------- values as bytes

  /** The bytes a value occupies in a payload. */
  function FieldBytes(f: Field, d: Datum): (r: seq<Byte>)
    ensures FieldOk(f) && Typed(f, d) && !d.Null? ==> |r| == DataLen(f, d)
  {
    match d
    case Null => []
    case Val(rep) => if f.len < 0 then [] else LowBytes(rep, f.len)
    case Ref(bytes) => bytes
  }

  /** The number of those bytes, as the writer determines it. */
  function DataLen(f: Field, d: Datum): nat {
    if f.len >= 0 then f.len else if d.Ref? then |d.bytes| else 0
  }

  /** What a value looks like after a round trip: only the low `len` bytes of a by-value datum survive. */
  function Stored(f: Field, d: Datum): (r: Datum)
    ensures Typed(f, d) ==> Typed(f, r)
  {
    if d.Val? then Val(FromBytes(FieldBytes(f, d))) else d
  }

  // ---------------------------------------------------------------- unbounded offsets

  /** The end of the payload after the first `k` fields, with no 16-bit limit. */
  function RunOff(V: View, ds: seq<Datum>, k: nat): int
    requires |ds| == |V.f| && k <= |V.f|
  {
    if k == 0 then V.dataAt
    else if V.f[k - 1].offset >= 0 || ds[k - 1].Null? then RunOff(V, ds, k - 1)
    else AlignUp(V.f[k - 1].align, RunOff(V, ds, k - 1)) + DataLen(V.f[k - 1], ds[k - 1])
  }

  /** Where field `k` begins if it is stored behind the end array. */
  function Begin(V: View, ds: seq<Datum>, k: nat): int
    requires |ds| == |V.f| && k < |V.f|
  {
    AlignUp(V.f[k].align, RunOff(V, ds, k))
  }

  /** The payload length: the end of the last field, rounded up to 8. */
  function Total(V: View, ds: seq<Datum>): int
    requires |ds| == |V.f|
  {
    AlignUp(8, RunOff(V, ds, |V.f|))
  }

  lemma {:induction false} RunOffMonotone(V: View, ds: seq<Datum>, j: nat, k: nat)
    requires |ds| == |V.f| && j <= k <= |V.f|
    ensures RunOff(V, ds, j) <= RunOff(V, ds, k)
  {
    if j < k {
      RunOffMonotone(V, ds, j, k - 1);
    }
  }

  lemma {:induction false} RunOffFixed(V: View, ds: seq<Datum>, k: nat)
    requires Shape(V) && |ds| == |V.f| && k <= V.nFixed
    ensures RunOff(V, ds, k) == V.dataAt
  {
    if k > 0 {
      assert Placed(V, k - 1);
      RunOffFixed(V, ds, k - 1);
    }
  }

  // ---------------------------------------------------------------- well-formed payloads

  /** Where the end array holds the entry of the variable-length field at position `k`. */
  function EndAt(V: View, k: int): int {
    V.endsAt + 2 * (k - V.nFixed)
  }

  /**
   What the field at position `k` contributes to the bytes: a fixed field its value at its offset; a field
   behind the end array its entry there, zero padding up to its alignment, and its value.
   */
  ghost predicate FieldHeld(V: View, ds: seq<Datum>, k: nat, b: seq<Byte>)
    requires |ds| == |V.f| && k < |V.f|
  {
    if k < V.nFixed then HoldsAt(b, V.f[k].offset, FieldBytes(V.f[k], ds[k]))
    else
      && (V.f[k].len == -1 ==> InRange(b, EndAt(V, k), 2) && Get16(b, EndAt(V, k)) == RunOff(V, ds, k + 1))
      && (!ds[k].Null? ==> ZeroAt(b, RunOff(V, ds, k), Begin(V, ds, k)) &&
                           HoldsAt(b, Begin(V, ds, k), FieldBytes(V.f[k], ds[k])))
  }

  ghost predicate ZeroAt(b: seq<Byte>, from: int, to: int) {
    forall i :: 0 <= i < |b| && from <= i < to ==> b[i] == 0
  }

  ghost predicate InFixed(V: View, k: nat, i: int)
    requires k <= |V.f|
  {
    exists j :: 0 <= j < k && j < V.nFixed && V.f[j].offset <= i < V.f[j].offset + V.f[j].len
  }

  /** The bytes in front of the bitmap that belong to none of the first `k` fields are zero. */
  ghost predicate GapsZero(V: View, k: nat, b: seq<Byte>)
    requires k <= |V.f|
  {
    forall i :: 0 <= i < V.bitmapAt && i < |b| && !InFixed(V, k, i) ==> b[i] == 0
  }

  ghost predicate NullAt(V: View, ds: seq<Datum>, k: nat, x: int)
    requires |ds| == |V.f| && k <= |V.f|
  {
    exists j :: 0 <= j < k && V.f[j].nullBit == x && ds[j].Null?
  }

  /** Bit `x` is set exactly if it is the null bit of a NULL among the first `k` fields. */
  ghost predicate BitHeld(V: View, ds: seq<Datum>, k: nat, b: seq<Byte>, x: nat)
    requires |ds| == |V.f| && k <= |V.f| && 0 <= V.bitmapAt + x / 8 < |b|
  {
    GetBit(b, V.bitmapAt, x) <==> NullAt(V, ds, k, x)
  }

  /** The bits between the bitmap and the end array are exactly the null bits of the NULL fields. */
  ghost predicate BitsHeld(V: View, ds: seq<Datum>, k: nat, b: seq<Byte>)
    requires |ds| == |V.f| && k <= |V.f| && Regions(V) && V.dataAt <= |b|
  {
    forall x {:trigger BitHeld(V, ds, k, b, x)} :: 0 <= x < 8 * (V.endsAt - V.bitmapAt) ==> BitHeld(V, ds, k, b, x)
  }

  ghost predicate FieldsHeld(V: View, ds: seq<Datum>, k: nat, b: seq<Byte>)
    requires |ds| == |V.f| && k <= |V.f|
  {
    forall j {:trigger FieldHeld(V, ds, j, b)} :: 0 <= j < k ==> FieldHeld(V, ds, j, b)
  }

  /** The same for the fields behind the end array only. */
  ghost predicate TailsHeld(V: View, ds: seq<Datum>, k: nat, b: seq<Byte>)
    requires |ds| == |V.f| && k <= |V.f|
  {
    forall j {:trigger FieldHeld(V, ds, j, b)} :: V.nFixed <= j < k ==> FieldHeld(V, ds, j, b)
  }

  /** `b` starts with the encoding of the first `k` fields. Bytes behind the running offset are free. */
  ghost predicate Holds(V: View, ds: seq<Datum>, k: nat, b: seq<Byte>)
    requires |ds| == |V.f| && k <= |V.f|
  {
    && Regions(V) && V.dataAt <= RunOff(V, ds, k) <= |b|
    && FieldsHeld(V, ds, k, b) && GapsZero(V, k, b) && BitsHeld(V, ds, k, b)
  }

  /** `p` is the payload of the row: all fields in place, every other bit zero, length a multiple of 8. */
  ghost predicate Encodes(V: View, ds: seq<Datum>, p: seq<Byte>)
    requires |ds| == |V.f|
  {
    |p| == Total(V, ds) && Holds(V, ds, |V.f|, p) && ZeroAt(p, RunOff(V, ds, |V.f|), |p|)
  }

  // ---------------------------------------------------------------- the writer, conversion by conversion

  /** The payload built so far and the 16-bit running offset. */
  datatype WState = WState(buf: seq<Byte>, off: int)

  /**
   The outcomes of `WritePayloadToBufferImpl`: the returned length with the payload, the return value -1,
   the error raised for a NULL in a non-nullable fixed field, or (`Corrupt`) an access outside the payload or a negative length.
   */
  datatype WResult = Wrote(len: int, payload: seq<Byte>) | TooLong | NullRejected | Corrupt

  datatype WStep = Go(st: WState) | Stop(res: WResult)

  /** `copy_bytes` of a fixed-length value to a fixed offset. */
  function StepFixed(f: Field, d: Datum, st: WState): WStep
  {
    if d.Null? then Stop(NullRejected)
    else if !InRange(st.buf, f.offset, |FieldBytes(f, d)|) then Stop(Corrupt)
    else Go(WState(Put(st.buf, f.offset, FieldBytes(f, d)), st.off))
  }

  /** Where the end array holds the entry of a variable-length field. */
  function EndOf(endsAt: int, f: Field): int {
    endsAt + 2 * (-f.offset - 1)
  }

  /** Storing `v` into the end array entry of a field, if the field has one. */
  function PutEnd(endsAt: int, f: Field, v: int, b: seq<Byte>): (r: seq<Byte>)
    requires f.len == -1 ==> InRange(b, EndOf(endsAt, f), 2)
    ensures |r| == |b|
    ensures forall i {:trigger r[i]} :: 0 <= i < |b| && !(f.len == -1 && EndOf(endsAt, f) <= i < EndOf(endsAt, f) + 2) ==> r[i] == b[i]
    ensures f.len == -1 ==> Get16(r, EndOf(endsAt, f)) == I16(v)
  {
    if f.len == -1 then Put16(b, EndOf(endsAt, f), v) else b
  }

  /** A NULL behind the end array: set the bit and repeat the running offset in the end array. */
  function StepNull(V: View, f: Field, st: WState): WStep {
    if !(0 <= V.bitmapAt + f.nullBit / 8 < |st.buf|) then Stop(Corrupt)
    else if f.len == -1 && !InRange(st.buf, EndOf(V.endsAt, f), 2) then Stop(Corrupt)
    else Go(WState(PutEnd(V.endsAt, f, st.off, SetBit(st.buf, V.bitmapAt, f.nullBit)), st.off))
  }

  /** The end array entry is set, the buffer is resized to the end of the value and the value copied there. */
  function TailBuf(endsAt: int, f: Field, d: Datum, newoff: nat, len: nat, b: seq<Byte>): (r: seq<Byte>)
    requires f.len == -1 ==> InRange(b, EndOf(endsAt, f), 2)
    ensures |r| == newoff + len
  {
    Put(Resize(PutEnd(endsAt, f, newoff + len, b), newoff + len), newoff, Resize(FieldBytes(f, d), len))
  }

  /** A non-null value behind the end array. `init` is the length of what precedes the payload. */
  function StepTail(V: View, f: Field, d: Datum, init: int, st: WState): WStep {
    var newoff := TypeAlign(f.align, st.off);
    if init + newoff < 0 then Stop(TooLong)
    else if f.len == -1 && !InRange(st.buf, EndOf(V.endsAt, f), 2) then Stop(Corrupt) else
      var len := I16(DataLen(f, d));
      if init + newoff + len < 0 then Stop(TooLong)
      else if newoff < 0 || len < 0 then Stop(Corrupt)
      else Go(WState(TailBuf(V.endsAt, f, d, newoff, len, st.buf), I16(newoff + len)))
  }

  function Step(V: View, f: Field, d: Datum, init: int, st: WState): WStep
  {
    if f.offset >= 0 then StepFixed(f, d, st)
    else if d.Null? then StepNull(V, f, st)
    else StepTail(V, f, d, init, st)
  }

  /** The final alignment and the length that is returned. */
  function Finish(init: int, st: WState): WResult {
    var off := TypeAlign(8, st.off);
    if init + off < 0 then TooLong
    else if off < 0 then Corrupt
    else Wrote(off, if off + init > I16(init + |st.buf|) then Resize(st.buf, off) else st.buf)
  }

  function WriteFrom(V: View, ds: seq<Datum>, init: int, k: nat, st: WState): WResult
    requires |ds| == |V.f| && k <= |V.f|
    decreases |V.f| - k
  {
    if k == |V.f| then Finish(init, st)
    else match Step(V, V.f[k], ds[k], init, st)
      case Stop(res) => res
      case Go(st') => WriteFrom(V, ds, init, k + 1, st')
  }

  /** The payload writer behind a prefix whose aligned 16-bit length is `init`. */
  function Write16(V: View, ds: seq<Datum>, init: int): WResult
    requires |ds| == |V.f|
  {
    if init < 0 || init + V.dataAt < 0 then TooLong
    else if V.dataAt < 0 then Corrupt
    else WriteFrom(V, ds, init, 0, WState(Zeros(V.dataAt), V.dataAt))
  }
}
