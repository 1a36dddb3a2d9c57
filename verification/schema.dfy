/**
 The class `Schema` of src/catalog/Schema.cpp: loops that fill the field table and the reorder index, the
 writer that grows a byte buffer in place, and the readers, each tied to the functions it implements.
 */
module Schemas {
  import opened Base
  import opened Digits
  import opened Codec
  import opened CodecRead
  import opened Layout

  /** The part of a `Type` catalog row that the layout needs. */
  datatype TypeInfo = TypeInfo(typlen: TypLen, typalign: Alignment, isVarlen: bool, byref: bool, hasLenFunc: bool)

  predicate TypeOk(t: TypeInfo) {
    && (t.isVarlen ==> t.byref)
    && (!t.isVarlen && t.hasLenFunc ==> t.byref)
    && (!t.isVarlen && !t.hasLenFunc ==> IsValueLen(t.typlen))
  }

  /** One entry of `m_field`. */
  datatype Info = Info(typid: nat, typparam: nat, f: Field)

  /** `CHAR_typlen`, the only length function, raises an error for a parameter that is no 16-bit length. */
  predicate LengthRaises(t: TypeInfo, typparam: nat) {
    !t.isVarlen && t.hasLenFunc && typparam > I16_MAX
  }

  function ColOf(t: TypeInfo, typparam: nat, nullable: bool): Col {
    if t.isVarlen then Col(-1, t.typalign, true, nullable)
    else if !t.hasLenFunc then Col(t.typlen, t.typalign, t.byref, nullable)
    else Col(if typparam > I16_MAX then 0 else typparam, t.typalign, t.byref, nullable)
  }

  /**
   How a field of a type is stored: a `CHAR` has its parameter as length, every other type that is not of variable length
   the length of its row.
   */
  predicate StoredAs(t: TypeInfo, typparam: nat, f: Field) {
    && f.align == t.typalign && (f.byref <==> t.isVarlen || t.byref)
    && (t.isVarlen ==> f.len == -1)
    && (!t.isVarlen && t.hasLenFunc ==> f.len == typparam)
    && (!t.isVarlen && !t.hasLenFunc ==> f.len == t.typlen)
  }

  type Types = map<nat, TypeInfo>

  /** Every field is stored as its declared type and type parameter say. */
  ghost predicate AllStoredAs(types: Types, infos: seq<Info>) {
    forall i {:trigger infos[i]} :: 0 <= i < |infos| ==>
      infos[i].typid in types && StoredAs(types[infos[i].typid], infos[i].typparam, infos[i].f)
  }

  /** The field's type is in the catalog; its null bit is -1 or a bit number. */
  predicate KnownInfo(types: Types, info: Info) {
    info.typid in types && TypeOk(types[info.typid]) && info.f.nullBit >= -1
  }

  predicate Known(types: Types, infos: seq<Info>) {
    forall i :: 0 <= i < |infos| ==> KnownInfo(types, infos[i])
  }

  function ColsOf(types: Types, infos: seq<Info>): (r: seq<Col>)
    requires Known(types, infos)
    ensures |r| == |infos|
    ensures forall i :: 0 <= i < |infos| ==>
              r[i] == ColOf(types[infos[i].typid], infos[i].typparam, infos[i].f.nullBit >= 0)
  {
    seq(|infos|, i requires 0 <= i < |infos| => ColOf(types[infos[i].typid], infos[i].typparam, infos[i].f.nullBit >= 0))
  }

  predicate AnyRaises(types: Types, infos: seq<Info>)
    requires Known(types, infos)
  {
    exists i :: 0 <= i < |infos| && LengthRaises(types[infos[i].typid], infos[i].typparam)
  }

  lemma LaidOutAsDeclared(types: Types, was: seq<Info>, infos: seq<Info>)
    requires Known(types, was) && !AnyRaises(types, was) && SameDeclared(was, infos)
    requires FieldsIn(infos) == FieldsOf(ColsOf(types, was))
    ensures AllStoredAs(types, infos)
  {
    forall i | 0 <= i < |infos|
      ensures infos[i].typid in types && StoredAs(types[infos[i].typid], infos[i].typparam, infos[i].f)
    {
      assert SameInfo(was[i], infos[i]) && KnownInfo(types, was[i]);
      assert !LengthRaises(types[was[i].typid], was[i].typparam);
      assert infos[i].f == FieldsIn(infos)[i] == FieldOf(ColsOf(types, was), i);
    }
  }

  datatype Status = Done | Overflow | Raised

  /** The field table keeps its type ids, type parameters and nullability. */
  ghost predicate SameDeclared(a: seq<Info>, b: seq<Info>) {
    |a| == |b| && forall i :: 0 <= i < |a| ==> SameInfo(a[i], b[i])
  }

  predicate SameInfo(a: Info, b: Info) {
    a.typid == b.typid && a.typparam == b.typparam && (a.f.nullBit >= 0 <==> b.f.nullBit >= 0) &&
    (a.f.nullBit >= -1 ==> b.f.nullBit >= -1)
  }

  /** What the first loop leaves in an entry: everything but the null bit. */
  ghost predicate FirstPassDone(cols: seq<Col>, i: nat, info: Info, was: Info)
    requires i < |cols|
  {
    info == was.(f := FieldOf(cols, i).(nullBit := was.f.nullBit))
  }

  /** The numbers of non-nullable fixed, nullable fixed, variable-length and nullable variable-length fields. */
  type Counts = (int, int, int, int)

  ghost predicate CountsAt(cs: seq<Col>, i: nat, c: Counts)
    requires i <= |cs|
  {
    && c.0 == |Pick(cs, Fixed, i)| && c.1 == |Pick(cs, NullFixed, i)|
    && c.2 == |Pick(cs, Var, i)| && c.3 == |Pick(cs, NullVar, i)|
  }

  /** The list starts with the ids. */
  ghost predicate Listed(order: seq<nat>, ids: seq<nat>) {
    |ids| <= |order| && forall k {:trigger order[k]} :: 0 <= k < |ids| ==> order[k] == ids[k]
  }

  /** The state of the first loop after `i` fields. */
  ghost predicate Measured(types: Types, cs: seq<Col>, was: seq<Info>, i: nat, infos: seq<Info>, order: seq<nat>,
                           off: int, c: Counts)
    requires Known(types, was)
  {
    && i <= |cs| == |was| == |infos| == |order|
    && off == FixedEnd(cs, i) <= I16_MAX && CountsAt(cs, i, c)
    && Listed(order, Pick(cs, Fixed, i))
    && (forall j :: 0 <= j < i ==>
          KnownInfo(types, was[j]) && FirstPassDone(cs, j, infos[j], was[j]) && !LengthRaises(types[was[j].typid], was[j].typparam))
    && (forall j :: i <= j < |was| ==> infos[j] == was[j])
  }

  lemma MeasuredStep(types: Types, cs: seq<Col>, was: seq<Info>, i: nat, infos: seq<Info>, order: seq<nat>,
                     off: int, c: Counts, info: Info, order': seq<nat>, off': int, c': Counts)
    requires Known(types, was) && Measured(types, cs, was, i, infos, order, off, c) && i < |was|
    requires KnownInfo(types, was[i]) && !LengthRaises(types[was[i].typid], was[i].typparam)
    requires FirstPassDone(cs, i, info, was[i]) && off' == FixedEnd(cs, i + 1) <= I16_MAX && CountsAt(cs, i + 1, c')
    requires order' == if Is(cs[i], Fixed) then order[|Pick(cs, Fixed, i)| := i] else order
    ensures Measured(types, cs, was, i + 1, infos[i := info], order', off', c')
  {
    PickSteps(cs, i);
  }

  lemma MeasuredNext(types: Types, cs: seq<Col>, was: seq<Info>, i: nat, infos: seq<Info>, order: seq<nat>,
                     off: int, c: Counts)
    requires Known(types, was) && Measured(types, cs, was, i, infos, order, off, c) && i < |was|
    ensures infos[i] == was[i] && KnownInfo(types, was[i]) && 0 <= c.0 <= i && off == FixedEnd(cs, i) <= I16_MAX
  {
    assert KnownInfo(types, was[i]);
  }

  lemma MeasuredStored(types: Types, cs: seq<Col>, was: seq<Info>, infos: seq<Info>, order: seq<nat>, off: int, c: Counts)
    requires Known(types, was) && cs == ColsOf(types, was) && Measured(types, cs, was, |cs|, infos, order, off, c)
    ensures AllStoredAs(types, infos)
  {
    forall i | 0 <= i < |infos|
      ensures infos[i].typid in types && StoredAs(types[infos[i].typid], infos[i].typparam, infos[i].f)
    {
      assert KnownInfo(types, was[i]) && FirstPassDone(cs, i, infos[i], was[i]);
    }
  }

  lemma MeasuringFails(types: Types, cs: seq<Col>, was: seq<Info>, i: nat, infos: seq<Info>, order: seq<nat>,
                       off: int, c: Counts, info: Info, status: Status)
    requires Known(types, was) && Measured(types, cs, was, i, infos, order, off, c) && i < |was|
    requires SameInfo(was[i], info) && KnownInfo(types, was[i])
    requires status.Raised? ==> LengthRaises(types[was[i].typid], was[i].typparam)
    requires status.Overflow? ==> FixedEnd(cs, i + 1) > I16_MAX
    ensures SameDeclared(was, infos[i := info])
    ensures status.Raised? ==> AnyRaises(types, was)
    ensures status.Overflow? ==> FixedEnd(cs, |cs|) > I16_MAX
  {
    MeasuredKeepsDeclared(types, cs, was, i, infos, order, off, c);
    FixedEndMonotone(cs, i + 1, |cs|);
  }

  lemma MeasuredKeepsDeclared(types: Types, cs: seq<Col>, was: seq<Info>, i: nat, infos: seq<Info>, order: seq<nat>,
                              off: int, c: Counts)
    requires Known(types, was) && Measured(types, cs, was, i, infos, order, off, c)
    ensures SameDeclared(was, infos)
  {
    forall j | 0 <= j < |was|
      ensures SameInfo(was[j], infos[j])
    {
      if j < i {
        assert FirstPassDone(cs, j, infos[j], was[j]);
      }
    }
  }

  /** One more column extends exactly the lists of its kinds. */
  lemma PickSteps(cols: seq<Col>, i: nat)
    requires i < |cols|
    ensures forall s :: Pick(cols, s, i + 1) == if Is(cols[i], s) then Pick(cols, s, i) + [i] else Pick(cols, s, i)
    ensures FixedEnd(cols, i + 1) ==
            if Is(cols[i], Fixed) then AlignUp(cols[i].align, FixedEnd(cols, i)) + cols[i].len else FixedEnd(cols, i)
  {
  }

  /** The reorder index during the second loop: complete for the fixed fields, filled up to `i` for the others. */
  ghost predicate Ordered(cols: seq<Col>, i: nat, order: seq<nat>)
    requires i <= |cols|
  {
    && |order| == |cols|
    && (forall j :: 0 <= j < |cols| && Is(cols[j], Fixed) ==> PositionOf(cols, j) < |cols| && order[PositionOf(cols, j)] == j)
    && (forall j :: 0 <= j < i && !Is(cols[j], Fixed) ==> PositionOf(cols, j) < |cols| && order[PositionOf(cols, j)] == j)
  }

  lemma OrderedFixed(cols: seq<Col>, order: seq<nat>)
    requires |order| == |cols| && Count(cols, Fixed) <= |cols|
    requires Listed(order, Pick(cols, Fixed, |cols|))
    ensures Ordered(cols, 0, order)
  {
    forall j | 0 <= j < |cols| && Is(cols[j], Fixed)
      ensures PositionOf(cols, j) < |cols| && order[PositionOf(cols, j)] == j
    {
      PickFinds(cols, Fixed, |cols|, j);
    }
  }

  lemma OrderedStep(cols: seq<Col>, i: nat, order: seq<nat>)
    requires i < |cols| && Ordered(cols, i, order)
    ensures PositionOf(cols, i) < |cols|
    ensures Ordered(cols, i + 1, if Is(cols[i], Fixed) then order else order[PositionOf(cols, i) := i])
  {
    PositionFinds(cols, i);
    forall j | 0 <= j < |cols| && j != i
      ensures PositionOf(cols, j) < |cols| && PositionOf(cols, j) != PositionOf(cols, i)
    {
      PositionFinds(cols, j);
    }
  }

  lemma OrderedAll(cols: seq<Col>, order: seq<nat>)
    requires Ordered(cols, |cols|, order)
    ensures order == OrderOf(cols)
  {
    OrderInRange(cols);
    forall k | 0 <= k < |cols|
      ensures order[k] == OrderOf(cols)[k]
    {
      OrderAt(cols, k);
      var i := OrderOf(cols)[k];
      assert order[PositionOf(cols, i)] == i;
    }
  }

  class ByteBuf {
    var bytes: seq<Byte>
    constructor ()
      ensures bytes == []
    {
      bytes := [];
    }
  }

  /** The value `WritePayloadToBuffer` hands back, or how it fails. */
  datatype WriteOutcome = Length(len: int) | MinusOne | Rejected | OutOfPayload

  function OutcomeOf(r: WResult): WriteOutcome {
    match r
    case Wrote(len, _) => Length(len)
    case TooLong => MinusOne
    case NullRejected => Rejected
    case Corrupt => OutOfPayload
  }

  /** One round of the first loop: the new field entry, the running offset and the counters. */
  method MeasureField(t: TypeInfo, info: Info, begin: int, n0: int, n1: int, n2: int, n3: int, ghost cs: seq<Col>, ghost i: nat)
    returns (status: Status, info': Info, off: int, fixed: int, nullFixed: int, varlen: int, nullVar: int)
    requires TypeOk(t) && i < |cs| && cs[i] == ColOf(t, info.typparam, info.f.nullBit >= 0) && info.f.nullBit >= -1
    requires begin == FixedEnd(cs, i) <= I16_MAX && CountsAt(cs, i, (n0, n1, n2, n3))
    ensures SameInfo(info, info')
    ensures status.Raised? <==> LengthRaises(t, info.typparam)
    ensures status.Overflow? ==> FixedEnd(cs, i + 1) > I16_MAX
    ensures status.Done? ==> FirstPassDone(cs, i, info', info) && off == FixedEnd(cs, i + 1) <= I16_MAX
    ensures status.Done? ==> CountsAt(cs, i + 1, (fixed, nullFixed, varlen, nullVar))
    ensures status.Done? ==> fixed == n0 + if Is(cs[i], Fixed) then 1 else 0
  {
    PickSteps(cs, i);
    status, info', off, fixed, nullFixed, varlen, nullVar := Done, info, begin, n0, n1, n2, n3;
    var nullBit := info.f.nullBit;
    if t.isVarlen {
      varlen := varlen + 1;
      info' := info.(f := Field(-1, t.typalign, true, nullBit, -varlen));
      if nullBit >= 0 {
        nullVar := nullVar + 1;
      }
      return;
    }
    var len := t.typlen;
    if t.hasLenFunc {
      if info.typparam > I16_MAX {
        status := Raised;
        return;
      }
      len := info.typparam;
    }
    if nullBit >= 0 {
      nullFixed := nullFixed + 1;
      info' := info.(f := Field(len, t.typalign, t.byref, nullBit, -nullFixed));
      return;
    }
    off := TypeAlign(t.typalign, off);
    if off < 0 {
      status := Overflow;
      return;
    }
    info' := info.(f := Field(len, t.typalign, t.byref, nullBit, off));
    AddWithCheckExact(off, len);
    var (ok, sum) := AddWithCheck(off, len);
    if !ok {
      status := Overflow;
      return;
    }
    off := sum;
    fixed := fixed + 1;
  }

  /** The state of the second loop after `i` fields. */
  ghost predicate Assigned(cs: seq<Col>, was: seq<Info>, i: nat, infos: seq<Info>, order: seq<nat>, nullable: int) {
    && i <= |cs| == |was| == |infos| && Ordered(cs, i, order)
    && nullable == |Pick(cs, NullVar, i)| + |Pick(cs, NullFixed, i)|
    && (forall j :: 0 <= j < i ==> infos[j] == was[j].(f := FieldOf(cs, j)))
    && (forall j :: i <= j < |cs| ==> FirstPassDone(cs, j, infos[j], was[j]))
  }

  ghost predicate AllDeclare(cs: seq<Col>, was: seq<Info>) {
    |cs| == |was| && forall j :: 0 <= j < |cs| ==> NullBitDeclares(cs[j], was[j])
  }

  predicate NullBitDeclares(c: Col, info: Info) {
    info.f.nullBit >= -1 && (c.nullable <==> info.f.nullBit >= 0)
  }

  lemma AssignedRoom(cs: seq<Col>, was: seq<Info>, i: nat, infos: seq<Info>, order: seq<nat>, nullable: int)
    requires Assigned(cs, was, i, infos, order, nullable) && AllDeclare(cs, was) && i < |cs|
    ensures FirstPassDone(cs, i, infos[i], was[i]) && NullBitDeclares(cs[i], was[i])
    ensures PositionOf(cs, i) < |cs|
  {
    PositionFinds(cs, i);
  }

  lemma AssignedStep(cs: seq<Col>, was: seq<Info>, i: nat, infos: seq<Info>, order: seq<nat>, nullable: int,
                     infos': seq<Info>, order': seq<nat>, nullable': int)
    requires Assigned(cs, was, i, infos, order, nullable) && i < |cs|
    requires infos' == infos[i := was[i].(f := FieldOf(cs, i))]
    requires PositionOf(cs, i) < |order|
    requires order' == if Is(cs[i], Fixed) then order else order[PositionOf(cs, i) := i]
    requires nullable' == |Pick(cs, NullVar, i + 1)| + |Pick(cs, NullFixed, i + 1)|
    ensures Assigned(cs, was, i + 1, infos', order', nullable')
  {
    OrderedStep(cs, i, order);
  }

  /** One round of the second loop: the final field entry and its place in the reorder index, if it gets one. */
  method AssignField(info: Info, fixed: int, varlen: int, nullVar: int, before: int, ghost cs: seq<Col>, ghost i: nat,
                     ghost was: Info)
    returns (info': Info, position: int, nullable: int)
    requires i < |cs| && FirstPassDone(cs, i, info, was) && NullBitDeclares(cs[i], was)
    requires fixed == Count(cs, Fixed) && varlen == Count(cs, Var) && nullVar == Count(cs, NullVar)
    requires before == |Pick(cs, NullVar, i)| + |Pick(cs, NullFixed, i)|
    ensures info' == was.(f := FieldOf(cs, i))
    ensures position == if Is(cs[i], Fixed) then -1 else PositionOf(cs, i)
    ensures nullable == |Pick(cs, NullVar, i + 1)| + |Pick(cs, NullFixed, i + 1)|
  {
    PickSteps(cs, i);
    info', position, nullable := info, -1, before;
    if info.f.len == -1 {
      position := fixed + (-info.f.offset - 1);
      if info.f.nullBit >= 0 {
        info' := info.(f := info.f.(nullBit := -info.f.offset - 1));
        nullable := nullable + 1;
      }
    } else if info.f.nullBit >= 0 {
      position := fixed + varlen + (-info.f.offset - 1);
      info' := info.(f := info.f.(nullBit := -info.f.offset - 1 + nullVar));
      nullable := nullable + 1;
    }
  }

  /** The offsets of the end array and of the data region behind it. */
  method RegionOffsets(off: int, nullable: int, varlen: int) returns (status: Status, ends: int, data: int)
    requires 0 <= off <= I16_MAX && 0 <= nullable <= I16_MAX && 0 <= varlen <= I16_MAX
    ensures status != Raised
    ensures status.Done? <==> AlignUp(2, off + (nullable + 7) / 8) <= I16_MAX &&
                              AddWithCheck(AlignUp(2, off + (nullable + 7) / 8), 2 * varlen).0
    ensures status.Done? ==> ends == AlignUp(2, off + (nullable + 7) / 8) && data == AddWithCheck(ends, 2 * varlen).1
  {
    status, ends, data := Overflow, 0, 0;
    AddWithCheckExact(off, (nullable + 7) / 8);
    var (ok, behind) := AddWithCheck(off, (nullable + 7) / 8);
    if ok {
      ends := TypeAlign(2, behind);
      if ends >= 0 {
        var (ok', sum) := AddWithCheck(ends, 2 * varlen);
        if ok' {
          status, data := Done, sum;
        }
      }
    }
  }

  /** What the first loop hands to the second. */
  lemma MeasuredAll(types: Types, cs: seq<Col>, was: seq<Info>, infos: seq<Info>, order: seq<nat>, off: int, c: Counts)
    requires Known(types, was) && cs == ColsOf(types, was) && Measured(types, cs, was, |cs|, infos, order, off, c)
    ensures !AnyRaises(types, was)
    ensures c.0 == Count(cs, Fixed) && c.1 == Count(cs, NullFixed) && c.2 == Count(cs, Var) && c.3 == Count(cs, NullVar)
    ensures 0 <= off == FixedEnd(cs, |cs|) <= I16_MAX && c.0 + c.1 + c.2 == |cs|
    ensures Assigned(cs, was, 0, infos, order, 0) && AllDeclare(cs, was)
  {
    PickPartition(cs, |cs|);
    OrderedFixed(cs, order);
    forall j | 0 <= j < |cs|
      ensures FirstPassDone(cs, j, infos[j], was[j]) && NullBitDeclares(cs[j], was[j])
      ensures !LengthRaises(types[was[j].typid], was[j].typparam)
    {
      assert KnownInfo(types, was[j]);
    }
  }

  /** The offsets of the regions are those of the layout. */
  lemma RegionsLaidOut(cs: seq<Col>, off: int, nullable: int, varlen: int, status: Status, ends: int, data: int)
    requires off == FixedEnd(cs, |cs|) <= I16_MAX && nullable == Count(cs, NullVar) + Count(cs, NullFixed)
    requires varlen == Count(cs, Var) && Count(cs, Fixed) != |cs| && status != Raised
    requires status.Done? <==> AlignUp(2, off + (nullable + 7) / 8) <= I16_MAX &&
                               AddWithCheck(AlignUp(2, off + (nullable + 7) / 8), 2 * varlen).0
    requires status.Done? ==> ends == AlignUp(2, off + (nullable + 7) / 8) && data == AddWithCheck(ends, 2 * varlen).1
    ensures status.Done? <==> LayoutOf(cs).Some?
    ensures status.Done? ==> LayoutOf(cs).value == Tables(cs, off, ends, data, false)
  {
  }

  function FieldsIn(infos: seq<Info>): (r: seq<Field>)
    ensures |r| == |infos| && forall i :: 0 <= i < |infos| ==> r[i] == infos[i].f
  {
    seq(|infos|, i requires 0 <= i < |infos| => infos[i].f)
  }

  lemma FieldsMatch(cs: seq<Col>, infos: seq<Info>)
    requires |infos| == |cs| && forall j :: 0 <= j < |cs| ==> infos[j].f == FieldOf(cs, j)
    ensures FieldsIn(infos) == FieldsOf(cs)
  {
  }

  lemma FirstPassFixed(cs: seq<Col>, j: nat, info: Info, was: Info)
    requires j < |cs| && Is(cs[j], Fixed) && FirstPassDone(cs, j, info, was) && NullBitDeclares(cs[j], was)
    ensures info.f == FieldOf(cs, j)
  {
  }

  lemma OnlyFixedOrder(cs: seq<Col>)
    requires Count(cs, Fixed) == |cs|
    ensures OrderOf(cs) == Pick(cs, Fixed, |cs|)
  {
    PickPartition(cs, |cs|);
    assert Pick(cs, Var, |cs|) == [] && Pick(cs, NullFixed, |cs|) == [];
  }

  /** A schema of non-nullable fixed fields only is complete after the first loop. */
  lemma MeasuredFixed(types: Types, cs: seq<Col>, was: seq<Info>, infos: seq<Info>, order: seq<nat>, off: int, c: Counts)
    requires Known(types, was) && cs == ColsOf(types, was) && Measured(types, cs, was, |cs|, infos, order, off, c)
    requires c.0 == |cs|
    ensures order == OrderOf(cs) && FieldsIn(infos) == FieldsOf(cs)
  {
    MeasuredAll(types, cs, was, infos, order, off, c);
    AllFixed(cs);
    OnlyFixedOrder(cs);
    forall j | 0 <= j < |cs|
      ensures infos[j].f == FieldOf(cs, j)
    {
      FirstPassFixed(cs, j, infos[j], was[j]);
    }
    FieldsMatch(cs, infos);
  }

  lemma {:induction false} NullableCount(cs: seq<Col>, n: nat)
    requires n <= |cs|
    ensures |Pick(cs, NullVar, n)| + |Pick(cs, NullFixed, n)| <= n
  {
    if n > 0 {
      NullableCount(cs, n - 1);
    }
  }

  lemma AssignedAll(cs: seq<Col>, was: seq<Info>, infos: seq<Info>, order: seq<nat>, nullable: int)
    requires Assigned(cs, was, |cs|, infos, order, nullable) && AllDeclare(cs, was)
    ensures order == OrderOf(cs) && FieldsIn(infos) == FieldsOf(cs)
    ensures nullable == Count(cs, NullVar) + Count(cs, NullFixed) <= |cs|
    ensures SameDeclared(was, infos)
  {
    OrderedAll(cs, order);
    FieldsMatch(cs, infos);
    NullableCount(cs, |cs|);
    forall j | 0 <= j < |was|
      ensures SameInfo(was[j], infos[j])
    {
      assert NullBitDeclares(cs[j], was[j]);
    }
  }

  /** The same declarations give the same columns. */
  lemma DeclaredAgain(types: Types, before: seq<Info>, after: seq<Info>)
    requires Known(types, before) && SameDeclared(before, after)
    ensures Known(types, after) && ColsOf(types, after) == ColsOf(types, before)
    ensures AnyRaises(types, after) <==> AnyRaises(types, before)
  {
    forall i | 0 <= i < |after|
      ensures KnownInfo(types, after[i]) && SameInfo(before[i], after[i])
    {
      assert KnownInfo(types, before[i]);
    }
  }

  // ---------------------------------------------------------------- a payload behind a prefix

  lemma PutBehind(prefix: seq<Byte>, b: seq<Byte>, at: int, v: seq<Byte>)
    requires 0 <= at
    ensures InRange(prefix + b, |prefix| + at, |v|) <==> InRange(b, at, |v|)
    ensures InRange(b, at, |v|) ==> Put(prefix + b, |prefix| + at, v) == prefix + Put(b, at, v)
  {
  }

  lemma ResizeBehind(prefix: seq<Byte>, b: seq<Byte>, n: nat)
    ensures Resize(prefix + b, |prefix| + n) == prefix + Resize(b, n)
  {
  }

  lemma Put16Behind(prefix: seq<Byte>, b: seq<Byte>, at: int, v: int)
    requires InRange(b, at, 2)
    ensures Put16(prefix + b, |prefix| + at, v) == prefix + Put16(b, at, v)
  {
  }

  lemma PutEndBehind(endsAt: int, f: Field, v: int, prefix: seq<Byte>, b: seq<Byte>)
    requires f.len == -1 ==> InRange(b, EndOf(endsAt, f), 2)
    ensures prefix + PutEnd(endsAt, f, v, b) ==
            if f.len == -1 then Put16(prefix + b, |prefix| + EndOf(endsAt, f), v) else prefix + b
  {
    if f.len == -1 {
      Put16Behind(prefix, b, EndOf(endsAt, f), v);
    }
  }

  lemma SetBitBehind(prefix: seq<Byte>, b: seq<Byte>, at: int, i: int)
    requires 0 <= at + i / 8 < |b|
    ensures SetBit(prefix + b, |prefix| + at, i) == prefix + SetBit(b, at, i)
  {
  }

  /** Setting the end array entry at `entry`, resizing the buffer to the end of a value and copying the value there. */
  method StoreValue(endsAt: int, f: Field, d: Datum, bytes: seq<Byte>, init: nat, newoff: nat, len: nat,
                    ghost prefix: seq<Byte>, ghost b: seq<Byte>)
    returns (r: seq<Byte>)
    requires |prefix| == init && bytes == prefix + b && (f.len == -1 ==> InRange(b, EndOf(endsAt, f), 2))
    ensures r == prefix + TailBuf(endsAt, f, d, newoff, len, b)
  {
    PutEndBehind(endsAt, f, newoff + len, prefix, b);
    r := if f.len == -1 then Put16(bytes, init + EndOf(endsAt, f), newoff + len) else bytes;
    r := AppendValue(r, init, newoff, newoff + len, Resize(FieldBytes(f, d), len), prefix, PutEnd(endsAt, f, newoff + len, b));
  }

  /** Resizing the buffer to the end of a value and copying the value there. */
  method AppendValue(bytes: seq<Byte>, init: nat, at: nat, end: nat, value: seq<Byte>, ghost prefix: seq<Byte>, ghost b: seq<Byte>)
    returns (r: seq<Byte>)
    requires |prefix| == init && bytes == prefix + b && at + |value| == end
    ensures r == prefix + Put(Resize(b, end), at, value)
  {
    ResizeBehind(prefix, b, end);
    r := Resize(bytes, init + end);
    ghost var grown := Resize(b, end);
    assert r == prefix + grown;
    r := CopyBytes(r, init, at, value, prefix, grown);
  }

  /** `copy_bytes`. */
  method CopyBytes(bytes: seq<Byte>, init: nat, at: nat, value: seq<Byte>, ghost prefix: seq<Byte>, ghost b: seq<Byte>)
    returns (r: seq<Byte>)
    requires |prefix| == init && bytes == prefix + b && at + |value| <= |b|
    ensures r == prefix + Put(b, at, value)
  {
    PutBehind(prefix, b, at, value);
    r := Put(bytes, init + at, value);
  }

  /** The final alignment of the payload, behind the prefix. */
  method FinishPayload(init: nat, off: int, buf: ByteBuf, ghost prefix: seq<Byte>, ghost st: WState) returns (r: WriteOutcome)
    requires |prefix| == init && buf.bytes == prefix + st.buf && off == st.off
    modifies buf
    ensures r == OutcomeOf(Finish(init, st))
    ensures Finish(init, st).Wrote? ==> buf.bytes == prefix + Finish(init, st).payload
  {
    var end := TypeAlign(8, off);
    if init + end < 0 {
      return MinusOne;
    }
    if end < 0 {
      return OutOfPayload;
    }
    if end + init > I16(|buf.bytes|) {
      ResizeBehind(prefix, st.buf, end);
      buf.bytes := Resize(buf.bytes, end + init);
    }
    return Length(end);
  }

  lemma RowOfFields(cs: seq<Col>, payload: seq<Byte>, row: seq<Datum>)
    requires RowReadable(cs, payload) && |row| == |cs|
    requires forall i {:trigger row[i]} :: 0 <= i < |cs| ==>
               Readable(ViewOf(cs), payload, Positions(cs)[i]) && row[i] == ReadField(ViewOf(cs), payload, Positions(cs)[i])
    ensures row == RowIn(cs, payload)
  {
    forall i | 0 <= i < |cs|
      ensures row[i] == RowIn(cs, payload)[i]
    {
      assert FieldReadable(cs, payload, i);
    }
  }

  class Schema {
    const names: seq<seq<Byte>>
    const field: array<Info>
    var order: array<nat>
    var computed: bool
    var onlyFixed: bool
    var nFixed: nat
    var nVar: nat
    var nNullFixed: nat
    var bitmapAt: int
    var endsAt: int
    var dataAt: int
    /** The columns the layout was computed for. */
    ghost var cols: seq<Col>

    ghost predicate Declared()
      reads this, field
    {
      0 < field.Length <= I16_MAX && forall i :: 0 <= i < field.Length ==> field[i].f.nullBit >= -1
    }

    /** The object holds exactly the tables `L`. */
    ghost predicate Represents(L: Layout)
      reads this, field, order
    {
      && |L.field| == field.Length && FieldsIn(field[..]) == L.field && order[..] == L.order
      && nFixed == L.nFixed && nVar == L.nVar && nNullFixed == L.nNullFixed && onlyFixed == L.onlyFixed
      && bitmapAt == L.bitmapAt && endsAt == L.endsAt && dataAt == L.dataAt
    }

    /** The tables that the object holds. */
    function TablesHeld(): (L: Layout)
      reads this, field, order
      ensures Represents(L)
    {
      Layout(FieldsIn(field[..]), order[..], nFixed, nVar, nNullFixed, bitmapAt, endsAt, dataAt, onlyFixed)
    }

    /** The layout has been computed: the tables are those of the layout function. */
    ghost predicate Ready()
      reads this, field, order
    {
      computed && |cols| == field.Length && LayoutOf(cols).Some? && Represents(LayoutOf(cols).value)
    }

    constructor (typid: seq<nat>, typparam: seq<nat>, nullable: seq<bool>, names: seq<seq<Byte>>)
      requires 0 < |typid| <= I16_MAX && |typid| == |typparam| == |nullable| && (names == [] || |names| == |typid|)
      ensures Declared() && !computed && field.Length == |typid| && fresh(field) && fresh(order)
      ensures forall i :: 0 <= i < |typid| ==> field[i].typid == typid[i] && field[i].typparam == typparam[i]
      ensures forall i :: 0 <= i < |typid| ==> (field[i].f.nullBit >= 0 <==> nullable[i]) && field[i].f.offset == 0
      ensures this.names == names
    {
      var n := |typid|;
      this.names := names;
      field := new Info[n](i => Info(0, 0, Field(0, 1, true, -1, 0)));
      order := new nat[0];
      computed, onlyFixed := false, false;
      nFixed, nVar, nNullFixed, bitmapAt, endsAt, dataAt := 0, 0, 0, 0, 0, 0;
      cols := [];
      new;
      for i := 0 to n
        invariant forall j :: 0 <= j < n ==> field[j].f.nullBit >= -1
        invariant forall j :: 0 <= j < i ==> field[j].typid == typid[j] && field[j].typparam == typparam[j]
        invariant forall j :: 0 <= j < i ==> (field[j].f.nullBit >= 0 <==> nullable[j]) && field[j].f.offset == 0
        modifies field
      {
        field[i] := Info(typid[i], typparam[i], Field(0, 1, true, if nullable[i] then 0 else -1, 0));
      }
    }

    /** The first loop: type lengths, offsets of the fixed fields and the head of the reorder index. */
    method MeasureFields(types: Types, ghost cs: seq<Col>)
      returns (status: Status, off: int, fixed: int, nullFixed: int, varlen: int, nullVar: int)
      requires Known(types, field[..]) && cs == ColsOf(types, field[..]) && order.Length == field.Length
      requires order as object != field
      modifies field, order
      ensures SameDeclared(old(field[..]), field[..])
      ensures status.Raised? ==> AnyRaises(types, old(field[..]))
      ensures status.Overflow? ==> FixedEnd(cs, |cs|) > I16_MAX
      ensures status.Done? ==> Measured(types, cs, old(field[..]), |cs|, field[..], order[..], off,
                                        (fixed, nullFixed, varlen, nullVar))
      ensures status.Done? ==> AllStoredAs(types, field[..])
    {
      off, fixed, nullFixed, varlen, nullVar := 0, 0, 0, 0, 0;
      status := Done;
      ghost var was := field[..];
      for i := 0 to field.Length
        invariant status == Done
        invariant Measured(types, cs, was, i, field[..], order[..], off, (fixed, nullFixed, varlen, nullVar))
      {
        status, off, fixed, nullFixed, varlen, nullVar := MeasureAt(types, i, off, fixed, nullFixed, varlen, nullVar, cs, was);
        if status != Done {
          return;
        }
      }
      MeasuredKeepsDeclared(types, cs, was, field.Length, field[..], order[..], off, (fixed, nullFixed, varlen, nullVar));
      MeasuredStored(types, cs, was, field[..], order[..], off, (fixed, nullFixed, varlen, nullVar));
    }

    /** One round of the first loop. */
    method MeasureAt(types: Types, i: nat, off: int, fixed: int, nullFixed: int, varlen: int, nullVar: int,
                     ghost cs: seq<Col>, ghost was: seq<Info>)
      returns (status: Status, off': int, fixed': int, nullFixed': int, varlen': int, nullVar': int)
      requires Known(types, was) && cs == ColsOf(types, was) && i < field.Length == order.Length && order as object != field
      requires Measured(types, cs, was, i, field[..], order[..], off, (fixed, nullFixed, varlen, nullVar))
      modifies field, order
      ensures status.Done? ==>
                Measured(types, cs, was, i + 1, field[..], order[..], off', (fixed', nullFixed', varlen', nullVar'))
      ensures !status.Done? ==> SameDeclared(was, field[..])
      ensures status.Raised? ==> AnyRaises(types, was)
      ensures status.Overflow? ==> FixedEnd(cs, |cs|) > I16_MAX
    {
      ghost var infos, before, counts := field[..], order[..], (fixed, nullFixed, varlen, nullVar);
      MeasuredNext(types, cs, was, i, infos, before, off, counts);
      var info: Info;
      status, info, off', fixed', nullFixed', varlen', nullVar' :=
        MeasureField(types[field[i].typid], field[i], off, fixed, nullFixed, varlen, nullVar, cs, i);
      field[i] := info;
      assert field[..] == infos[i := info];
      if status != Done {
        MeasuringFails(types, cs, was, i, infos, before, off, counts, info, status);
        return;
      }
      if fixed' > fixed {
        order[fixed] := i;
        assert order[..] == before[fixed := i];
      }
      MeasuredStep(types, cs, was, i, infos, before, off, counts, info, order[..], off',
                   (fixed', nullFixed', varlen', nullVar'));
    }

    /** The second loop: the rest of the reorder index and the null bits. */
    method AssignOrder(ghost cs: seq<Col>, ghost was: seq<Info>, fixed: int, varlen: int, nullVar: int)
      returns (nullable: int)
      requires order.Length == field.Length == |cs| == |was| && order as object != field
      requires fixed == Count(cs, Fixed) && varlen == Count(cs, Var) && nullVar == Count(cs, NullVar)
      requires Assigned(cs, was, 0, field[..], order[..], 0) && AllDeclare(cs, was)
      modifies field, order
      ensures Assigned(cs, was, |cs|, field[..], order[..], nullable)
    {
      nullable := 0;
      for i := 0 to field.Length
        invariant Assigned(cs, was, i, field[..], order[..], nullable)
      {
        nullable := AssignAt(i, fixed, varlen, nullVar, nullable, cs, was);
      }
    }

    /** One round of the second loop. */
    method AssignAt(i: nat, fixed: int, varlen: int, nullVar: int, before: int, ghost cs: seq<Col>, ghost was: seq<Info>)
      returns (nullable: int)
      requires order.Length == field.Length == |cs| == |was| && i < |cs| && order as object != field
      requires fixed == Count(cs, Fixed) && varlen == Count(cs, Var) && nullVar == Count(cs, NullVar)
      requires Assigned(cs, was, i, field[..], order[..], before) && AllDeclare(cs, was)
      modifies field, order
      ensures Assigned(cs, was, i + 1, field[..], order[..], nullable)
    {
      ghost var infos, listed := field[..], order[..];
      AssignedRoom(cs, was, i, infos, listed, before);
      var info, position;
      info, position, nullable := AssignField(field[i], fixed, varlen, nullVar, before, cs, i, was[i]);
      field[i] := info;
      assert field[..] == infos[i := info] && order[..] == listed;
      if position >= 0 {
        order[position] := i;
        assert order[..] == listed[position := i];
      }
      AssignedStep(cs, was, i, infos, listed, before, field[..], order[..], nullable);
    }

    /** `ComputeLayout`: fills the field table, the reorder index and the region offsets, or stops early. */
    method ComputeLayout(types: Types) returns (status: Status)
      requires Declared() && Known(types, field[..]) && order as object != field
      modifies this, field, order
      ensures SameDeclared(old(field[..]), field[..])
      ensures status.Raised? ==> AnyRaises(types, old(field[..]))
      ensures status.Done? <==> !AnyRaises(types, old(field[..])) && LayoutOf(ColsOf(types, old(field[..]))).Some?
      ensures status.Done? ==> Ready() && cols == ColsOf(types, old(field[..])) && AllStoredAs(types, field[..])
      ensures !status.Done? ==> computed == old(computed)
      ensures order == old(order) || fresh(order)
    {
      ghost var was := field[..];
      ghost var cs := ColsOf(types, was);
      var n := field.Length;
      if order.Length != n {
        order := new nat[n](_ => 0);
      }
      var off, fixed, nullFixed, varlen, nullVar;
      status, off, fixed, nullFixed, varlen, nullVar := MeasureFields(types, cs);
      if status != Done {
        return;
      }
      status := PlaceFields(types, cs, was, off, fixed, nullFixed, varlen, nullVar);
      if status.Done? {
        ReadyAsDeclared(types, was);
      }
    }

    lemma ReadyAsDeclared(types: Types, was: seq<Info>)
      requires Ready() && Known(types, was) && cols == ColsOf(types, was)
      requires !AnyRaises(types, was) && SameDeclared(was, field[..])
      ensures AllStoredAs(types, field[..])
    {
      LaidOutAsDeclared(types, was, field[..]);
    }

    /** What follows the first loop. */
    method PlaceFields(ghost types: Types, ghost cs: seq<Col>, ghost was: seq<Info>,
                       off: int, fixed: int, nullFixed: int, varlen: int, nullVar: int) returns (status: Status)
      requires Known(types, was) && cs == ColsOf(types, was) && |cs| <= I16_MAX && order as object != field
      requires |was| == field.Length
      requires Measured(types, cs, was, |cs|, field[..], order[..], off, (fixed, nullFixed, varlen, nullVar))
      modifies field, order, this`nFixed, this`nNullFixed, this`nVar
      modifies this`bitmapAt, this`endsAt, this`dataAt, this`onlyFixed, this`computed, this`cols
      ensures SameDeclared(was, field[..]) && !AnyRaises(types, was)
      ensures status != Raised && (status.Done? <==> LayoutOf(cs).Some?)
      ensures status.Done? ==> Ready() && cols == cs
      ensures !status.Done? ==> computed == old(computed)
    {
      MeasuredAll(types, cs, was, field[..], order[..], off, (fixed, nullFixed, varlen, nullVar));
      MeasuredKeepsDeclared(types, cs, was, |cs|, field[..], order[..], off, (fixed, nullFixed, varlen, nullVar));
      nFixed, nNullFixed, nVar := fixed, nullFixed, varlen;
      if fixed == field.Length {
        MeasuredFixed(types, cs, was, field[..], order[..], off, (fixed, nullFixed, varlen, nullVar));
        status := PlaceNothingElse(cs, off);
      } else {
        var nullable := AssignOrder(cs, was, fixed, varlen, nullVar);
        AssignedAll(cs, was, field[..], order[..], nullable);
        status := PlaceRegions(cs, off, nullable);
      }
    }

    /** The field table and the reorder index are final. */
    ghost predicate TablesDone(cs: seq<Col>, off: int)
      reads this, field, order
    {
      && |cs| == field.Length && FieldsIn(field[..]) == FieldsOf(cs) && order[..] == OrderOf(cs)
      && nFixed == Count(cs, Fixed) && nVar == Count(cs, Var) && nNullFixed == Count(cs, NullFixed)
      && nFixed + nVar + nNullFixed == |cs| && 0 <= off == FixedEnd(cs, |cs|) <= I16_MAX
    }

    /** The fast path of a schema with non-nullable fixed fields only. */
    method PlaceNothingElse(ghost cs: seq<Col>, off: int) returns (status: Status)
      requires TablesDone(cs, off) && Count(cs, Fixed) == |cs|
      modifies this`bitmapAt, this`endsAt, this`dataAt, this`onlyFixed, this`computed, this`cols
      ensures status != Raised && (status.Done? <==> LayoutOf(cs).Some?)
      ensures status.Done? ==> Ready() && cols == cs
      ensures !status.Done? ==> computed == old(computed)
    {
      var end := TypeAlign(8, off);
      if end < 0 {
        status := Overflow;
        return;
      }
      bitmapAt, endsAt, dataAt := end, end, end;
      onlyFixed, computed, cols := true, true, cs;
      status := Done;
    }

    /** The null bitmap, the end array and the data region. */
    method PlaceRegions(ghost cs: seq<Col>, off: int, nullable: int) returns (status: Status)
      requires TablesDone(cs, off) && Count(cs, Fixed) != |cs| && |cs| <= I16_MAX
      requires nullable == Count(cs, NullVar) + Count(cs, NullFixed) <= |cs|
      modifies this`bitmapAt, this`endsAt, this`dataAt, this`onlyFixed, this`computed, this`cols
      ensures status != Raised && (status.Done? <==> LayoutOf(cs).Some?)
      ensures status.Done? ==> Ready() && cols == cs
      ensures !status.Done? ==> computed == old(computed)
    {
      onlyFixed, bitmapAt := false, off;
      status, endsAt, dataAt := RegionOffsets(off, nullable, nVar);
      RegionsLaidOut(cs, off, nullable, nVar, status, endsAt, dataAt);
      if status == Done {
        computed, cols := true, cs;
      }
    }

    /** Writing one field behind the prefix: the same outcome and the same bytes as `Step`. */
    method WriteField(f: Field, d: Datum, init: nat, off: int, bytes: seq<Byte>,
                      ghost V: View, ghost prefix: seq<Byte>, ghost b: seq<Byte>)
      returns (failure: Option<WriteOutcome>, bytes': seq<Byte>, off': int)
      requires V.bitmapAt == bitmapAt && V.endsAt == endsAt && |prefix| == init && bytes == prefix + b
      ensures match Step(V, f, d, init, WState(b, off))
        case Stop(res) => failure == Some(OutcomeOf(res))
        case Go(st) => failure == None && bytes' == prefix + st.buf && off' == st.off
    {
      if f.offset >= 0 {
        if d.Null? {
          return Some(Rejected), bytes, off;
        }
        var value := FieldBytes(f, d);
        if !InRange(bytes, init + f.offset, |value|) {
          return Some(OutOfPayload), bytes, off;
        }
        PutBehind(prefix, b, f.offset, value);
        return None, Put(bytes, init + f.offset, value), off;
      }
      if d.Null? {
        failure, bytes' := WriteNull(f, init, off, bytes, V, prefix, b);
        off' := off;
      } else {
        failure, bytes', off' := WriteTail(f, d, init, off, bytes, V, prefix, b);
      }
    }

    /** A NULL behind the end array. */
    method WriteNull(f: Field, init: nat, off: int, bytes: seq<Byte>,
                     ghost V: View, ghost prefix: seq<Byte>, ghost b: seq<Byte>)
      returns (failure: Option<WriteOutcome>, bytes': seq<Byte>)
      requires V.bitmapAt == bitmapAt && V.endsAt == endsAt && |prefix| == init && bytes == prefix + b
      ensures match StepNull(V, f, WState(b, off))
        case Stop(res) => failure == Some(OutcomeOf(res))
        case Go(st) => failure == None && bytes' == prefix + st.buf && off == st.off
    {
      var entry := EndOf(endsAt, f);
      if !(0 <= bitmapAt + f.nullBit / 8 < |bytes| - init) ||
         (f.len == -1 && !(0 <= entry && entry + 2 <= |bytes| - init)) {
        return Some(OutOfPayload), bytes;
      }
      SetBitBehind(prefix, b, bitmapAt, f.nullBit);
      bytes' := SetBit(bytes, init + bitmapAt, f.nullBit);
      if f.len == -1 {
        Put16Behind(prefix, SetBit(b, bitmapAt, f.nullBit), entry, off);
        bytes' := Put16(bytes', init + entry, off);
      }
      failure := None;
    }

    /** A non-null value behind the end array. */
    method WriteTail(f: Field, d: Datum, init: nat, off: int, bytes: seq<Byte>,
                     ghost V: View, ghost prefix: seq<Byte>, ghost b: seq<Byte>)
      returns (failure: Option<WriteOutcome>, bytes': seq<Byte>, off': int)
      requires V.endsAt == endsAt && !d.Null? && |prefix| == init && bytes == prefix + b
      ensures match StepTail(V, f, d, init, WState(b, off))
        case Stop(res) => failure == Some(OutcomeOf(res))
        case Go(st) => failure == None && bytes' == prefix + st.buf && off' == st.off
    {
      var newoff := TypeAlign(f.align, off);
      if init + newoff < 0 {
        return Some(MinusOne), bytes, off;
      }
      var entry := EndOf(endsAt, f);
      if f.len == -1 && !(0 <= entry && entry + 2 <= |bytes| - init) {
        return Some(OutOfPayload), bytes, off;
      }
      var len := I16(DataLen(f, d));
      if init + newoff + len < 0 {
        return Some(MinusOne), bytes, off;
      }
      if newoff < 0 || len < 0 {
        return Some(OutOfPayload), bytes, off;
      }
      bytes' := StoreValue(endsAt, f, d, bytes, init, newoff, len, prefix, b);
      failure, off' := None, I16(newoff + len);
    }

    /** `WritePayloadToBufferImpl`: appends the payload of the row behind the aligned contents of the buffer. */
    method WritePayloadToBuffer(data: seq<Datum>, buf: ByteBuf) returns (r: WriteOutcome)
      requires Ready() && |data| == field.Length
      modifies buf
      ensures |old(buf.bytes)| >= I16_MAX ==> r == MinusOne
      ensures |old(buf.bytes)| < I16_MAX ==>
                var init := TypeAlign(8, |old(buf.bytes)|);
                var w := Write16(ViewOf(cols), RowPlaced(cols, data), init);
                && r == OutcomeOf(w) && (w.TooLong? ==> r == MinusOne) && (w.NullRejected? ==> r == Rejected)
                && (w.Wrote? ==> r == Length(w.len)) && (w.Corrupt? ==> r == OutOfPayload)
                && (w.Wrote? ==> init >= 0 && buf.bytes == Resize(old(buf.bytes), init) + w.payload)
    {
      if |buf.bytes| >= I16_MAX {
        return MinusOne;
      }
      var init := TypeAlign(8, |buf.bytes|);
      if init < 0 || init + dataAt < 0 {
        return MinusOne;
      }
      if dataAt < 0 {
        return OutOfPayload;
      }
      ghost var prefix := Resize(buf.bytes, init);
      buf.bytes := Resize(buf.bytes, init + dataAt);
      assert buf.bytes == prefix + Zeros(dataAt);
      ReadyAgrees();
      ghost var V, ds := ViewOf(cols), RowPlaced(cols, data);
      assert forall k :: 0 <= k < order.Length ==> order[k] == OrderOf(cols)[k];
      r := WriteFields(data, init, buf, V, ds, prefix);
    }

    /** The object holds the layout `V`: its fields in storage order and its region offsets. */
    ghost predicate Agrees(V: View)
      reads this, field, order
    {
      && |V.f| == order.Length == field.Length
      && V.nFixed == nFixed && V.nVar == nVar && V.bitmapAt == bitmapAt && V.endsAt == endsAt && V.dataAt == dataAt
      && forall k :: 0 <= k < order.Length ==> order[k] < field.Length && V.f[k] == field[order[k]].f
    }

    /** Field `id` is stored at position `k` and nowhere else. */
    ghost predicate StoredAt(id: nat, k: nat)
      reads this, order
    {
      k < order.Length && order[k] == id && forall j :: 0 <= j < k ==> order[j] != id
    }

    lemma ReadyAgrees()
      requires Ready()
      ensures Agrees(ViewOf(cols))
    {
      OrderInRange(cols);
      forall k | 0 <= k < order.Length
        ensures order[k] < field.Length && ViewOf(cols).f[k] == field[order[k]].f
      {
        assert order[k] == OrderOf(cols)[k];
        assert FieldsIn(field[..])[order[k]] == FieldsOf(cols)[order[k]];
      }
    }

    lemma ReadyStores(id: nat)
      requires Ready() && id < field.Length
      ensures StoredAt(id, PositionOf(cols, id))
    {
      PositionFinds(cols, id);
      OrderIsStablePermutation(cols);
    }

    /** The loop over the fields in storage order, and the final alignment. */
    method WriteFields(data: seq<Datum>, init: nat, buf: ByteBuf,
                       ghost V: View, ghost ds: seq<Datum>, ghost prefix: seq<Byte>) returns (r: WriteOutcome)
      requires Agrees(V) && |data| == field.Length && |ds| == order.Length && |prefix| == init && dataAt >= 0
      requires forall k :: 0 <= k < order.Length ==> order[k] < |data| && ds[k] == data[order[k]]
      requires buf.bytes == prefix + Zeros(dataAt)
      modifies buf
      ensures var w := WriteFrom(V, ds, init, 0, WState(Zeros(dataAt), dataAt));
        r == OutcomeOf(w) && (w.Wrote? ==> buf.bytes == prefix + w.payload)
    {
      var off := dataAt;
      ghost var st := WState(Zeros(dataAt), dataAt);
      ghost var goal := WriteFrom(V, ds, init, 0, st);
      for k := 0 to order.Length
        invariant buf.bytes == prefix + st.buf && off == st.off
        invariant WriteFrom(V, ds, init, k, st) == goal
      {
        var id := order[k];
        var failure, bytes;
        failure, bytes, off := WriteField(field[id].f, data[id], init, off, buf.bytes, V, prefix, st.buf);
        if failure.Some? {
          return failure.value;
        }
        buf.bytes := bytes;
        st := Step(V, V.f[k], ds[k], init, st).st;
      }
      r := FinishPayload(init, off, buf, prefix, st);
    }

    /** `FieldIsNull`. */
    predicate FieldIsNull(id: nat, payload: seq<Byte>)
      reads this, field
      requires id < field.Length && (field[id].f.nullBit >= 0 ==> 0 <= bitmapAt + field[id].f.nullBit / 8 < |payload|)
    {
      field[id].f.nullBit >= 0 && GetBit(payload, bitmapAt, field[id].f.nullBit)
    }

    /** `GetOffsetAndLength` on a record of this schema: the range that the reader's specification describes. */
    method GetOffsetAndLength(id: nat, payload: seq<Byte>, ghost V: View, ghost k: nat) returns (begin: int, len: int)
      requires Agrees(V) && StoredAt(id, k) && Shape(V) && Header(V, payload)
      ensures (begin, len) == ReadRange(V, payload, k)
    {
      PositionByKind(V, k);
      var f := field[id].f;
      if f.offset >= 0 {
        return f.offset, f.len;
      }
      if f.len == -1 {
        begin, len := VarlenRange(f, payload, V);
        return;
      }
      var off := ScanTo(id, payload, V, k);
      return TypeAlign(f.align, off), f.len;
    }

    /** The range of a variable-length field. */
    method VarlenRange(f: Field, payload: seq<Byte>, ghost V: View) returns (begin: int, len: int)
      requires V.nVar == nVar && V.endsAt == endsAt && V.dataAt == dataAt
      requires Header(V, payload) && 0 <= -f.offset - 1 < V.nVar
      ensures (begin, len) == VarRange(V, payload, f)
    {
      var idx := -f.offset - 1;
      var end := Get16(payload, endsAt + 2 * idx);
      begin := TypeAlign(f.align, if idx > 0 then Get16(payload, endsAt + 2 * (idx - 1)) else dataAt);
      len := if end >= begin then I16(end - begin) else 0;
    }

    /** The loop over the nullable fixed fields in storage order. */
    method ScanTo(id: nat, payload: seq<Byte>, ghost V: View, ghost k: nat) returns (off: int)
      requires Agrees(V) && StoredAt(id, k) && Header(V, payload) && V.nFixed + V.nVar <= k
      ensures off == Scan(V, payload, V.nFixed + V.nVar, k, ScanStart(V, payload))
    {
      var seqno := nFixed + nVar;
      off := if nVar == 0 then dataAt else Get16(payload, endsAt + 2 * (nVar - 1));
      ghost var goal := Scan(V, payload, V.nFixed + V.nVar, k, ScanStart(V, payload));
      while order[seqno] != id
        invariant seqno <= k
        invariant Scan(V, payload, seqno, k, off) == goal
        decreases k - seqno
      {
        var i := order[seqno];
        assert BitReadable(V, payload, seqno);
        if !FieldIsNull(i, payload) {
          off := I16(TypeAlign(field[i].f.align, off) + field[i].f.len);
        }
        seqno := seqno + 1;
      }
    }

    /** `GetField`. */
    method GetField(id: nat, payload: seq<Byte>, ghost V: View, ghost k: nat) returns (d: Datum)
      requires Agrees(V) && StoredAt(id, k) && Readable(V, payload, k)
      ensures d == ReadField(V, payload, k)
    {
      if FieldIsNull(id, payload) {
        return Null;
      }
      var begin, len := GetOffsetAndLength(id, payload, V, k);
      if field[id].f.byref {
        return Ref(payload[begin..begin + len]);
      }
      return Val(FromBytes(payload[begin..begin + len]));
    }

    /** `DissemblePayload`: the fields in id order. */
    method DissemblePayload(payload: seq<Byte>) returns (row: seq<Datum>)
      requires Ready() && RowReadable(cols, payload)
      ensures row == RowIn(cols, payload)
    {
      ReadyAgrees();
      ghost var cs, V, at := cols, ViewOf(cols), Positions(cols);
      forall i | 0 <= i < field.Length
        ensures FieldIsAt(V, payload, i, at[i])
      {
        ReadyStores(i);
        assert FieldReadable(cs, payload, i);
      }
      row := DissembleFields(payload, V, at);
      RowOfFields(cs, payload, row);
    }

    ghost predicate FieldIsAt(V: View, payload: seq<Byte>, i: nat, k: nat)
      reads this, order
    {
      StoredAt(i, k) && k < |V.f| && Readable(V, payload, k)
    }

    method DissembleFields(payload: seq<Byte>, ghost V: View, ghost at: seq<nat>) returns (row: seq<Datum>)
      requires Agrees(V) && |at| == field.Length
      requires forall i {:trigger FieldIsAt(V, payload, i, at[i])} :: 0 <= i < field.Length ==> FieldIsAt(V, payload, i, at[i])
      ensures |row| == field.Length
      ensures forall i {:trigger row[i]} :: 0 <= i < field.Length ==>
                FieldIsAt(V, payload, i, at[i]) && row[i] == ReadField(V, payload, at[i])
    {
      row := [];
      for i := 0 to field.Length
        invariant |row| == i
        invariant forall j {:trigger row[j]} :: 0 <= j < i ==>
                    FieldIsAt(V, payload, j, at[j]) && row[j] == ReadField(V, payload, at[j])
      {
        assert FieldIsAt(V, payload, i, at[i]);
        var d := GetField(i, payload, V, at[i]);
        row := row + [d];
      }
    }
  }

  /**
   Computing the layout again, from the offsets and null bits that the first computation has left in the field
   table, ends the same way, and with the same tables.
   */
  method LayoutAgain(s: Schema, types: Types) returns (first: Status, again: Status, before: Layout, after: Layout)
    requires s.Declared() && Known(types, s.field[..]) && s.order as object != s.field
    modifies s, s.field, s.order
    ensures first.Done? <==> again.Done?
    ensures first.Done? ==> before == after && s.Ready() && s.Represents(after)
    ensures first.Done? ==> LayoutOf(ColsOf(types, old(s.field[..]))) == Some(after)
  {
    ghost var was := s.field[..];
    first := s.ComputeLayout(types);
    before := s.TablesHeld();
    DeclaredAgain(types, was, s.field[..]);
    again := s.ComputeLayout(types);
    after := s.TablesHeld();
  }

  /** A row that fits, written to an empty buffer and dissembled from it, comes back as stored. */
  method WriteAndDissemble(s: Schema, row: seq<Datum>) returns (outcome: WriteOutcome, back: seq<Datum>)
    requires s.Ready() && Usable(s.cols) && RowFor(s.cols, row) && LengthOf(s.cols, row) <= I16_MAX
    ensures outcome == Length(LengthOf(s.cols, row)) && back == StoredIn(s.cols, row)
  {
    WriteRowFits(s.cols, row);
    var buf := new ByteBuf();
    outcome := s.WritePayloadToBuffer(row, buf);
    assert Resize([], 0) + WriteRow(s.cols, row).payload == WriteRow(s.cols, row).payload;
    RowRoundTrip(s.cols, row, buf.bytes, buf.bytes);
    back := s.DissemblePayload(buf.bytes);
  }
}
