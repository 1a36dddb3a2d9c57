/**
 The layout compiler of src/catalog/Schema.cpp:83-236 as a function of the resolved columns, and the tables it
 produces: storage order, offsets and null bits.
 */
module Layout {
  import opened Base
  import opened Codec
  import opened CodecRead
  import opened CodecWrite

  /** A field after its type has been looked up. */
  datatype Col = Col(len: TypLen, align: Alignment, byref: bool, nullable: bool)

  /** What the type catalog guarantees of a type. */
  predicate ColOk(c: Col) {
    (c.len == -1 ==> c.byref) && (!c.byref ==> IsValueLen(c.len))
  }

  /** The three storage classes, and the nullable part of the second. */
  datatype Kind = Fixed | Var | NullFixed | NullVar

  predicate Is(c: Col, s: Kind) {
    match s
    case Fixed => c.len != -1 && !c.nullable
    case Var => c.len == -1
    case NullFixed => c.len != -1 && c.nullable
    case NullVar => c.len == -1 && c.nullable
  }

  /** The ids of the fields of a kind among the first `n`, in id order. */
  function Pick(cols: seq<Col>, s: Kind, n: nat): (r: seq<nat>)
    requires n <= |cols|
    ensures |r| <= n
  {
    if n == 0 then [] else Pick(cols, s, n - 1) + if Is(cols[n - 1], s) then [n - 1] else []
  }

  function Count(cols: seq<Col>, s: Kind): nat {
    |Pick(cols, s, |cols|)|
  }

  /** The end of the non-nullable fixed fields among the first `n`, over the unbounded integers. */
  function FixedEnd(cols: seq<Col>, n: nat): (r: nat)
    requires n <= |cols|
  {
    if n == 0 then 0
    else if Is(cols[n - 1], Fixed) then AlignUp(cols[n - 1].align, FixedEnd(cols, n - 1)) + cols[n - 1].len
    else FixedEnd(cols, n - 1)
  }

  /** Fields in storage order: the stable concatenation of the three classes. */
  function OrderOf(cols: seq<Col>): seq<nat> {
    Pick(cols, Fixed, |cols|) + Pick(cols, Var, |cols|) + Pick(cols, NullFixed, |cols|)
  }

  /** The layout information of field `i`. */
  function FieldOf(cols: seq<Col>, i: nat): Field
    requires i < |cols|
  {
    var c := cols[i];
    if Is(c, Fixed) then Field(c.len, c.align, c.byref, -1, AlignUp(c.align, FixedEnd(cols, i)))
    else if Is(c, Var) then
      Field(-1, c.align, true, if c.nullable then |Pick(cols, Var, i)| else -1, -|Pick(cols, Var, i)| - 1)
    else
      Field(c.len, c.align, c.byref, |Pick(cols, NullFixed, i)| + Count(cols, NullVar),
            -|Pick(cols, NullFixed, i)| - 1)
  }

  function FieldsOf(cols: seq<Col>): (r: seq<Field>)
    ensures |r| == |cols|
    ensures forall i :: 0 <= i < |cols| ==> r[i] == FieldOf(cols, i)
  {
    seq(|cols|, i requires 0 <= i < |cols| => FieldOf(cols, i))
  }

  /** Everything `ComputeLayout` stores. */
  datatype Layout = Layout(field: seq<Field>, order: seq<nat>, nFixed: nat, nVar: nat, nNullFixed: nat,
                           bitmapAt: int, endsAt: int, dataAt: int, onlyFixed: bool)

  function BitmapBytes(cols: seq<Col>): nat {
    (Count(cols, NullVar) + Count(cols, NullFixed) + 7) / 8
  }

  function EndsAt(cols: seq<Col>): nat {
    AlignUp(2, FixedEnd(cols, |cols|) + BitmapBytes(cols))
  }

  function Tables(cols: seq<Col>, bitmapAt: int, endsAt: int, dataAt: int, onlyFixed: bool): Layout {
    Layout(FieldsOf(cols), OrderOf(cols), Count(cols, Fixed), Count(cols, Var), Count(cols, NullFixed),
           bitmapAt, endsAt, dataAt, onlyFixed)
  }

  /** The outcome of `ComputeLayout`: nothing if it returns early because an offset overflows. */
  function LayoutOf(cols: seq<Col>): Option<Layout> {
    var off := FixedEnd(cols, |cols|);
    if off > I16_MAX then None
    else if Count(cols, Fixed) == |cols| then
      var end := AlignUp(8, off);
      if end > I16_MAX then None else Some(Tables(cols, end, end, end, true))
    else if EndsAt(cols) > I16_MAX then None
    else
      var (ok, dataAt) := AddWithCheck(EndsAt(cols), 2 * Count(cols, Var));
      if ok then Some(Tables(cols, off, EndsAt(cols), dataAt, false)) else None
  }

  /** The same tables in storage order, as the codec uses them. */
  function StoredView(L: Layout): (V: View)
    requires forall k :: 0 <= k < |L.order| ==> L.order[k] < |L.field|
    ensures |V.f| == |L.order|
    ensures forall k :: 0 <= k < |L.order| ==> V.f[k] == L.field[L.order[k]]
  {
    View(seq(|L.order|, k requires 0 <= k < |L.order| => L.field[L.order[k]]), L.nFixed, L.nVar,
         L.bitmapAt, L.endsAt, L.dataAt)
  }

  // ---------------------------------------------------------------- picking

  lemma {:induction false} PickMonotone(cols: seq<Col>, s: Kind, m: nat, n: nat)
    requires m <= n <= |cols|
    ensures Pick(cols, s, m) <= Pick(cols, s, n)
  {
    if m < n {
      PickMonotone(cols, s, m, n - 1);
    }
  }

  /** Entry `k` is a field of the kind with exactly `k` of its kind before it. */
  lemma {:induction false} PickAt(cols: seq<Col>, s: Kind, n: nat, k: nat)
    requires n <= |cols| && k < |Pick(cols, s, n)|
    ensures Pick(cols, s, n)[k] < n && Is(cols[Pick(cols, s, n)[k]], s)
    ensures |Pick(cols, s, Pick(cols, s, n)[k])| == k
  {
    if k < |Pick(cols, s, n - 1)| {
      PickAt(cols, s, n - 1, k);
    }
  }

  /** Every field of the kind is picked, at the number of its kind before it. */
  lemma {:induction false} PickFinds(cols: seq<Col>, s: Kind, n: nat, i: nat)
    requires i < n <= |cols| && Is(cols[i], s)
    ensures |Pick(cols, s, i)| < |Pick(cols, s, n)| && Pick(cols, s, n)[|Pick(cols, s, i)|] == i
  {
    if i < n - 1 {
      PickFinds(cols, s, n - 1, i);
    }
  }

  lemma {:induction false} PickPartition(cols: seq<Col>, n: nat)
    requires n <= |cols|
    ensures |Pick(cols, Fixed, n)| + |Pick(cols, Var, n)| + |Pick(cols, NullFixed, n)| == n
  {
    if n > 0 {
      PickPartition(cols, n - 1);
    }
  }

  // ---------------------------------------------------------------- storage order

  /** The position of field `i` in storage order. */
  function PositionOf(cols: seq<Col>, i: nat): nat
    requires i < |cols|
  {
    if Is(cols[i], Fixed) then |Pick(cols, Fixed, i)|
    else if Is(cols[i], Var) then Count(cols, Fixed) + |Pick(cols, Var, i)|
    else Count(cols, Fixed) + Count(cols, Var) + |Pick(cols, NullFixed, i)|
  }

  lemma PositionFinds(cols: seq<Col>, i: nat)
    requires i < |cols|
    ensures |OrderOf(cols)| == |cols| && PositionOf(cols, i) < |cols| && OrderOf(cols)[PositionOf(cols, i)] == i
  {
    PickPartition(cols, |cols|);
    if Is(cols[i], Fixed) {
      PickFinds(cols, Fixed, |cols|, i);
    } else if Is(cols[i], Var) {
      PickFinds(cols, Var, |cols|, i);
    } else {
      PickFinds(cols, NullFixed, |cols|, i);
    }
  }

  /** What the order holds at position `k`. */
  lemma OrderAt(cols: seq<Col>, k: nat)
    requires k < |cols|
    ensures |OrderOf(cols)| == |cols| && OrderOf(cols)[k] < |cols| && PositionOf(cols, OrderOf(cols)[k]) == k
    ensures k < Count(cols, Fixed) ==> Is(cols[OrderOf(cols)[k]], Fixed)
    ensures Count(cols, Fixed) <= k < Count(cols, Fixed) + Count(cols, Var) ==> Is(cols[OrderOf(cols)[k]], Var)
    ensures Count(cols, Fixed) + Count(cols, Var) <= k ==> Is(cols[OrderOf(cols)[k]], NullFixed)
  {
    PickPartition(cols, |cols|);
    var a, b := Count(cols, Fixed), Count(cols, Var);
    if k < a {
      PickAt(cols, Fixed, |cols|, k);
    } else if k < a + b {
      PickAt(cols, Var, |cols|, k - a);
    } else {
      PickAt(cols, NullFixed, |cols|, k - a - b);
    }
  }

  /** The reorder index is a permutation of the field ids that keeps id order inside each class. */
  lemma OrderIsStablePermutation(cols: seq<Col>)
    ensures |OrderOf(cols)| == |cols|
    ensures forall k :: 0 <= k < |cols| ==> OrderOf(cols)[k] < |cols|
    ensures forall j, k :: 0 <= j < k < |cols| ==> OrderOf(cols)[j] != OrderOf(cols)[k]
    ensures forall i :: 0 <= i < |cols| ==> i in OrderOf(cols)
    ensures forall i, j, s :: 0 <= i < j < |cols| && s != NullVar && Is(cols[i], s) && Is(cols[j], s) ==>
              PositionOf(cols, i) < PositionOf(cols, j)
  {
    PickPartition(cols, |cols|);
    forall k | 0 <= k < |cols|
      ensures OrderOf(cols)[k] < |cols| && PositionOf(cols, OrderOf(cols)[k]) == k
    {
      OrderAt(cols, k);
    }
    forall i | 0 <= i < |cols|
      ensures i in OrderOf(cols)
    {
      PositionFinds(cols, i);
    }
    forall i, j, s | 0 <= i < j < |cols| && s != NullVar && Is(cols[i], s) && Is(cols[j], s)
      ensures PositionOf(cols, i) < PositionOf(cols, j)
    {
      PickFinds(cols, s, j, i);
    }
  }

  // ---------------------------------------------------------------- the layout is well formed

  lemma {:induction false} FixedEndMonotone(cols: seq<Col>, m: nat, n: nat)
    requires m <= n <= |cols|
    ensures FixedEnd(cols, m) <= FixedEnd(cols, n)
  {
    if m < n {
      FixedEndMonotone(cols, m, n - 1);
    }
  }

  ghost predicate ColsOk(cols: seq<Col>) {
    0 < |cols| <= I16_MAX && forall i {:trigger ColOk(cols[i])} :: 0 <= i < |cols| ==> ColOk(cols[i])
  }

  lemma OrderInRange(cols: seq<Col>)
    ensures |OrderOf(cols)| == |cols| && forall k :: 0 <= k < |cols| ==> OrderOf(cols)[k] < |cols|
  {
    OrderIsStablePermutation(cols);
  }

  /** Two fixed fields of a layout do not overlap. */
  lemma FixedApart(cols: seq<Col>, j: nat, k: nat)
    requires j < k < Count(cols, Fixed) <= |cols|
    ensures |OrderOf(cols)| == |cols| && OrderOf(cols)[j] < |cols| && OrderOf(cols)[k] < |cols|
    ensures var f, g := FieldOf(cols, OrderOf(cols)[j]), FieldOf(cols, OrderOf(cols)[k]);
      f.offset + f.len <= g.offset
  {
    OrderAt(cols, j);
    OrderAt(cols, k);
    var i, i' := OrderOf(cols)[j], OrderOf(cols)[k];
    if i' <= i {
      PickMonotone(cols, Fixed, i', i);
      assert false;
    }
    FixedEndMonotone(cols, i + 1, i');
  }

  lemma FixedInFront(cols: seq<Col>, i: nat)
    requires i < |cols| && Is(cols[i], Fixed)
    ensures FieldOf(cols, i).offset >= 0 && Aligned(cols[i].align, FieldOf(cols, i).offset)
    ensures FieldOf(cols, i).offset + cols[i].len <= FixedEnd(cols, |cols|)
  {
    FixedEndMonotone(cols, i + 1, |cols|);
  }

  /** The regions of a computed layout, unless the size of the end array wraps. */
  lemma RegionsOfLayout(cols: seq<Col>)
    requires LayoutOf(cols).Some? && Count(cols, Var) < 16384
    ensures var L := LayoutOf(cols).value;
      0 <= FixedEnd(cols, |cols|) <= L.bitmapAt <= L.endsAt && Aligned(2, L.endsAt) &&
      L.dataAt == L.endsAt + 2 * L.nVar <= I16_MAX
  {
    PickPartition(cols, |cols|);
    var off := FixedEnd(cols, |cols|);
    if Count(cols, Fixed) == |cols| {
      AlignedEight(2, AlignUp(8, off));
    } else {
      AddWithCheckExact(EndsAt(cols), 2 * Count(cols, Var));
    }
  }

  lemma ShapeOfLayout(cols: seq<Col>)
    requires ColsOk(cols) && LayoutOf(cols).Some? && Count(cols, Var) < 16384
    ensures forall k :: 0 <= k < |OrderOf(cols)| ==> OrderOf(cols)[k] < |cols|
    ensures Shape(StoredView(LayoutOf(cols).value))
  {
    OrderInRange(cols);
    PickPartition(cols, |cols|);
    RegionsOfLayout(cols);
    var L := LayoutOf(cols).value;
    var V := StoredView(L);
    forall k | 0 <= k < |V.f|
      ensures Placed(V, k)
    {
      OrderAt(cols, k);
      var i := OrderOf(cols)[k];
      assert ColOk(cols[i]) && V.f[k] == FieldOf(cols, i);
      if k < V.nFixed {
        FixedInFront(cols, i);
      }
    }
    forall j, k | 0 <= j < k < V.nFixed
      ensures Apart(V, j, k)
    {
      FixedApart(cols, j, k);
    }
  }

  /**
   The layout a schema gets is usable exactly when it has fewer than 16384 variable-length fields: the size of
   the end array is cut to 16 bits before it is checked, so from there on the data region starts too low.
   */
  lemma LayoutUsable(cols: seq<Col>)
    requires ColsOk(cols) && LayoutOf(cols).Some?
    ensures forall k :: 0 <= k < |OrderOf(cols)| ==> OrderOf(cols)[k] < |cols|
    ensures Shape(StoredView(LayoutOf(cols).value)) <==> Count(cols, Var) < 16384
  {
    OrderInRange(cols);
    if Count(cols, Var) < 16384 {
      ShapeOfLayout(cols);
    } else {
      PickPartition(cols, |cols|);
      assert LayoutOf(cols).value.dataAt != EndsAt(cols) + 2 * Count(cols, Var);
    }
  }

  /** With fewer than 16384 such fields the overflow checks of the layout are exact. */
  lemma LayoutExact(cols: seq<Col>)
    requires ColsOk(cols) && Count(cols, Var) < 16384
    ensures LayoutOf(cols).Some? <==>
            (if Count(cols, Fixed) == |cols| then AlignUp(8, FixedEnd(cols, |cols|)) <= I16_MAX
             else EndsAt(cols) + 2 * Count(cols, Var) <= I16_MAX)
  {
    if EndsAt(cols) <= I16_MAX {
      AddWithCheckExact(EndsAt(cols), 2 * Count(cols, Var));
    }
  }

  // ---------------------------------------------------------------- null bits

  /** No non-nullable variable-length field precedes a nullable one. */
  predicate PrefixCondition(cols: seq<Col>) {
    forall i, j :: 0 <= i < j < |cols| && Is(cols[i], Var) && Is(cols[j], NullVar) ==> cols[i].nullable
  }

  /**
   The exact condition on the null bits: the number of a nullable variable-length field among all of them is
   not the bit of a nullable fixed field, and its byte lies in front of the end array.
   */
  ghost predicate BitsFit(cols: seq<Col>, room: int) {
    forall i :: 0 <= i < |cols| && Is(cols[i], NullVar) ==>
      && !(Count(cols, NullVar) <= |Pick(cols, Var, i)| < Count(cols, NullVar) + Count(cols, NullFixed))
      && |Pick(cols, Var, i)| / 8 < room
  }

  lemma {:induction false} PrefixCounts(cols: seq<Col>, n: nat, j: nat)
    requires PrefixCondition(cols) && n <= j < |cols| && Is(cols[j], NullVar)
    ensures |Pick(cols, Var, n)| == |Pick(cols, NullVar, n)|
  {
    if n > 0 {
      PrefixCounts(cols, n - 1, j);
    }
  }

  /** Under the prefix condition the null bits fit into the bitmap itself. */
  lemma PrefixFits(cols: seq<Col>)
    requires PrefixCondition(cols)
    ensures BitsFit(cols, BitmapBytes(cols))
  {
    forall i | 0 <= i < |cols| && Is(cols[i], NullVar)
      ensures |Pick(cols, Var, i)| < Count(cols, NullVar)
    {
      PrefixCounts(cols, i, i);
      PickFinds(cols, NullVar, |cols|, i);
    }
  }

  lemma NullFixedBit(cols: seq<Col>, i: nat)
    requires i < |cols| && Is(cols[i], NullFixed)
    ensures Count(cols, NullVar) <= FieldOf(cols, i).nullBit < Count(cols, NullVar) + Count(cols, NullFixed)
    ensures FieldOf(cols, i).nullBit / 8 < BitmapBytes(cols)
  {
    PickFinds(cols, NullFixed, |cols|, i);
  }

  /** Two nullable fields of the same class have different null bits. */
  lemma SameKindBits(cols: seq<Col>, i: nat, j: nat, s: Kind)
    requires i < |cols| && j < |cols| && i != j && (s == Var || s == NullFixed) && Is(cols[i], s) && Is(cols[j], s)
    requires cols[i].nullable && cols[j].nullable
    ensures FieldOf(cols, i).nullBit != FieldOf(cols, j).nullBit
  {
    if i < j {
      PickFinds(cols, s, j, i);
    } else {
      PickFinds(cols, s, i, j);
    }
  }

  lemma DistinctBits(cols: seq<Col>, i: nat, j: nat, room: int)
    requires BitsFit(cols, room) && i < |cols| && j < |cols| && i != j && cols[i].nullable && cols[j].nullable
    ensures FieldOf(cols, i).nullBit != FieldOf(cols, j).nullBit
  {
    if Is(cols[i], NullFixed) && Is(cols[j], NullFixed) {
      SameKindBits(cols, i, j, NullFixed);
    } else if Is(cols[i], Var) && Is(cols[j], Var) {
      SameKindBits(cols, i, j, Var);
    } else if Is(cols[i], NullFixed) {
      NullFixedBit(cols, i);
    } else {
      NullFixedBit(cols, j);
    }
  }

  /** If a nullable variable-length field hits the range of the nullable fixed fields, it hits one of them. */
  lemma CollidingField(cols: seq<Col>, x: nat) returns (j: nat)
    requires Count(cols, NullVar) <= x < Count(cols, NullVar) + Count(cols, NullFixed)
    ensures j < |cols| && Is(cols[j], NullFixed) && FieldOf(cols, j).nullBit == x
  {
    j := Pick(cols, NullFixed, |cols|)[x - Count(cols, NullVar)];
    PickAt(cols, NullFixed, |cols|, x - Count(cols, NullVar));
  }

  lemma BitsFitSuffices(cols: seq<Col>)
    requires ColsOk(cols) && LayoutOf(cols).Some? && Count(cols, Var) < 16384
    requires BitsFit(cols, LayoutOf(cols).value.endsAt - LayoutOf(cols).value.bitmapAt)
    ensures forall k :: 0 <= k < |OrderOf(cols)| ==> OrderOf(cols)[k] < |cols|
    ensures BitsInside(StoredView(LayoutOf(cols).value)) && BitsDistinct(StoredView(LayoutOf(cols).value))
  {
    OrderIsStablePermutation(cols);
    var L := LayoutOf(cols).value;
    var V := StoredView(L);
    forall k | 0 <= k < |V.f|
      ensures BitInside(V, k)
    {
      OrderAt(cols, k);
      var i := OrderOf(cols)[k];
      if Is(cols[i], NullFixed) {
        NullFixedBit(cols, i);
        RoomForBitmap(cols);
      }
    }
    forall j, k | 0 <= j < k < |V.f|
      ensures BitsDiffer(V, j, k)
    {
      var a, b := OrderOf(cols)[j], OrderOf(cols)[k];
      if V.f[j].nullBit >= 0 && V.f[k].nullBit >= 0 {
        DistinctBits(cols, a, b, L.endsAt - L.bitmapAt);
      }
    }
  }

  lemma RoomForBitmap(cols: seq<Col>)
    requires LayoutOf(cols).Some? && Count(cols, Var) < 16384 && Count(cols, Fixed) < |cols|
    ensures BitmapBytes(cols) <= LayoutOf(cols).value.endsAt - LayoutOf(cols).value.bitmapAt
  {
  }

  lemma BitsFitNeeded(cols: seq<Col>)
    requires ColsOk(cols) && LayoutOf(cols).Some? && Count(cols, Var) < 16384
    requires forall k :: 0 <= k < |OrderOf(cols)| ==> OrderOf(cols)[k] < |cols|
    requires BitsInside(StoredView(LayoutOf(cols).value)) && BitsDistinct(StoredView(LayoutOf(cols).value))
    ensures BitsFit(cols, LayoutOf(cols).value.endsAt - LayoutOf(cols).value.bitmapAt)
  {
    var V := StoredView(LayoutOf(cols).value);
    forall i | 0 <= i < |cols| && Is(cols[i], NullVar)
      ensures |Pick(cols, Var, i)| / 8 < V.endsAt - V.bitmapAt
      ensures !(Count(cols, NullVar) <= |Pick(cols, Var, i)| < Count(cols, NullVar) + Count(cols, NullFixed))
    {
      PositionFinds(cols, i);
      var k := PositionOf(cols, i);
      assert V.f[k] == FieldOf(cols, i) && BitInside(V, k);
      var x := |Pick(cols, Var, i)|;
      if Count(cols, NullVar) <= x < Count(cols, NullVar) + Count(cols, NullFixed) {
        var j := CollidingField(cols, x);
        PositionFinds(cols, j);
        var l := PositionOf(cols, j);
        DistinctAt(V, k, l);
      }
    }
  }

  /**
   The null bits of a computed layout are distinct and in front of the end array if and only if `BitsFit`; the
   prefix condition suffices.
   */
  lemma NullBitsSound(cols: seq<Col>)
    requires ColsOk(cols) && LayoutOf(cols).Some? && Count(cols, Var) < 16384
    ensures forall k :: 0 <= k < |OrderOf(cols)| ==> OrderOf(cols)[k] < |cols|
    ensures BitsInside(StoredView(LayoutOf(cols).value)) && BitsDistinct(StoredView(LayoutOf(cols).value)) <==>
            BitsFit(cols, LayoutOf(cols).value.endsAt - LayoutOf(cols).value.bitmapAt)
    ensures PrefixCondition(cols) ==> BitsFit(cols, LayoutOf(cols).value.endsAt - LayoutOf(cols).value.bitmapAt)
  {
    OrderInRange(cols);
    var L := LayoutOf(cols).value;
    if BitsFit(cols, L.endsAt - L.bitmapAt) {
      BitsFitSuffices(cols);
    }
    if BitsInside(StoredView(L)) && BitsDistinct(StoredView(L)) {
      BitsFitNeeded(cols);
    }
    if PrefixCondition(cols) {
      PrefixFits(cols);
      if Count(cols, Fixed) < |cols| {
        RoomForBitmap(cols);
      } else {
        AllFixed(cols);
      }
    }
  }

  lemma AllFixed(cols: seq<Col>)
    requires Count(cols, Fixed) == |cols|
    ensures forall i :: 0 <= i < |cols| ==> Is(cols[i], Fixed)
  {
    PickPartition(cols, |cols|);
    forall i | 0 <= i < |cols|
      ensures Is(cols[i], Fixed)
    {
      if Is(cols[i], Var) {
        PickFinds(cols, Var, |cols|, i);
      } else if Is(cols[i], NullFixed) {
        PickFinds(cols, NullFixed, |cols|, i);
      }
    }
  }

  // ---------------------------------------------------------------- rows in field order

  /** The schema can be used: its layout has been computed and its null bits do not interfere. */
  ghost predicate Usable(cols: seq<Col>) {
    ColsOk(cols) && LayoutOf(cols).Some? && Count(cols, Var) < 16384 &&
    BitsFit(cols, LayoutOf(cols).value.endsAt - LayoutOf(cols).value.bitmapAt)
  }

  /** The view of a usable schema. */
  function ViewOf(cols: seq<Col>): (V: View)
    requires LayoutOf(cols).Some?
    ensures |V.f| == |cols|
    ensures forall i {:trigger PositionOf(cols, i)} :: 0 <= i < |cols| ==>
              PositionOf(cols, i) < |cols| && V.f[PositionOf(cols, i)] == FieldOf(cols, i)
  {
    OrderInRange(cols);
    assert forall i :: 0 <= i < |cols| ==> PositionOf(cols, i) < |cols| && OrderOf(cols)[PositionOf(cols, i)] == i by {
      forall i | 0 <= i < |cols|
        ensures PositionOf(cols, i) < |cols| && OrderOf(cols)[PositionOf(cols, i)] == i
      {
        PositionFinds(cols, i);
      }
    }
    StoredView(LayoutOf(cols).value)
  }

  /** A row given in field order, rearranged into storage order. */
  function Arrange<T>(order: seq<nat>, row: seq<T>): (r: seq<T>)
    requires forall k :: 0 <= k < |order| ==> order[k] < |row|
    ensures |r| == |order| && forall k :: 0 <= k < |order| ==> r[k] == row[order[k]]
  {
    seq(|order|, k requires 0 <= k < |order| => row[order[k]])
  }

  /** A row that the schema accepts: values of the right types, NULLs in nullable fields only. */
  ghost predicate RowFor(cols: seq<Col>, row: seq<Datum>) {
    |row| == |cols| && forall i {:trigger Typed(FieldOf(cols, i), row[i])} :: 0 <= i < |cols| ==>
      Typed(FieldOf(cols, i), row[i]) && (row[i].Null? ==> cols[i].nullable)
  }

  function RowPlaced(cols: seq<Col>, row: seq<Datum>): (r: seq<Datum>)
    requires |row| == |cols|
    ensures |r| == |cols|
    ensures forall i {:trigger PositionOf(cols, i)} :: 0 <= i < |cols| ==>
              PositionOf(cols, i) < |cols| && r[PositionOf(cols, i)] == row[i]
  {
    OrderInRange(cols);
    assert forall i :: 0 <= i < |cols| ==> PositionOf(cols, i) < |cols| && OrderOf(cols)[PositionOf(cols, i)] == i by {
      forall i | 0 <= i < |cols|
        ensures PositionOf(cols, i) < |cols| && OrderOf(cols)[PositionOf(cols, i)] == i
      {
        PositionFinds(cols, i);
      }
    }
    Arrange(OrderOf(cols), row)
  }

  lemma PlacedField(cols: seq<Col>, row: seq<Datum>, k: nat)
    requires LayoutOf(cols).Some? && RowFor(cols, row) && k < |cols|
    ensures Typed(ViewOf(cols).f[k], RowPlaced(cols, row)[k])
    ensures RowPlaced(cols, row)[k].Null? ==> ViewOf(cols).f[k].nullBit >= 0
  {
    OrderAt(cols, k);
    var i := OrderOf(cols)[k];
    assert ViewOf(cols).f[k] == FieldOf(cols, i) && RowPlaced(cols, row)[k] == row[i];
    assert Typed(FieldOf(cols, i), row[i]) && (row[i].Null? ==> cols[i].nullable);
  }

  /** A usable schema and a row it accepts meet every condition of the codec. */
  lemma UsableSound(cols: seq<Col>, row: seq<Datum>)
    requires Usable(cols) && RowFor(cols, row)
    ensures Sound(ViewOf(cols), RowPlaced(cols, row))
  {
    ShapeOfLayout(cols);
    NullBitsSound(cols);
    forall k | 0 <= k < |cols|
      ensures TypedAt(ViewOf(cols), RowPlaced(cols, row), k) && NullAllowed(ViewOf(cols), RowPlaced(cols, row), k)
    {
      PlacedField(cols, row, k);
    }
  }

  /** The positions of all fields, by id. */
  ghost function Positions(cols: seq<Col>): (r: seq<nat>)
    ensures |r| == |cols| && forall i {:trigger r[i]} :: 0 <= i < |cols| ==> r[i] == PositionOf(cols, i)
  {
    seq(|cols|, i requires 0 <= i < |cols| => PositionOf(cols, i))
  }

  /** What a payload says about field `i`. */
  ghost predicate FieldReadable(cols: seq<Col>, p: seq<Byte>, i: nat)
    requires LayoutOf(cols).Some? && i < |cols|
  {
    Readable(ViewOf(cols), p, PositionOf(cols, i))
  }

  function FieldIn(cols: seq<Col>, p: seq<Byte>, i: nat): Datum
    requires LayoutOf(cols).Some? && i < |cols| && FieldReadable(cols, p, i)
  {
    ReadField(ViewOf(cols), p, PositionOf(cols, i))
  }

  ghost predicate RowReadable(cols: seq<Col>, p: seq<Byte>) {
    LayoutOf(cols).Some? && forall i :: 0 <= i < |cols| ==> FieldReadable(cols, p, i)
  }

  /** The row that `DissemblePayload` returns, in field order. */
  function RowIn(cols: seq<Col>, p: seq<Byte>): (r: seq<Datum>)
    requires RowReadable(cols, p)
    ensures |r| == |cols|
    ensures forall i :: 0 <= i < |cols| ==> r[i] == FieldIn(cols, p, i)
  {
    seq(|cols|, i requires 0 <= i < |cols| && FieldReadable(cols, p, i) => FieldIn(cols, p, i))
  }

  /** The row as it survives a round trip: by-value data cut to their type's length. */
  ghost function StoredIn(cols: seq<Col>, row: seq<Datum>): (r: seq<Datum>)
    requires |row| == |cols|
    ensures |r| == |cols| && forall i :: 0 <= i < |cols| ==> r[i] == Stored(FieldOf(cols, i), row[i])
  {
    seq(|cols|, i requires 0 <= i < |cols| => Stored(FieldOf(cols, i), row[i]))
  }

  /** The payload of the row in field order. */
  ghost predicate IsPayload(cols: seq<Col>, row: seq<Datum>, p: seq<Byte>) {
    && Usable(cols) && RowFor(cols, row)
    && Encodes(ViewOf(cols), RowPlaced(cols, row), p) && |p| <= I16_MAX
  }

  /** What the writer does with a row given in field order and an empty buffer. */
  function WriteRow(cols: seq<Col>, row: seq<Datum>): WResult
    requires LayoutOf(cols).Some? && |row| == |cols|
  {
    Write16(ViewOf(cols), RowPlaced(cols, row), 0)
  }

  ghost function LengthOf(cols: seq<Col>, row: seq<Datum>): int
    requires LayoutOf(cols).Some? && |row| == |cols|
  {
    Total(ViewOf(cols), RowPlaced(cols, row))
  }

  /** A row that fits is written as its payload. */
  lemma WriteRowFits(cols: seq<Col>, row: seq<Datum>)
    requires Usable(cols) && RowFor(cols, row) && LengthOf(cols, row) <= I16_MAX
    ensures WriteRow(cols, row).Wrote? && WriteRow(cols, row).len == |WriteRow(cols, row).payload| == LengthOf(cols, row)
    ensures IsPayload(cols, row, WriteRow(cols, row).payload)
  {
    UsableSound(cols, row);
    WriteFits(ViewOf(cols), RowPlaced(cols, row), 0);
    var p :| WriteRow(cols, row) == Wrote(LengthOf(cols, row), p) && Encodes(ViewOf(cols), RowPlaced(cols, row), p);
  }

  /**
   Exact overflow detection, in field order: with values behind the end array of at most 32761 bytes, the writer
   returns -1 exactly when the unbounded payload length exceeds 32767, and otherwise that length and the payload.
   */
  lemma WriteRowExact(cols: seq<Col>, row: seq<Datum>)
    requires Usable(cols) && RowFor(cols, row) && SizesUpTo(ViewOf(cols), RowPlaced(cols, row), 32761)
    ensures WriteRow(cols, row).TooLong? <==> LengthOf(cols, row) > I16_MAX
    ensures WriteRow(cols, row).TooLong? || (WriteRow(cols, row).Wrote? && IsPayload(cols, row, WriteRow(cols, row).payload))
  {
    UsableSound(cols, row);
    WriteExact(ViewOf(cols), RowPlaced(cols, row));
    if LengthOf(cols, row) <= I16_MAX {
      WriteRowFits(cols, row);
    }
  }

  /**
   Codec round trip: dissembling the payload of a row, with anything behind it, gives back the row with every
   NULL and every by-reference value intact and the by-value data cut to the length of their types.
   */
  lemma RowRoundTrip(cols: seq<Col>, row: seq<Datum>, p: seq<Byte>, slot: seq<Byte>)
    requires IsPayload(cols, row, p) && p <= slot
    ensures RowReadable(cols, slot) && RowIn(cols, slot) == StoredIn(cols, row)
  {
    UsableSound(cols, row);
    var V, ds := ViewOf(cols), RowPlaced(cols, row);
    HoldsFrame(V, ds, |V.f|, p, slot);
    forall i | 0 <= i < |cols|
      ensures FieldReadable(cols, slot, i) && FieldIn(cols, slot, i) == StoredIn(cols, row)[i]
    {
      ReadFieldExact(V, ds, slot, PositionOf(cols, i));
    }
  }
}
