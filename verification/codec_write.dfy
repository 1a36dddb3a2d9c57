/**
 The 16-bit writer produces well-formed payloads and detects overflow exactly
 (src/catalog/Schema.cpp:352-460).
 */
module CodecWrite {
  import opened Base
  import opened Codec

  ghost predicate RowOk(V: View, ds: seq<Datum>) {
    Shape(V) && RowTyped(V, ds) && NullsAllowed(V, ds)
  }

  ghost predicate SameBytes(b: seq<Byte>, c: seq<Byte>, from: int, to: int) {
    0 <= from && to <= |b| && to <= |c| && forall i :: from <= i < to ==> b[i] == c[i]
  }

  /** What is known of a fixed field. */
  lemma FixedFacts(V: View, ds: seq<Datum>, k: nat)
    requires Shape(V) && RowTyped(V, ds) && NullsAllowed(V, ds) && k < V.nFixed
    ensures Placed(V, k) && !ds[k].Null? && |FieldBytes(V.f[k], ds[k])| == V.f[k].len
  {
    assert Placed(V, k) && TypedAt(V, ds, k) && NullAllowed(V, ds, k);
  }

  /** What kind of field sits at position `k` behind the fixed ones. */
  lemma KindFacts(V: View, k: nat)
    requires Shape(V) && V.nFixed <= k < |V.f|
    ensures V.f[k].offset < 0 && FieldOk(V.f[k])
    ensures V.f[k].len == -1 <==> k < V.nFixed + V.nVar
    ensures V.f[k].len == -1 ==> EndOf(V.endsAt, V.f[k]) == EndAt(V, k) && V.endsAt <= EndAt(V, k) <= V.dataAt - 2
  {
    assert Placed(V, k);
  }

  /** Where a non-null field behind the end array lies. */
  lemma TailFacts(V: View, ds: seq<Datum>, k: nat)
    requires Shape(V) && RowTyped(V, ds) && V.nFixed <= k < |V.f| && !ds[k].Null?
    ensures V.f[k].offset < 0 && |FieldBytes(V.f[k], ds[k])| == DataLen(V.f[k], ds[k])
    ensures RunOff(V, ds, k + 1) == Begin(V, ds, k) + DataLen(V.f[k], ds[k])
    ensures V.dataAt <= RunOff(V, ds, k) <= Begin(V, ds, k)
  {
    assert TypedAt(V, ds, k);
    KindFacts(V, k);
    RunOffMonotone(V, ds, 0, k);
  }

  // ---------------------------------------------------------------- the bytes that a step may change

  /** Storing the field at position `k` may change byte `i` below the running offset. */
  predicate Touches(V: View, k: nat, i: int)
    requires k < |V.f|
  {
    if k < V.nFixed then V.f[k].offset <= i < V.f[k].offset + V.f[k].len
    else V.bitmapAt <= i < V.endsAt || (V.f[k].len == -1 && EndAt(V, k) <= i < EndAt(V, k) + 2)
  }

  /** Below `end`, `c` differs from `b` at most where storing field `k` may change it. */
  ghost predicate OnlyTouched(V: View, k: nat, end: int, b: seq<Byte>, c: seq<Byte>)
    requires k < |V.f|
  {
    end <= |b| && end <= |c| && forall i :: 0 <= i < end && !Touches(V, k, i) ==> c[i] == b[i]
  }

  /** Storing field `k` leaves every earlier field in place. */
  lemma HeldFrame(V: View, ds: seq<Datum>, j: nat, k: nat, b: seq<Byte>, c: seq<Byte>)
    requires RowOk(V, ds) && j < k < |V.f| && FieldHeld(V, ds, j, b)
    requires V.dataAt <= RunOff(V, ds, k) && OnlyTouched(V, k, RunOff(V, ds, k), b, c)
    ensures FieldHeld(V, ds, j, c)
  {
    if j < V.nFixed {
      FixedFacts(V, ds, j);
      FixedUntouched(V, j, k);
      assert forall i :: V.f[j].offset <= i < V.f[j].offset + V.f[j].len ==> c[i] == b[i];
    } else {
      TailUntouched(V, ds, j, k);
      assert V.f[j].len == -1 ==> c[EndAt(V, j)] == b[EndAt(V, j)] && c[EndAt(V, j) + 1] == b[EndAt(V, j) + 1];
      assert forall i :: V.dataAt <= i < RunOff(V, ds, k) ==> c[i] == b[i];
      HeldAgain(V, ds, j, k, b, c);
    }
  }

  lemma FixedUntouched(V: View, j: nat, k: nat)
    requires Shape(V) && j < k < |V.f| && j < V.nFixed
    ensures Placed(V, j)
    ensures forall i :: V.f[j].offset <= i < V.f[j].offset + V.f[j].len ==> !Touches(V, k, i)
  {
    assert Placed(V, j) && Placed(V, k);
    if k < V.nFixed {
      assert Apart(V, j, k);
    }
  }

  lemma TailUntouched(V: View, ds: seq<Datum>, j: nat, k: nat)
    requires Shape(V) && |ds| == |V.f| && V.nFixed <= j < k < |V.f|
    ensures V.f[j].len == -1 ==>
              V.endsAt <= EndAt(V, j) <= V.dataAt - 2 && !Touches(V, k, EndAt(V, j)) && !Touches(V, k, EndAt(V, j) + 1)
    ensures forall i :: V.dataAt <= i ==> !Touches(V, k, i)
  {
    KindFacts(V, j);
    KindFacts(V, k);
  }

  /** A field behind the end array stays in place when its entry and the data below the running offset do. */
  lemma HeldAgain(V: View, ds: seq<Datum>, j: nat, k: nat, b: seq<Byte>, c: seq<Byte>)
    requires Shape(V) && RowTyped(V, ds) && V.nFixed <= j < k <= |V.f| && FieldHeld(V, ds, j, b)
    requires V.dataAt <= RunOff(V, ds, k) <= |b| && RunOff(V, ds, k) <= |c|
    requires V.f[j].len == -1 ==>
               (V.endsAt <= EndAt(V, j) <= V.dataAt - 2 &&
                c[EndAt(V, j)] == b[EndAt(V, j)] && c[EndAt(V, j) + 1] == b[EndAt(V, j) + 1])
    requires forall i :: V.dataAt <= i < RunOff(V, ds, k) ==> c[i] == b[i]
    ensures FieldHeld(V, ds, j, c)
  {
    if V.f[j].len == -1 {
      Get16Same(b, c, EndAt(V, j));
    }
    if !ds[j].Null? {
      TailFacts(V, ds, j);
      RunOffMonotone(V, ds, j + 1, k);
    }
  }

  lemma Get16Same(b: seq<Byte>, c: seq<Byte>, at: int)
    requires InRange(b, at, 2) && InRange(c, at, 2) && b[at] == c[at] && b[at + 1] == c[at + 1]
    ensures Get16(b, at) == Get16(c, at)
  {
  }

  lemma GapsStep(V: View, k: nat, end: int, b: seq<Byte>, c: seq<Byte>)
    requires Shape(V) && k < |V.f| && V.bitmapAt <= end && OnlyTouched(V, k, end, b, c) && GapsZero(V, k, b)
    ensures GapsZero(V, k + 1, c)
  {
    forall i | 0 <= i < V.bitmapAt && i < |c| && !InFixed(V, k + 1, i)
      ensures c[i] == 0
    {
      assert !InFixed(V, k, i);
    }
  }

  /** One more field contributes at most its own null bit. */
  lemma NullAtGrows(V: View, ds: seq<Datum>, k: nat, x: int)
    requires |ds| == |V.f| && k < |V.f|
    ensures NullAt(V, ds, k + 1, x) <==> NullAt(V, ds, k, x) || (V.f[k].nullBit == x && ds[k].Null?)
  {
    if NullAt(V, ds, k, x) {
      var j :| 0 <= j < k && V.f[j].nullBit == x && ds[j].Null?;
      assert 0 <= j < k + 1;
    }
  }

  /** The bitmap changes by the null bit of field `k`, if that field is NULL. */
  ghost predicate BitsStep(V: View, ds: seq<Datum>, k: nat, b: seq<Byte>, c: seq<Byte>)
    requires |ds| == |V.f| && k < |V.f| && Regions(V) && V.dataAt <= |b| && V.dataAt <= |c|
  {
    var was := if ds[k].Null? && 0 <= V.bitmapAt + V.f[k].nullBit / 8 < |b|
               then SetBit(b, V.bitmapAt, V.f[k].nullBit) else b;
    SameBytes(was, c, V.bitmapAt, V.endsAt)
  }

  lemma BitsHeldStep(V: View, ds: seq<Datum>, k: nat, b: seq<Byte>, c: seq<Byte>)
    requires Regions(V) && |ds| == |V.f| && k < |V.f| && NullAllowed(V, ds, k) && V.dataAt <= |b| && V.dataAt <= |c|
    requires BitsHeld(V, ds, k, b) && BitsStep(V, ds, k, b, c)
    ensures BitsHeld(V, ds, k + 1, c)
  {
    var n := k + 1;
    forall x | 0 <= x < 8 * (V.endsAt - V.bitmapAt)
      ensures BitHeld(V, ds, n, c, x)
    {
      assert BitHeld(V, ds, k, b, x);
      NullAtGrows(V, ds, k, x);
      if ds[k].Null? {
        SetBitBits(b, V.bitmapAt, V.f[k].nullBit, x);
      }
    }
  }

  /** Storing field `k` extends the encoding by one field. */
  lemma HoldsStep(V: View, ds: seq<Datum>, k: nat, b: seq<Byte>, c: seq<Byte>)
    requires RowOk(V, ds) && k < |V.f| && Holds(V, ds, k, b) && RunOff(V, ds, k + 1) <= |c|
    requires OnlyTouched(V, k, RunOff(V, ds, k), b, c) && BitsStep(V, ds, k, b, c) && FieldHeld(V, ds, k, c)
    ensures Holds(V, ds, k + 1, c)
  {
    RunOffMonotone(V, ds, k, k + 1);
    forall j | 0 <= j < k + 1
      ensures FieldHeld(V, ds, j, c)
    {
      if j < k {
        assert FieldHeld(V, ds, j, b);
        HeldFrame(V, ds, j, k, b, c);
      }
    }
    GapsStep(V, k, RunOff(V, ds, k), b, c);
    assert NullAllowed(V, ds, k);
    BitsHeldStep(V, ds, k, b, c);
  }

  /** Well-formedness depends only on the bytes below the running offset. */
  lemma HoldsFrame(V: View, ds: seq<Datum>, k: nat, b: seq<Byte>, c: seq<Byte>)
    requires RowOk(V, ds) && k <= |V.f| && Holds(V, ds, k, b)
    requires SameBytes(b, c, 0, RunOff(V, ds, k))
    ensures Holds(V, ds, k, c)
  {
    forall j | 0 <= j < k
      ensures FieldHeld(V, ds, j, c)
    {
      assert FieldHeld(V, ds, j, b);
      HeldBelow(V, ds, j, k, b, c);
    }
    forall x | 0 <= x < 8 * (V.endsAt - V.bitmapAt)
      ensures BitHeld(V, ds, k, c, x)
    {
      assert BitHeld(V, ds, k, b, x) && b[V.bitmapAt + x / 8] == c[V.bitmapAt + x / 8];
    }
  }

  lemma HeldBelow(V: View, ds: seq<Datum>, j: nat, k: nat, b: seq<Byte>, c: seq<Byte>)
    requires RowOk(V, ds) && j < k <= |V.f| && FieldHeld(V, ds, j, b)
    requires V.dataAt <= RunOff(V, ds, k) && SameBytes(b, c, 0, RunOff(V, ds, k))
    ensures FieldHeld(V, ds, j, c)
  {
    if j < V.nFixed {
      FixedFacts(V, ds, j);
    } else {
      KindFacts(V, j);
      HeldAgain(V, ds, j, k, b, c);
    }
  }

  // ---------------------------------------------------------------- one step of the writer

  /** In step with the unbounded offsets, nothing has wrapped. */
  ghost predicate InStep(V: View, ds: seq<Datum>, k: nat, st: WState)
    requires |ds| == |V.f| && k <= |V.f|
  {
    st.off == RunOff(V, ds, k) == |st.buf| <= I16_MAX && Holds(V, ds, k, st.buf)
  }

  /** The unbounded offset has left the 16-bit range; the 16-bit one is too negative to be aligned to zero. */
  ghost predicate Wrapped(V: View, ds: seq<Datum>, k: nat, st: WState)
    requires |ds| == |V.f| && k <= |V.f|
  {
    I16_MAX < RunOff(V, ds, k) && -0x8000 <= st.off <= -8 && V.dataAt <= |st.buf| && V.nFixed <= k
  }

  lemma ZerosHold(V: View, ds: seq<Datum>)
    requires RowOk(V, ds)
    ensures InStep(V, ds, 0, WState(Zeros(V.dataAt), V.dataAt))
  {
    ZeroBitsHeld(V, ds);
  }

  lemma ZeroBitsHeld(V: View, ds: seq<Datum>)
    requires Regions(V) && |ds| == |V.f|
    ensures BitsHeld(V, ds, 0, Zeros(V.dataAt))
  {
    var b := Zeros(V.dataAt);
    forall x | 0 <= x < 8 * (V.endsAt - V.bitmapAt)
      ensures BitHeld(V, ds, 0, b, x)
    {
      ZeroHasNoBits(x % 8);
    }
  }

  lemma {:induction false} ZeroHasNoBits(k: nat)
    ensures !BitOf(0, k)
  {
    if k > 0 {
      ZeroHasNoBits(k - 1);
    }
  }

  lemma StepFixedHolds(V: View, ds: seq<Datum>, k: nat, st: WState)
    requires RowOk(V, ds) && k < V.nFixed && InStep(V, ds, k, st)
    ensures V.f[k].offset >= 0 && StepFixed(V.f[k], ds[k], st).Go?
    ensures InStep(V, ds, k + 1, StepFixed(V.f[k], ds[k], st).st)
  {
    FixedFacts(V, ds, k);
    var c := StepFixed(V.f[k], ds[k], st).st.buf;
    HoldsStep(V, ds, k, st.buf, c);
  }

  /** The effect of a NULL on the bytes. */
  lemma StepNullEffect(V: View, ds: seq<Datum>, k: nat, st: WState)
    requires Shape(V) && |ds| == |V.f| && V.nFixed <= k < |V.f| && NullAllowed(V, ds, k) && ds[k].Null?
    requires V.dataAt <= |st.buf| && -0x8000 <= st.off <= I16_MAX
    ensures StepNull(V, V.f[k], st).Go? && V.f[k].offset < 0
    ensures var c := StepNull(V, V.f[k], st).st.buf;
      && StepNull(V, V.f[k], st).st.off == st.off && |c| == |st.buf|
      && OnlyTouched(V, k, |st.buf|, st.buf, c) && BitsStep(V, ds, k, st.buf, c)
      && (V.f[k].len == -1 ==> InRange(c, EndAt(V, k), 2) && Get16(c, EndAt(V, k)) == st.off)
  {
    KindFacts(V, k);
  }

  lemma StepNullHolds(V: View, ds: seq<Datum>, k: nat, st: WState)
    requires RowOk(V, ds) && V.nFixed <= k < |V.f| && ds[k].Null? && InStep(V, ds, k, st)
    ensures StepNull(V, V.f[k], st).Go? && V.f[k].offset < 0
    ensures InStep(V, ds, k + 1, StepNull(V, V.f[k], st).st)
  {
    assert NullAllowed(V, ds, k);
    StepNullEffect(V, ds, k, st);
    HoldsStep(V, ds, k, st.buf, StepNull(V, V.f[k], st).st.buf);
  }

  /** Growing `b` to `begin + |value|` and storing `value` there leaves the old bytes alone and pads with zeros. */
  lemma AppendEffect(b: seq<Byte>, begin: int, value: seq<Byte>)
    requires |b| <= begin
    ensures var r := Put(Resize(b, begin + |value|), begin, value);
      && |r| == begin + |value| && HoldsAt(r, begin, value) && SameBytes(b, r, 0, |b|)
      && forall i :: |b| <= i < begin ==> r[i] == 0
  {
  }

  /** The effect of a non-null value behind the end array when nothing wraps. */
  lemma StepTailEffect(V: View, d: Datum, k: nat, init: int, st: WState) returns (c: seq<Byte>)
    requires Shape(V) && V.nFixed <= k < |V.f| && Typed(V.f[k], d) && !d.Null? && init >= 0
    requires V.dataAt <= st.off == |st.buf|
    requires AlignUp(V.f[k].align, st.off) + DataLen(V.f[k], d) <= I16_MAX
    ensures StepTail(V, V.f[k], d, init, st) == Go(WState(c, |c|)) && V.f[k].offset < 0
    ensures |c| == AlignUp(V.f[k].align, st.off) + DataLen(V.f[k], d)
    ensures OnlyTouched(V, k, |st.buf|, st.buf, c) && SameBytes(st.buf, c, V.bitmapAt, V.endsAt)
    ensures V.f[k].len == -1 ==> InRange(c, EndAt(V, k), 2) && Get16(c, EndAt(V, k)) == |c|
    ensures HoldsAt(c, AlignUp(V.f[k].align, st.off), FieldBytes(V.f[k], d))
    ensures ZeroAt(c, |st.buf|, AlignUp(V.f[k].align, st.off))
  {
    KindFacts(V, k);
    var value, begin := FieldBytes(V.f[k], d), AlignUp(V.f[k].align, st.off);
    assert Resize(value, DataLen(V.f[k], d)) == value;
    var b := PutEnd(V.endsAt, V.f[k], begin + |value|, st.buf);
    AppendEffect(b, begin, value);
    c := Put(Resize(b, begin + |value|), begin, value);
    assert V.f[k].len == -1 ==> Get16(b, EndAt(V, k)) == |c|;
    if V.f[k].len == -1 {
      Get16Same(b, c, EndAt(V, k));
    }
  }

  lemma StepTailHolds(V: View, ds: seq<Datum>, k: nat, init: int, st: WState)
    requires RowOk(V, ds) && V.nFixed <= k < |V.f| && !ds[k].Null? && InStep(V, ds, k, st)
    requires init >= 0 && RunOff(V, ds, k + 1) <= I16_MAX
    ensures StepTail(V, V.f[k], ds[k], init, st).Go? && V.f[k].offset < 0
    ensures InStep(V, ds, k + 1, StepTail(V, V.f[k], ds[k], init, st).st)
  {
    TailFacts(V, ds, k);
    assert TypedAt(V, ds, k);
    var c := StepTailEffect(V, ds[k], k, init, st);
    HoldsStep(V, ds, k, st.buf, c);
  }

  /** Sizes for which the 16-bit overflow test is exact. */
  ghost predicate SizesUpTo(V: View, ds: seq<Datum>, bound: int)
    requires |ds| == |V.f|
  {
    forall k :: V.nFixed <= k < |V.f| && !ds[k].Null? ==> DataLen(V.f[k], ds[k]) <= bound
  }

  lemma NegativeStays(a: Alignment, off: int)
    requires -0x8000 <= off <= -8
    ensures -0x8000 <= TypeAlign(a, off) <= -8
  {
    AlignUpMonotone(a, off, -8);
    AlignedEight(a, -8);
  }

  /** The step at which the offset leaves the 16-bit range: refused, or the offset becomes at most -8. */
  lemma StepTailWraps(V: View, d: Datum, k: nat, st: WState)
    requires Shape(V) && V.nFixed <= k < |V.f| && !d.Null? && DataLen(V.f[k], d) <= 32761
    requires V.dataAt <= st.off == |st.buf| <= I16_MAX
    requires I16_MAX < AlignUp(V.f[k].align, st.off) + DataLen(V.f[k], d)
    ensures var r := StepTail(V, V.f[k], d, 0, st);
      r == Stop(TooLong) || (r.Go? && -0x8000 <= r.st.off <= -8 && V.dataAt <= |r.st.buf|)
  {
    KindFacts(V, k);
    var begin, len := AlignUp(V.f[k].align, st.off), DataLen(V.f[k], d);
    if I16_MAX < begin {
      AlignWraps(V.f[k].align, st.off);
    } else {
      SumWraps(begin, len);
    }
  }

  lemma AlignWraps(a: Alignment, off: int)
    requires 0 <= off <= I16_MAX < AlignUp(a, off)
    ensures TypeAlign(a, off) < 0
  {
  }

  lemma SumWraps(x: int, y: int)
    requires 0 <= x <= I16_MAX && 0 <= y <= 32761 && I16_MAX < x + y
    ensures -0x8000 <= I16(x + y) <= -8
  {
  }

  lemma FinishWraps(off: int, buf: seq<Byte>)
    requires -0x8000 <= off <= -8 || (0 <= off <= I16_MAX && I16_MAX < AlignUp(8, off))
    ensures Finish(0, WState(buf, off)) == TooLong
  {
    if off < 0 {
      NegativeStays(8, off);
    } else {
    }
  }

  /** The step that leaves the 16-bit range, and every step after it, is noticed. */
  lemma StepWraps(V: View, ds: seq<Datum>, k: nat, st: WState)
    requires RowOk(V, ds) && V.nFixed <= k < |V.f| && SizesUpTo(V, ds, 32761)
    requires Wrapped(V, ds, k, st) || (InStep(V, ds, k, st) && I16_MAX < RunOff(V, ds, k + 1))
    ensures Step(V, V.f[k], ds[k], 0, st) == Stop(TooLong) ||
            (Step(V, V.f[k], ds[k], 0, st).Go? && Wrapped(V, ds, k + 1, Step(V, V.f[k], ds[k], 0, st).st))
  {
    KindFacts(V, k);
    RunOffMonotone(V, ds, k, k + 1);
    if ds[k].Null? {
      assert NullAllowed(V, ds, k);
      StepNullEffect(V, ds, k, st);
    } else {
      TailFacts(V, ds, k);
      if Wrapped(V, ds, k, st) {
        NegativeStays(V.f[k].align, st.off);
      } else {
        StepTailWraps(V, ds[k], k, st);
      }
    }
  }

  /** The outcome is the payload of the row, with its unbounded length. */
  ghost predicate WrotePayload(V: View, ds: seq<Datum>, r: WResult)
    requires |ds| == |V.f|
  {
    exists p :: r == Wrote(Total(V, ds), p) && Encodes(V, ds, p)
  }

  lemma FinishHolds(V: View, ds: seq<Datum>, init: int, st: WState)
    requires RowOk(V, ds) && InStep(V, ds, |V.f|, st) && init >= 0 && init + Total(V, ds) <= I16_MAX
    ensures WrotePayload(V, ds, WriteFrom(V, ds, init, |V.f|, st))
  {
    var p := Resize(st.buf, Total(V, ds));
    HoldsFrame(V, ds, |V.f|, st.buf, p);
    assert Encodes(V, ds, p);
  }

  /** While the next offset fits, one step keeps the writer in step with the unbounded offsets. */
  lemma StepHolds(V: View, ds: seq<Datum>, k: nat, init: int, st: WState)
    requires RowOk(V, ds) && k < |V.f| && InStep(V, ds, k, st) && init >= 0 && RunOff(V, ds, k + 1) <= I16_MAX
    ensures exists next :: Step(V, V.f[k], ds[k], init, st) == Go(next) && InStep(V, ds, k + 1, next)
  {
    if k < V.nFixed {
      StepFixedHolds(V, ds, k, st);
    } else if ds[k].Null? {
      StepNullHolds(V, ds, k, st);
    } else {
      StepTailHolds(V, ds, k, init, st);
    }
  }

  lemma WriteFromGo(V: View, ds: seq<Datum>, init: int, k: nat, st: WState, next: WState)
    requires |ds| == |V.f| && k < |V.f| && Step(V, V.f[k], ds[k], init, st) == Go(next)
    ensures WriteFrom(V, ds, init, k, st) == WriteFrom(V, ds, init, k + 1, next)
  {
  }

  /** The payload that the remaining steps produce when everything fits. */
  lemma {:induction false} WriteFromFits(V: View, ds: seq<Datum>, init: int, k: nat, st: WState)
    requires RowOk(V, ds) && k <= |V.f| && InStep(V, ds, k, st) && init >= 0 && init + Total(V, ds) <= I16_MAX
    ensures WrotePayload(V, ds, WriteFrom(V, ds, init, k, st))
    decreases |V.f| - k
  {
    if k == |V.f| {
      FinishHolds(V, ds, init, st);
    } else {
      RunOffMonotone(V, ds, k + 1, |V.f|);
      StepHolds(V, ds, k, init, st);
      var next :| Step(V, V.f[k], ds[k], init, st) == Go(next) && InStep(V, ds, k + 1, next);
      WriteFromGo(V, ds, init, k, st, next);
      WriteFromFits(V, ds, init, k + 1, next);
    }
  }

  lemma {:induction false} WriteFromWraps(V: View, ds: seq<Datum>, k: nat, st: WState)
    requires RowOk(V, ds) && k <= |V.f| && SizesUpTo(V, ds, 32761)
    requires Wrapped(V, ds, k, st) || (InStep(V, ds, k, st) && I16_MAX < Total(V, ds))
    ensures WriteFrom(V, ds, 0, k, st) == TooLong
    decreases |V.f| - k
  {
    if k == |V.f| {
      FinishWraps(st.off, st.buf);
    } else if Wrapped(V, ds, k, st) || I16_MAX < RunOff(V, ds, k + 1) {
      assert V.nFixed <= k by {
        if k < V.nFixed { RunOffFixed(V, ds, k + 1); }
      }
      StepWraps(V, ds, k, st);
      if Step(V, V.f[k], ds[k], 0, st).Go? {
        WriteFromWraps(V, ds, k + 1, Step(V, V.f[k], ds[k], 0, st).st);
      }
    } else {
      StepHolds(V, ds, k, 0, st);
      var next :| Step(V, V.f[k], ds[k], 0, st) == Go(next) && InStep(V, ds, k + 1, next);
      WriteFromGo(V, ds, 0, k, st, next);
      WriteFromWraps(V, ds, k + 1, next);
    }
  }

  /** Behind any prefix: a row that fits is written as its well-formed payload. */
  lemma WriteFits(V: View, ds: seq<Datum>, init: int)
    requires RowOk(V, ds) && init >= 0 && init + Total(V, ds) <= I16_MAX
    ensures WrotePayload(V, ds, Write16(V, ds, init))
  {
    ZerosHold(V, ds);
    WriteFromFits(V, ds, init, 0, WState(Zeros(V.dataAt), V.dataAt));
  }

  /**
   Exact overflow detection: from an empty buffer, with values behind the end array of at most 32761 bytes,
   the writer returns -1 exactly when the unbounded payload length exceeds 32767, and otherwise returns that
   length and the payload of the row.
   */
  lemma WriteExact(V: View, ds: seq<Datum>)
    requires RowOk(V, ds) && SizesUpTo(V, ds, 32761)
    ensures Write16(V, ds, 0) == TooLong <==> Total(V, ds) > I16_MAX
    ensures Total(V, ds) <= I16_MAX ==> WrotePayload(V, ds, Write16(V, ds, 0))
  {
    if Total(V, ds) <= I16_MAX {
      WriteFits(V, ds, 0);
    } else {
      ZerosHold(V, ds);
      WriteFromWraps(V, ds, 0, WState(Zeros(V.dataAt), V.dataAt));
    }
  }
}
