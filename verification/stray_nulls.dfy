/**
 NULLs where the schema does not allow them (src/catalog/Schema.cpp:377-409): in a non-nullable fixed-length field
 they are rejected; in a non-nullable variable-length field they are not, and the byte in front of the bitmap changes.
 */
module StrayNulls {
  import opened Base
  import opened Digits
  import opened Codec
  import opened CodecWrite
  import opened CodecRead
  import opened Layout

  // ---------------------------------------------------------------- rejection

  ghost predicate FixedNull(V: View, ds: seq<Datum>, from: nat) {
    exists k {:trigger ds[k]} :: from <= k < V.nFixed && k < |ds| && ds[k].Null?
  }

  lemma {:induction false} TailNotRejected(V: View, ds: seq<Datum>, init: int, k: nat, st: WState)
    requires Shape(V) && |ds| == |V.f| && V.nFixed <= k <= |V.f|
    ensures WriteFrom(V, ds, init, k, st) != NullRejected
    decreases |V.f| - k
  {
    if k < |V.f| {
      KindFacts(V, k);
      var next := Step(V, V.f[k], ds[k], init, st);
      if next.Go? {
        TailNotRejected(V, ds, init, k + 1, next.st);
      }
    }
  }

  /** A typed value of a fixed field is always stored. */
  lemma FixedStep(V: View, ds: seq<Datum>, init: int, k: nat, st: WState)
    requires Shape(V) && RowTyped(V, ds) && k < V.nFixed && V.dataAt <= |st.buf|
    ensures V.f[k].offset >= 0
    ensures ds[k].Null? ==> Step(V, V.f[k], ds[k], init, st) == Stop(NullRejected)
    ensures !ds[k].Null? ==>
              && |FieldBytes(V.f[k], ds[k])| == V.f[k].len && InRange(st.buf, V.f[k].offset, V.f[k].len)
              && Step(V, V.f[k], ds[k], init, st) == Go(WState(Put(st.buf, V.f[k].offset, FieldBytes(V.f[k], ds[k])), st.off))
  {
    assert Placed(V, k) && TypedAt(V, ds, k);
  }

  lemma FixedNullFrom(V: View, ds: seq<Datum>, k: nat)
    requires k < V.nFixed && k < |ds|
    ensures FixedNull(V, ds, k) <==> ds[k].Null? || FixedNull(V, ds, k + 1)
  {
  }

  lemma {:induction false} FixedRejects(V: View, ds: seq<Datum>, init: int, k: nat, st: WState)
    requires Shape(V) && RowTyped(V, ds) && k <= V.nFixed && V.dataAt <= |st.buf|
    ensures WriteFrom(V, ds, init, k, st) == NullRejected <==> FixedNull(V, ds, k)
    decreases V.nFixed - k
  {
    if k == V.nFixed {
      TailNotRejected(V, ds, init, k, st);
    } else {
      FixedStep(V, ds, init, k, st);
      FixedNullFrom(V, ds, k);
      if !ds[k].Null? {
        var next := Step(V, V.f[k], ds[k], init, st).st;
        WriteFromGo(V, ds, init, k, st, next);
        FixedRejects(V, ds, init, k + 1, next);
      }
    }
  }

  /** A row is rejected for its NULLs if and only if a non-nullable fixed-length field is NULL. */
  lemma RejectedExactly(V: View, ds: seq<Datum>, init: nat)
    requires Shape(V) && RowTyped(V, ds)
    ensures Write16(V, ds, init) == NullRejected <==> FixedNull(V, ds, 0)
  {
    FixedRejects(V, ds, init, 0, WState(Zeros(V.dataAt), V.dataAt));
  }

  // ---------------------------------------------------------------- the byte in front of the bitmap

  /** The field at position `k` is NULL and has no null bit. */
  predicate StrayAt(V: View, ds: seq<Datum>, k: nat) {
    k < |V.f| && k < |ds| && ds[k].Null? && V.f[k].nullBit < 0
  }

  ghost predicate Stray(V: View, ds: seq<Datum>, n: nat) {
    exists k {:trigger StrayAt(V, ds, k)} :: 0 <= k < n && StrayAt(V, ds, k)
  }

  /** A byte whose top bit has been mark, if `mark`. */
  function Marked(x: Byte, mark: bool): Byte {
    if mark && x < 128 then x + 128 else x
  }

  lemma {:induction false} TopBit(x: nat, k: nat)
    requires x < 2 * Pow2(k)
    ensures BitOf(x, k) <==> x >= Pow2(k)
  {
    if k > 0 {
      TopBit(x / 2, k - 1);
    }
  }

  lemma TopBitOfByte(x: Byte)
    ensures OrBit(x, 7) == Marked(x, true)
  {
    assert Pow2(7) == 2 * Pow2(6) == 4 * Pow2(5) == 8 * Pow2(4) == 128;
    OrBitAdds(x, 7);
    TopBit(x, 7);
  }

  /** The fixed field `j` is stored, but for the byte in front of the bitmap, which is marked if `mark`. */
  ghost predicate FrontHeld(V: View, ds: seq<Datum>, j: nat, mark: bool, b: seq<Byte>)
    requires j < |V.f| == |ds|
  {
    var v, at := FieldBytes(V.f[j], ds[j]), V.f[j].offset;
    InRange(b, at, |v|) && |v| == V.f[j].len &&
    forall i {:trigger v[i]} :: 0 <= i < |v| ==> b[at + i] == Marked(v[i], mark && at + i == V.bitmapAt - 1)
  }

  ghost predicate FrontsHeld(V: View, ds: seq<Datum>, n: nat, mark: bool, b: seq<Byte>)
    requires n <= |V.f| == |ds|
  {
    forall j {:trigger FrontHeld(V, ds, j, mark, b)} :: 0 <= j < n ==> FrontHeld(V, ds, j, mark, b)
  }

  /** The fields behind the end array and the null bits of the first `k` fields are as in any well-formed payload. */
  ghost predicate RestHeld(V: View, ds: seq<Datum>, k: nat, b: seq<Byte>)
    requires k <= |V.f| == |ds|
  {
    Regions(V) && V.dataAt <= |b| && TailsHeld(V, ds, k, b) && BitsHeld(V, ds, k, b)
  }

  /** The writer is in step with the unbounded offsets, and all fields so far are stored. */
  ghost predicate Going(V: View, ds: seq<Datum>, k: nat, st: WState)
    requires k <= |V.f| == |ds|
  {
    && V.nFixed <= |V.f| && V.dataAt <= st.off == RunOff(V, ds, k) == |st.buf| <= I16_MAX
    && FrontsHeld(V, ds, if k < V.nFixed then k else V.nFixed, Stray(V, ds, k), st.buf) && RestHeld(V, ds, k, st.buf)
  }

  /** A row of typed values with no NULL in a fixed field. */
  ghost predicate Acceptable(V: View, ds: seq<Datum>) {
    Shape(V) && BitsInside(V) && RowTyped(V, ds) && !FixedNull(V, ds, 0)
  }

  lemma StrayGrows(V: View, ds: seq<Datum>, k: nat)
    ensures Stray(V, ds, k + 1) <==> Stray(V, ds, k) || StrayAt(V, ds, k)
  {
  }

  lemma NoStrayInFront(V: View, ds: seq<Datum>, k: nat)
    requires Acceptable(V, ds) && k <= V.nFixed
    ensures !Stray(V, ds, k)
  {
  }

  /** A field that is no NULL with a null bit leaves the null bits as they are. */
  lemma BitsKept(V: View, ds: seq<Datum>, k: nat, b: seq<Byte>, c: seq<Byte>)
    requires Regions(V) && k < |V.f| == |ds| && (ds[k].Null? ==> V.f[k].nullBit < 0) && V.dataAt <= |b| && V.dataAt <= |c|
    requires BitsHeld(V, ds, k, b) && SameBytes(b, c, V.bitmapAt, V.endsAt)
    ensures BitsHeld(V, ds, k + 1, c)
  {
    var n := k + 1;
    forall x | 0 <= x < 8 * (V.endsAt - V.bitmapAt)
      ensures BitHeld(V, ds, n, c, x)
    {
      assert BitHeld(V, ds, k, b, x) && b[V.bitmapAt + x / 8] == c[V.bitmapAt + x / 8];
      NullAtGrows(V, ds, k, x);
    }
  }

  /** From the end array on, `c` differs from `b` at most in the entry of field `k`. */
  ghost predicate OnlyEntry(V: View, k: nat, end: int, b: seq<Byte>, c: seq<Byte>)
    requires k < |V.f|
  {
    end <= |b| && end <= |c| && forall i {:trigger c[i]} :: 0 <= V.endsAt <= i < end && !Touches(V, k, i) ==> c[i] == b[i]
  }

  lemma RestStep(V: View, ds: seq<Datum>, k: nat, b: seq<Byte>, c: seq<Byte>)
    requires Shape(V) && RowTyped(V, ds) && V.nFixed <= k < |V.f| && RestHeld(V, ds, k, b)
    requires V.dataAt <= RunOff(V, ds, k) && OnlyEntry(V, k, RunOff(V, ds, k), b, c)
    requires FieldHeld(V, ds, k, c) && BitsHeld(V, ds, k + 1, c)
    ensures RestHeld(V, ds, k + 1, c)
  {
    forall j | V.nFixed <= j < k + 1
      ensures FieldHeld(V, ds, j, c)
    {
      if j < k {
        assert FieldHeld(V, ds, j, b);
        TailUntouched(V, ds, j, k);
        HeldAgain(V, ds, j, k, b, c);
      }
    }
  }

  lemma GoingFixed(V: View, ds: seq<Datum>, init: int, k: nat, st: WState)
    requires Acceptable(V, ds) && k < V.nFixed && Going(V, ds, k, st)
    ensures Step(V, V.f[k], ds[k], init, st).Go? && Going(V, ds, k + 1, Step(V, V.f[k], ds[k], init, st).st)
  {
    FixedStep(V, ds, init, k, st);
    NoStrayInFront(V, ds, k);
    NoStrayInFront(V, ds, k + 1);
    var c := Step(V, V.f[k], ds[k], init, st).st.buf;
    forall j | 0 <= j < k + 1
      ensures FrontHeld(V, ds, j, false, c)
    {
      if j < k {
        assert FrontHeld(V, ds, j, false, st.buf) && Apart(V, j, k);
      }
    }
    assert Placed(V, k);
    BitsKept(V, ds, k, st.buf, c);
  }

  /** Fixed fields stay in place while nothing in front of the bitmap changes. */
  lemma FrontsStay(V: View, ds: seq<Datum>, mark: bool, b: seq<Byte>, c: seq<Byte>)
    requires Shape(V) && |ds| == |V.f| && FrontsHeld(V, ds, V.nFixed, mark, b)
    requires V.bitmapAt <= |c| && V.bitmapAt <= |b| && forall i {:trigger c[i]} :: 0 <= i < V.bitmapAt ==> c[i] == b[i]
    ensures FrontsHeld(V, ds, V.nFixed, mark, c)
  {
    forall j | 0 <= j < V.nFixed
      ensures FrontHeld(V, ds, j, mark, c)
    {
      assert FrontHeld(V, ds, j, mark, b) && Placed(V, j);
    }
  }

  /** Fixed fields after the byte in front of the bitmap has been marked. */
  lemma FrontsMarked(V: View, ds: seq<Datum>, mark: bool, b: seq<Byte>, c: seq<Byte>)
    requires Shape(V) && |ds| == |V.f| && FrontsHeld(V, ds, V.nFixed, mark, b) && 0 < V.bitmapAt <= |b|
    requires V.bitmapAt <= |c| && forall i {:trigger c[i]} :: 0 <= i < V.bitmapAt - 1 ==> c[i] == b[i]
    requires c[V.bitmapAt - 1] == Marked(b[V.bitmapAt - 1], true)
    ensures FrontsHeld(V, ds, V.nFixed, true, c)
  {
    forall j | 0 <= j < V.nFixed
      ensures FrontHeld(V, ds, j, true, c)
    {
      assert FrontHeld(V, ds, j, mark, b) && Placed(V, j);
    }
  }

  /** A NULL in a non-nullable variable-length field: its null bit has number -1. */
  lemma StrayStep(V: View, ds: seq<Datum>, init: int, k: nat, st: WState)
    requires Acceptable(V, ds) && StrayAt(V, ds, k) && V.nFixed <= k && Going(V, ds, k, st)
    ensures V.bitmapAt == 0 ==> Step(V, V.f[k], ds[k], init, st) == Stop(Corrupt)
    ensures V.bitmapAt > 0 ==>
              Step(V, V.f[k], ds[k], init, st).Go? && Going(V, ds, k + 1, Step(V, V.f[k], ds[k], init, st).st)
  {
    KindFacts(V, k);
    assert V.f[k].nullBit == -1;
    assert (-1) / 8 == -1 && (-1) % 8 == 7;
    if V.bitmapAt > 0 {
      var next := StepNull(V, V.f[k], st);
      TopBitOfByte(st.buf[V.bitmapAt - 1]);
      FrontsMarked(V, ds, Stray(V, ds, k), st.buf, next.st.buf);
      StrayGrows(V, ds, k);
      BitsKept(V, ds, k, st.buf, next.st.buf);
      RestStep(V, ds, k, st.buf, next.st.buf);
    }
  }

  lemma NullStep(V: View, ds: seq<Datum>, init: int, k: nat, st: WState)
    requires Acceptable(V, ds) && V.nFixed <= k < |V.f| && ds[k].Null? && !StrayAt(V, ds, k) && Going(V, ds, k, st)
    ensures Step(V, V.f[k], ds[k], init, st).Go? && Going(V, ds, k + 1, Step(V, V.f[k], ds[k], init, st).st)
  {
    assert BitInside(V, k) && NullAllowed(V, ds, k);
    StepNullEffect(V, ds, k, st);
    var c := StepNull(V, V.f[k], st).st.buf;
    FrontsStay(V, ds, Stray(V, ds, k), st.buf, c);
    StrayGrows(V, ds, k);
    BitsHeldStep(V, ds, k, st.buf, c);
    RestStep(V, ds, k, st.buf, c);
  }

  lemma ValueStep(V: View, ds: seq<Datum>, init: nat, k: nat, st: WState)
    requires Acceptable(V, ds) && V.nFixed <= k < |V.f| && !ds[k].Null? && Going(V, ds, k, st)
    requires RunOff(V, ds, k + 1) <= I16_MAX
    ensures Step(V, V.f[k], ds[k], init, st).Go? && Going(V, ds, k + 1, Step(V, V.f[k], ds[k], init, st).st)
  {
    TailFacts(V, ds, k);
    assert TypedAt(V, ds, k);
    var c := StepTailEffect(V, ds[k], k, init, st);
    assert forall i :: 0 <= i < V.bitmapAt ==> !Touches(V, k, i) by {
      KindFacts(V, k);
    }
    FrontsStay(V, ds, Stray(V, ds, k), st.buf, c);
    StrayGrows(V, ds, k);
    BitsKept(V, ds, k, st.buf, c);
    RestStep(V, ds, k, st.buf, c);
  }

  /** The outcome: a payload with all fields stored, but for the byte in front of the bitmap, which is marked if a NULL is stray. */
  ghost predicate WroteMarked(V: View, ds: seq<Datum>, r: WResult)
    requires V.nFixed <= |V.f| == |ds|
  {
    r.Wrote? && r.len == |r.payload| == Total(V, ds) && FrontsHeld(V, ds, V.nFixed, Stray(V, ds, |V.f|), r.payload)
    && RestHeld(V, ds, |V.f|, r.payload)
  }

  lemma FinishMarked(V: View, ds: seq<Datum>, init: nat, st: WState)
    requires Acceptable(V, ds) && Going(V, ds, |V.f|, st) && init + Total(V, ds) <= I16_MAX
    ensures WroteMarked(V, ds, Finish(init, st))
  {
    var p := Finish(init, st).payload;
    FrontsStay(V, ds, Stray(V, ds, |V.f|), st.buf, p);
    RestStays(V, ds, st.buf, p);
  }

  lemma RestStays(V: View, ds: seq<Datum>, b: seq<Byte>, c: seq<Byte>)
    requires Shape(V) && RowTyped(V, ds) && RestHeld(V, ds, |V.f|, b) && V.dataAt <= RunOff(V, ds, |V.f|)
    requires SameBytes(b, c, 0, RunOff(V, ds, |V.f|))
    ensures RestHeld(V, ds, |V.f|, c)
  {
    forall j | V.nFixed <= j < |V.f|
      ensures FieldHeld(V, ds, j, c)
    {
      assert FieldHeld(V, ds, j, b);
      KindFacts(V, j);
      HeldAgain(V, ds, j, |V.f|, b, c);
    }
    forall x | 0 <= x < 8 * (V.endsAt - V.bitmapAt)
      ensures BitHeld(V, ds, |V.f|, c, x)
    {
      assert BitHeld(V, ds, |V.f|, b, x) && b[V.bitmapAt + x / 8] == c[V.bitmapAt + x / 8];
    }
  }

  lemma MarkedStep(V: View, ds: seq<Datum>, init: nat, k: nat, st: WState)
    requires Acceptable(V, ds) && k < |V.f| && Going(V, ds, k, st) && RunOff(V, ds, k + 1) <= I16_MAX
    requires V.bitmapAt == 0 ==> !Stray(V, ds, k)
    ensures if V.bitmapAt == 0 && Stray(V, ds, k + 1) then Step(V, V.f[k], ds[k], init, st) == Stop(Corrupt) else
              Step(V, V.f[k], ds[k], init, st).Go? && Going(V, ds, k + 1, Step(V, V.f[k], ds[k], init, st).st)
  {
    StrayGrows(V, ds, k);
    if k < V.nFixed {
      GoingFixed(V, ds, init, k, st);
      NoStrayInFront(V, ds, k + 1);
    } else if StrayAt(V, ds, k) {
      StrayStep(V, ds, init, k, st);
    } else if ds[k].Null? {
      NullStep(V, ds, init, k, st);
    } else {
      ValueStep(V, ds, init, k, st);
    }
  }

  lemma {:induction false} WriteMarked(V: View, ds: seq<Datum>, init: nat, k: nat, st: WState)
    requires Acceptable(V, ds) && k <= |V.f| && Going(V, ds, k, st) && init + Total(V, ds) <= I16_MAX
    requires V.bitmapAt == 0 ==> !Stray(V, ds, k)
    ensures var r := WriteFrom(V, ds, init, k, st);
      if V.bitmapAt == 0 && Stray(V, ds, |V.f|) then r == Corrupt else WroteMarked(V, ds, r)
    decreases |V.f| - k
  {
    if k == |V.f| {
      FinishMarked(V, ds, init, st);
    } else {
      RunOffMonotone(V, ds, k + 1, |V.f|);
      MarkedStep(V, ds, init, k, st);
      var next := Step(V, V.f[k], ds[k], init, st);
      if next.Go? {
        WriteMarked(V, ds, init, k + 1, next.st);
      }
    }
  }

  /**
   NULLs in non-nullable variable-length fields are not rejected. If the bitmap is at the very front the writer
   leaves the payload; otherwise it writes a payload of the expected length in which all fields are stored, except that
   the top bit of the byte in front of the bitmap is set.
   */
  lemma StrayWritten(V: View, ds: seq<Datum>, init: nat)
    requires Acceptable(V, ds) && init + Total(V, ds) <= I16_MAX
    ensures var r := Write16(V, ds, init);
      if V.bitmapAt == 0 && Stray(V, ds, |V.f|) then r == Corrupt else WroteMarked(V, ds, r)
  {
    NoStrayInFront(V, ds, 0);
    RunOffMonotone(V, ds, 0, |V.f|);
    ZeroBitsHeld(V, ds);
    WriteMarked(V, ds, init, 0, WState(Zeros(V.dataAt), V.dataAt));
  }

  // ---------------------------------------------------------------- what is read back

  /** The last byte of the field is the byte in front of the bitmap, and its top bit is clear. */
  predicate Exposed(V: View, ds: seq<Datum>, k: nat)
    requires k < |V.f| == |ds|
  {
    var v := FieldBytes(V.f[k], ds[k]);
    v != [] && V.f[k].offset + |v| == V.bitmapAt && v[|v| - 1] < 128
  }

  /** The bytes of a field of which the last one is marked, if `mark`. */
  function MarkLast(v: seq<Byte>, mark: bool): (r: seq<Byte>)
    ensures |r| == |v|
  {
    if v == [] then v else v[|v| - 1 := Marked(v[|v| - 1], mark)]
  }

  /** The datum that the reader makes of the bytes of a field. */
  function Reread(f: Field, v: seq<Byte>): Datum {
    if f.byref then Ref(v) else Val(FromBytes(v))
  }

  lemma {:induction false} FromBytesInjective(b: seq<Byte>, c: seq<Byte>)
    requires |b| == |c| && FromBytes(b) == FromBytes(c)
    ensures b == c
  {
    LowBytesOfRead(b);
    LowBytesOfRead(c);
  }

  lemma BitsReadable(V: View, p: seq<Byte>)
    requires Regions(V) && BitsInside(V) && V.dataAt <= |p|
    ensures Header(V, p)
  {
    forall j | 0 <= j < |V.f|
      ensures BitReadable(V, p, j)
    {
      assert BitInside(V, j);
    }
  }

  lemma MarkedSlice(V: View, p: seq<Byte>, at: int, v: seq<Byte>, mark: bool)
    requires InRange(p, at, |v|) && at + |v| <= V.bitmapAt
    requires forall i {:trigger v[i]} :: 0 <= i < |v| ==> p[at + i] == Marked(v[i], mark && at + i == V.bitmapAt - 1)
    ensures p[at..at + |v|] == MarkLast(v, mark && at + |v| == V.bitmapAt)
  {
    var w := MarkLast(v, mark && at + |v| == V.bitmapAt);
    forall i | 0 <= i < |v|
      ensures p[at + i] == w[i]
    {
      assert v[i] == v[i];
    }
  }

  /** What a fixed field reads back as: its value, with the last byte marked if that is the one in front of the bitmap. */
  lemma FixedReads(V: View, ds: seq<Datum>, k: nat, mark: bool, p: seq<Byte>)
    requires Acceptable(V, ds) && k < V.nFixed && V.dataAt <= |p| && FrontHeld(V, ds, k, mark, p)
    ensures Readable(V, p, k)
    ensures var v := FieldBytes(V.f[k], ds[k]);
      ReadField(V, p, k) == Reread(V.f[k], MarkLast(v, mark && V.f[k].offset + |v| == V.bitmapAt))
  {
    assert Placed(V, k);
    BitsReadable(V, p);
    var v, at := FieldBytes(V.f[k], ds[k]), V.f[k].offset;
    MarkedSlice(V, p, at, v, mark);
    assert ReadRange(V, p, k) == (at, |v|);
  }

  /** That is its value as stored if and only if it is not exposed to a stray NULL. */
  lemma RereadExactly(V: View, ds: seq<Datum>, k: nat, mark: bool)
    requires Acceptable(V, ds) && k < V.nFixed
    ensures var v := FieldBytes(V.f[k], ds[k]);
      Reread(V.f[k], MarkLast(v, mark && V.f[k].offset + |v| == V.bitmapAt)) == Stored(V.f[k], ds[k]) <==>
      !(mark && Exposed(V, ds, k))
  {
    assert Placed(V, k) && TypedAt(V, ds, k);
    var v := FieldBytes(V.f[k], ds[k]);
    var w := MarkLast(v, mark && V.f[k].offset + |v| == V.bitmapAt);
    assert w == v <==> !(mark && Exposed(V, ds, k));
    if FromBytes(w) == FromBytes(v) {
      FromBytesInjective(w, v);
    }
    ValueRead(V.f[k], ds[k]);
  }

  /** The reader takes for NULL exactly the NULLs that have a null bit. */
  lemma NullsReadButStray(V: View, ds: seq<Datum>, p: seq<Byte>, k: nat)
    requires Acceptable(V, ds) && BitsDistinct(V) && k < |V.f| && RestHeld(V, ds, |V.f|, p)
    ensures BitReadable(V, p, k) && (IsNullAt(V, p, k) <==> ds[k].Null? && !StrayAt(V, ds, k))
  {
    var x := V.f[k].nullBit;
    assert BitInside(V, k) && Placed(V, k);
    if x >= 0 {
      assert BitHeld(V, ds, |V.f|, p, x);
      if NullAt(V, ds, |V.f|, x) {
        var j :| 0 <= j < |V.f| && V.f[j].nullBit == x && ds[j].Null?;
        if j != k {
          DistinctAt(V, j, k);
        }
      }
    } else if k < V.nFixed {
      assert !ds[k].Null?;
    }
  }

  lemma TailHeader(V: View, ds: seq<Datum>, p: seq<Byte>)
    requires Acceptable(V, ds) && BitsDistinct(V) && RestHeld(V, ds, |V.f|, p)
    ensures Header(V, p) && NullsReadFrom(V, ds, p, V.nFixed + V.nVar)
  {
    BitsReadable(V, p);
    forall k | V.nFixed + V.nVar <= k < |V.f|
      ensures NullReads(V, ds, p, k)
    {
      NullsReadButStray(V, ds, p, k);
      assert Placed(V, k);
    }
  }

  /** A stray NULL reads as the empty string: its entry is the running offset, which no value has moved. */
  lemma StrayReads(V: View, ds: seq<Datum>, k: nat, p: seq<Byte>)
    requires Acceptable(V, ds) && BitsDistinct(V) && RestHeld(V, ds, |V.f|, p) && V.nFixed <= k && StrayAt(V, ds, k)
    requires |p| == Total(V, ds) <= I16_MAX
    ensures Readable(V, p, k) && ReadField(V, p, k) == Ref([])
  {
    TailHeader(V, ds, p);
    NullsReadButStray(V, ds, p, k);
    assert Placed(V, k);
    EndRead(V, ds, p, k);
    PreviousEnd(V, ds, p, k);
    RunOffMonotone(V, ds, 0, k);
    RunOffMonotone(V, ds, k, |V.f|);
    AlignUpMonotone(V.f[k].align, RunOff(V, ds, k), Total(V, ds));
    AlignedEight(V.f[k].align, Total(V, ds));
    assert VarRange(V, p, V.f[k]) == (Begin(V, ds, k), 0);
  }

  /** Every other field behind the end array reads back as stored. */
  lemma TailReads(V: View, ds: seq<Datum>, k: nat, p: seq<Byte>)
    requires Acceptable(V, ds) && BitsDistinct(V) && RestHeld(V, ds, |V.f|, p) && V.nFixed <= k < |V.f| && !StrayAt(V, ds, k)
    requires RunOff(V, ds, |V.f|) <= I16_MAX
    ensures Readable(V, p, k) && ReadField(V, p, k) == Stored(V.f[k], ds[k])
  {
    TailHeader(V, ds, p);
    NullsReadButStray(V, ds, p, k);
    if !ds[k].Null? {
      assert FieldHeld(V, ds, k, p) && TypedAt(V, ds, k);
      ReadRangeRefines(V, ds, p, k);
      TailFacts(V, ds, k);
      ReadHeld(V, p, k, Begin(V, ds, k), ds[k]);
    }
  }

  // ---------------------------------------------------------------- rows in field order

  /** Values of the right types, with NULLs anywhere. */
  ghost predicate RowTypes(cols: seq<Col>, row: seq<Datum>) {
    |row| == |cols| && forall i {:trigger Typed(FieldOf(cols, i), row[i])} :: 0 <= i < |cols| ==> Typed(FieldOf(cols, i), row[i])
  }

  /** A NULL in a non-nullable field that is of variable length, or that is not. */
  ghost predicate NullIn(cols: seq<Col>, row: seq<Datum>, varlen: bool) {
    exists i {:trigger row[i]} :: 0 <= i < |cols| && i < |row| && row[i].Null? && !cols[i].nullable && (cols[i].len == -1 <==> varlen)
  }

  /** The last byte of the field is the last one in front of the bitmap, and its top bit is clear. */
  predicate ExposedIn(cols: seq<Col>, row: seq<Datum>, i: nat)
    requires i < |cols| == |row|
  {
    var v := FieldBytes(FieldOf(cols, i), row[i]);
    v != [] && FieldOf(cols, i).offset + |v| == FixedEnd(cols, |cols|) && v[|v| - 1] < 128
  }

  lemma PlacedTypes(cols: seq<Col>, row: seq<Datum>)
    requires LayoutOf(cols).Some? && RowTypes(cols, row)
    ensures RowTyped(ViewOf(cols), RowPlaced(cols, row))
  {
    forall k | 0 <= k < |cols|
      ensures TypedAt(ViewOf(cols), RowPlaced(cols, row), k)
    {
      OrderAt(cols, k);
      var i := OrderOf(cols)[k];
      assert ViewOf(cols).f[k] == FieldOf(cols, i) && RowPlaced(cols, row)[k] == row[i];
    }
  }

  lemma FixedNullPlaced(cols: seq<Col>, row: seq<Datum>)
    requires LayoutOf(cols).Some? && |row| == |cols|
    ensures FixedNull(ViewOf(cols), RowPlaced(cols, row), 0) <==> NullIn(cols, row, false)
  {
    var V, ds := ViewOf(cols), RowPlaced(cols, row);
    if NullIn(cols, row, false) {
      var i :| 0 <= i < |cols| && row[i].Null? && !cols[i].nullable && cols[i].len != -1;
      PickFinds(cols, Fixed, |cols|, i);
      assert ds[PositionOf(cols, i)].Null?;
    }
    if FixedNull(V, ds, 0) {
      var k :| 0 <= k < V.nFixed && k < |ds| && ds[k].Null?;
      OrderAt(cols, k);
      assert row[OrderOf(cols)[k]].Null?;
    }
  }

  lemma StrayPlaced(cols: seq<Col>, row: seq<Datum>)
    requires LayoutOf(cols).Some? && |row| == |cols| && !NullIn(cols, row, false)
    ensures Stray(ViewOf(cols), RowPlaced(cols, row), |cols|) <==> NullIn(cols, row, true)
  {
    var V, ds := ViewOf(cols), RowPlaced(cols, row);
    if NullIn(cols, row, true) {
      var i :| 0 <= i < |cols| && row[i].Null? && !cols[i].nullable && cols[i].len == -1;
      assert StrayAt(V, ds, PositionOf(cols, i));
    }
    if Stray(V, ds, |cols|) {
      var k :| 0 <= k < |cols| && StrayAt(V, ds, k);
      OrderAt(cols, k);
      var i := OrderOf(cols)[k];
      assert V.f[k] == FieldOf(cols, i) && ds[k] == row[i];
    }
  }

  /** A row is rejected for its NULLs if and only if one of them is in a non-nullable fixed-length field. */
  lemma RowRejectedExactly(cols: seq<Col>, row: seq<Datum>)
    requires ColsOk(cols) && LayoutOf(cols).Some? && Count(cols, Var) < 16384 && RowTypes(cols, row)
    ensures WriteRow(cols, row) == NullRejected <==> NullIn(cols, row, false)
  {
    ShapeOfLayout(cols);
    PlacedTypes(cols, row);
    FixedNullPlaced(cols, row);
    RejectedExactly(ViewOf(cols), RowPlaced(cols, row), 0);
  }

  /** The bitmap follows the fixed fields, unless there are no other fields. */
  lemma BitmapBehindFixed(cols: seq<Col>, row: seq<Datum>)
    requires LayoutOf(cols).Some? && |row| == |cols| && NullIn(cols, row, true)
    ensures ViewOf(cols).bitmapAt == FixedEnd(cols, |cols|)
  {
    if Count(cols, Fixed) == |cols| {
      AllFixed(cols);
    }
  }

  /** The field is NULL although it is of variable length and not nullable. */
  predicate StrayIn(cols: seq<Col>, row: seq<Datum>, i: nat)
    requires i < |cols| == |row|
  {
    row[i].Null? && Is(cols[i], Var) && !cols[i].nullable
  }

  /**
   What field `i` reads back as: a stray NULL as the empty string, a fixed field with its last byte changed if that is the
   last one in front of the bitmap and a NULL is stray, and any other field as stored.
   */
  ghost function ReadBack(cols: seq<Col>, row: seq<Datum>, i: nat): Datum
    requires i < |cols| == |row|
  {
    var f := FieldOf(cols, i);
    if Is(cols[i], Fixed) then
      var v := FieldBytes(f, row[i]);
      Reread(f, MarkLast(v, NullIn(cols, row, true) && f.offset + |v| == FixedEnd(cols, |cols|)))
    else if StrayIn(cols, row, i) then Ref([])
    else Stored(f, row[i])
  }

  /** The field is unharmed: it is no stray NULL, and no fixed field that one has changed. */
  ghost predicate Unharmed(cols: seq<Col>, row: seq<Datum>, i: nat)
    requires i < |cols| == |row|
  {
    !StrayIn(cols, row, i) && !(Is(cols[i], Fixed) && NullIn(cols, row, true) && ExposedIn(cols, row, i))
  }

  ghost predicate FieldReads(cols: seq<Col>, row: seq<Datum>, p: seq<Byte>, i: nat)
    requires LayoutOf(cols).Some? && i < |cols| == |row|
  {
    && FieldReadable(cols, p, i) && FieldIn(cols, p, i) == ReadBack(cols, row, i)
    && (FieldIn(cols, p, i) == Stored(FieldOf(cols, i), row[i]) <==> Unharmed(cols, row, i))
  }

  lemma FixedFieldReads(cols: seq<Col>, row: seq<Datum>, i: nat, p: seq<Byte>)
    requires Usable(cols) && RowTypes(cols, row) && !NullIn(cols, row, false) && i < |cols| && Is(cols[i], Fixed)
    requires ViewOf(cols).dataAt <= |p|
    requires FrontsHeld(ViewOf(cols), RowPlaced(cols, row), ViewOf(cols).nFixed, NullIn(cols, row, true), p)
    ensures FieldReads(cols, row, p, i)
  {
    var V, ds, k := ViewOf(cols), RowPlaced(cols, row), PositionOf(cols, i);
    AcceptableRow(cols, row);
    PickFinds(cols, Fixed, |cols|, i);
    assert FrontHeld(V, ds, k, NullIn(cols, row, true), p);
    FixedReads(V, ds, k, NullIn(cols, row, true), p);
    RereadExactly(V, ds, k, NullIn(cols, row, true));
    if NullIn(cols, row, true) {
      BitmapBehindFixed(cols, row);
    }
  }

  lemma TailFieldReads(cols: seq<Col>, row: seq<Datum>, i: nat, p: seq<Byte>)
    requires Usable(cols) && RowTypes(cols, row) && !NullIn(cols, row, false) && i < |cols| && !Is(cols[i], Fixed)
    requires RestHeld(ViewOf(cols), RowPlaced(cols, row), |cols|, p) && |p| == LengthOf(cols, row) <= I16_MAX
    ensures FieldReads(cols, row, p, i)
  {
    var V, ds, k := ViewOf(cols), RowPlaced(cols, row), PositionOf(cols, i);
    AcceptableRow(cols, row);
    NullBitsSound(cols);
    if Is(cols[i], Var) {
      PickFinds(cols, Var, |cols|, i);
    } else {
      PickFinds(cols, NullFixed, |cols|, i);
    }
    assert V.f[k] == FieldOf(cols, i) && ds[k] == row[i];
    if StrayIn(cols, row, i) {
      StrayReads(V, ds, k, p);
    } else {
      TailReads(V, ds, k, p);
    }
  }

  lemma AcceptableRow(cols: seq<Col>, row: seq<Datum>)
    requires Usable(cols) && RowTypes(cols, row) && !NullIn(cols, row, false)
    ensures Acceptable(ViewOf(cols), RowPlaced(cols, row))
  {
    ShapeOfLayout(cols);
    NullBitsSound(cols);
    PlacedTypes(cols, row);
    FixedNullPlaced(cols, row);
  }

  /**
   A row with a NULL in a non-nullable variable-length field is written like any other. If no fixed field takes any
   room, the writer leaves the payload. Otherwise the NULL reads back as the empty string, a fixed field that ends at the
   bitmap with its top bit clear reads back changed, and all other fields read back as stored.
   */
  lemma StrayNullDamages(cols: seq<Col>, row: seq<Datum>)
    requires Usable(cols) && RowTypes(cols, row) && !NullIn(cols, row, false) && LengthOf(cols, row) <= I16_MAX
    ensures NullIn(cols, row, true) && FixedEnd(cols, |cols|) == 0 <==> WriteRow(cols, row) == Corrupt
    ensures WriteRow(cols, row) != Corrupt ==>
              && WriteRow(cols, row).Wrote? && WriteRow(cols, row).len == LengthOf(cols, row)
              && forall i {:trigger cols[i]} :: 0 <= i < |cols| ==> FieldReads(cols, row, WriteRow(cols, row).payload, i)
  {
    var V, ds, r := ViewOf(cols), RowPlaced(cols, row), WriteRow(cols, row);
    AcceptableRow(cols, row);
    StrayPlaced(cols, row);
    StrayWritten(V, ds, 0);
    if NullIn(cols, row, true) {
      BitmapBehindFixed(cols, row);
    }
    if r != Corrupt {
      RunOffMonotone(V, ds, 0, |V.f|);
      forall i | 0 <= i < |cols|
        ensures FieldReads(cols, row, r.payload, i)
      {
        if Is(cols[i], Fixed) {
          FixedFieldReads(cols, row, i, r.payload);
        } else {
          TailFieldReads(cols, row, i, r.payload);
        }
      }
    }
  }

  /** One byte, then a string, neither nullable. */
  function ByteAndString(): seq<Col> {
    [Col(1, 1, false, false), Col(-1, 1, true, false)]
  }

  lemma ByteAndStringPicks(n: nat)
    requires n <= 2
    ensures |ByteAndString()| == 2
    ensures Pick(ByteAndString(), Fixed, n) == if n == 0 then [] else [0]
    ensures Pick(ByteAndString(), Var, n) == if n < 2 then [] else [1]
    ensures Pick(ByteAndString(), NullFixed, n) == [] && Pick(ByteAndString(), NullVar, n) == []
    ensures FixedEnd(ByteAndString(), n) == if n == 0 then 0 else 1
  {
    if n > 0 {
      ByteAndStringPicks(n - 1);
    }
  }

  lemma ByteAndStringUsable()
    ensures Usable(ByteAndString()) && FixedEnd(ByteAndString(), 2) == 1
    ensures ViewOf(ByteAndString()) == View([Field(1, 1, false, -1, 0), Field(-1, 1, true, -1, -1)], 1, 1, 1, 2, 4)
    ensures PositionOf(ByteAndString(), 0) == 0
  {
    var cols := ByteAndString();
    ByteAndStringPicks(0);
    ByteAndStringPicks(1);
    ByteAndStringPicks(2);
    assert OrderOf(cols) == [0, 1];
    assert EndsAt(cols) == 2;
    assert StoredView(LayoutOf(cols).value).f == [FieldOf(cols, 0), FieldOf(cols, 1)];
  }

  lemma ByteAndNullEnds(V: View, ds: seq<Datum>)
    requires |V.f| == |ds| == 2 && V.f[0].offset >= 0 && ds[1].Null? && V.dataAt == 4
    ensures Total(V, ds) == 8
  {
    assert RunOff(V, ds, 0) == 4;
    assert RunOff(V, ds, 1) == 4;
    assert RunOff(V, ds, 2) == 4;
  }

  lemma ByteAndNull(cols: seq<Col>, row: seq<Datum>)
    requires cols == ByteAndString() && row == [Val(0), Null]
    ensures Usable(cols) && RowTypes(cols, row) && NullIn(cols, row, true) && !NullIn(cols, row, false)
    ensures FixedEnd(cols, 2) == 1 && LengthOf(cols, row) == 8
    ensures FieldOf(cols, 0) == Field(1, 1, false, -1, 0) && FieldBytes(FieldOf(cols, 0), row[0]) == [0]
  {
    ByteAndStringUsable();
    assert row[1].Null?;
    var V, ds := ViewOf(cols), RowPlaced(cols, row);
    PositionFinds(cols, 1);
    assert ds[0] == row[0] && ds[1] == row[1];
    ByteAndNullEnds(V, ds);
  }

  lemma MarkedZero()
    ensures Reread(Field(1, 1, false, -1, 0), MarkLast([0], true)) == Val(128)
  {
    assert FromBytes([128][1..]) == 0;
    assert MarkLast([0], true) == [128];
  }

  lemma {:induction false} ReadsMarked(cols: seq<Col>, row: seq<Datum>, p: seq<Byte>)
    requires LayoutOf(cols).Some? && 0 < |cols| == |row| && Is(cols[0], Fixed) && NullIn(cols, row, true)
    requires FieldReads(cols, row, p, 0) && FieldOf(cols, 0) == Field(1, 1, false, -1, 0) && FieldBytes(FieldOf(cols, 0), row[0]) == [0]
    requires FixedEnd(cols, |cols|) == 1
    ensures FieldIn(cols, p, 0) == Val(128)
  {
    MarkedZero();
  }

  /** The byte 0 is written next to a NULL string, and reads back as 128. */
  lemma DamagedRow(cols: seq<Col>, row: seq<Datum>)
    requires cols == ByteAndString() && row == [Val(0), Null]
    ensures Usable(cols) && WriteRow(cols, row).Wrote? && FieldReadable(cols, WriteRow(cols, row).payload, 0)
    ensures FieldIn(cols, WriteRow(cols, row).payload, 0) == Val(128)
  {
    ByteAndNull(cols, row);
    StrayNullDamages(cols, row);
    ReadsMarked(cols, row, WriteRow(cols, row).payload);
  }
}
