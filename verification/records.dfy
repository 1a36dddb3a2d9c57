/**
 Laws of the record encoding. For rows in storage order: the payload of a row is unique, re-encoding a decoded
 payload gives the same bytes, replacing a fixed field is local, regions do not interfere, and where the promises
 of the writer end. Then the same for rows in field order and for slots whose tail may hold stale bytes.
 */
module Records {
  import opened Base
  import opened Digits
  import opened Codec
  import opened CodecWrite
  import opened CodecRead
  import opened Layout

  // ---------------------------------------------------------------- by-value data

  lemma StoredBytes(f: Field, d: Datum)
    ensures FieldBytes(f, Stored(f, d)) == FieldBytes(f, d) && (Stored(f, d).Null? <==> d.Null?)
    ensures DataLen(f, Stored(f, d)) == DataLen(f, d)
  {
    if d.Val? {
      LowBytesOfRead(FieldBytes(f, d));
    }
  }

  // ---------------------------------------------------------------- uniqueness

  /** The two rows store the same at position `k`. */
  predicate SameStored(V: View, ds: seq<Datum>, es: seq<Datum>, k: nat)
    requires |ds| == |es| == |V.f| && k < |V.f|
  {
    && (ds[k].Null? <==> es[k].Null?)
    && FieldBytes(V.f[k], ds[k]) == FieldBytes(V.f[k], es[k]) && DataLen(V.f[k], ds[k]) == DataLen(V.f[k], es[k])
  }

  ghost predicate SameTail(V: View, ds: seq<Datum>, es: seq<Datum>)
    requires |ds| == |es| == |V.f|
  {
    forall k :: V.nFixed <= k < |V.f| ==> SameStored(V, ds, es, k)
  }

  lemma {:induction false} RunOffSame(V: View, ds: seq<Datum>, es: seq<Datum>, k: nat)
    requires Shape(V) && |ds| == |es| == |V.f| && SameTail(V, ds, es) && k <= |V.f|
    ensures RunOff(V, ds, k) == RunOff(V, es, k)
  {
    if k > 0 {
      RunOffSame(V, ds, es, k - 1);
      if k - 1 < V.nFixed {
        assert Placed(V, k - 1);
      } else {
        assert SameStored(V, ds, es, k - 1);
      }
    }
  }

  /** The field behind the end array in whose stretch a byte lies. */
  lemma {:induction false} TailPosition(V: View, ds: seq<Datum>, i: int, n: nat) returns (k: nat)
    requires Shape(V) && RowTyped(V, ds) && V.nFixed <= n <= |V.f| && V.dataAt <= i < RunOff(V, ds, n)
    ensures V.nFixed <= k < n && !ds[k].Null? && RunOff(V, ds, k) <= i < RunOff(V, ds, k + 1)
    decreases n
  {
    if n == V.nFixed {
      RunOffFixed(V, ds, n);
      assert false;
    } else if i < RunOff(V, ds, n - 1) {
      k := TailPosition(V, ds, i, n - 1);
    } else {
      KindFacts(V, n - 1);
      k := n - 1;
    }
  }

  lemma HeldByte(b: seq<Byte>, at: int, v: seq<Byte>, i: int)
    requires HoldsAt(b, at, v) && at <= i < at + |v|
    ensures b[i] == v[i - at]
  {
    assert b[at + (i - at)] == v[i - at];
  }

  lemma AgreeFixed(V: View, ds: seq<Datum>, es: seq<Datum>, p: seq<Byte>, q: seq<Byte>, i: int)
    requires RowOk(V, ds) && RowOk(V, es) && 0 <= i < V.bitmapAt && i < |p| && i < |q|
    requires FieldsHeld(V, ds, |V.f|, p) && GapsZero(V, |V.f|, p)
    requires FieldsHeld(V, es, |V.f|, q) && GapsZero(V, |V.f|, q)
    requires forall k :: 0 <= k < V.nFixed && V.f[k].offset <= i < V.f[k].offset + V.f[k].len ==> SameStored(V, ds, es, k)
    ensures p[i] == q[i]
  {
    if InFixed(V, |V.f|, i) {
      var j :| 0 <= j < |V.f| && j < V.nFixed && V.f[j].offset <= i < V.f[j].offset + V.f[j].len;
      assert SameStored(V, ds, es, j) && FieldHeld(V, ds, j, p) && FieldHeld(V, es, j, q);
      FixedFacts(V, ds, j);
      HeldByte(p, V.f[j].offset, FieldBytes(V.f[j], ds[j]), i);
      HeldByte(q, V.f[j].offset, FieldBytes(V.f[j], ds[j]), i);
    }
  }

  lemma AgreeBits(V: View, ds: seq<Datum>, es: seq<Datum>, p: seq<Byte>, q: seq<Byte>, i: int)
    requires |ds| == |es| == |V.f| && Regions(V) && V.bitmapAt <= i < V.endsAt && V.dataAt <= |p| && V.dataAt <= |q|
    requires BitsHeld(V, ds, |V.f|, p) && BitsHeld(V, es, |V.f|, q)
    requires forall k :: 0 <= k < |V.f| ==> (ds[k].Null? <==> es[k].Null?)
    ensures p[i] == q[i]
  {
    forall b | 0 <= b < 8
      ensures BitOf(p[i], b) == BitOf(q[i], b)
    {
      var x := 8 * (i - V.bitmapAt) + b;
      assert x / 8 == i - V.bitmapAt && x % 8 == b;
      assert BitHeld(V, ds, |V.f|, p, x) && BitHeld(V, es, |V.f|, q, x);
    }
    ByteIsEightBits();
    BitsDetermine(p[i], q[i], 8);
  }

  lemma AgreeEnds(V: View, ds: seq<Datum>, es: seq<Datum>, p: seq<Byte>, q: seq<Byte>, i: int)
    requires RowOk(V, ds) && RowOk(V, es) && SameTail(V, ds, es) && V.endsAt <= i < V.dataAt
    requires Holds(V, ds, |V.f|, p) && Holds(V, es, |V.f|, q)
    ensures p[i] == q[i]
  {
    var idx := (i - V.endsAt) / 2;
    EndRead(V, ds, p, V.nFixed + idx);
    EndRead(V, es, q, V.nFixed + idx);
    RunOffSame(V, ds, es, V.nFixed + idx + 1);
    Get16Injective(p, q, V.endsAt + 2 * idx);
  }

  lemma AgreeTail(V: View, ds: seq<Datum>, es: seq<Datum>, p: seq<Byte>, q: seq<Byte>, i: int)
    requires Shape(V) && RowTyped(V, ds) && RowTyped(V, es) && SameTail(V, ds, es)
    requires V.dataAt <= i < |p| && i < |q| && i < RunOff(V, ds, |V.f|)
    requires FieldsHeld(V, ds, |V.f|, p) && FieldsHeld(V, es, |V.f|, q)
    ensures p[i] == q[i]
  {
    var k := TailPosition(V, ds, i, |V.f|);
    assert SameStored(V, ds, es, k) && FieldHeld(V, ds, k, p) && FieldHeld(V, es, k, q);
    RunOffSame(V, ds, es, k);
    TailFacts(V, ds, k);
    if Begin(V, ds, k) <= i {
      HeldByte(p, Begin(V, ds, k), FieldBytes(V.f[k], ds[k]), i);
      HeldByte(q, Begin(V, ds, k), FieldBytes(V.f[k], ds[k]), i);
    }
  }

  /** Payloads of rows that differ at most in fixed fields agree outside the fields that differ. */
  lemma PayloadsAgree(V: View, ds: seq<Datum>, es: seq<Datum>, p: seq<Byte>, q: seq<Byte>, i: int)
    requires RowOk(V, ds) && RowOk(V, es) && Encodes(V, ds, p) && Encodes(V, es, q)
    requires SameTail(V, ds, es) && 0 <= i < |p|
    requires forall k :: 0 <= k < V.nFixed && V.f[k].offset <= i < V.f[k].offset + V.f[k].len ==>
               SameStored(V, ds, es, k)
    ensures |p| == |q| && p[i] == q[i]
  {
    RunOffSame(V, ds, es, |V.f|);
    if i < V.bitmapAt {
      AgreeFixed(V, ds, es, p, q, i);
    } else if i < V.endsAt {
      NullsAgree(V, ds, es);
      AgreeBits(V, ds, es, p, q, i);
    } else if i < V.dataAt {
      AgreeEnds(V, ds, es, p, q, i);
    } else if i < RunOff(V, ds, |V.f|) {
      AgreeTail(V, ds, es, p, q, i);
    }
  }

  lemma NullsAgree(V: View, ds: seq<Datum>, es: seq<Datum>)
    requires RowOk(V, ds) && RowOk(V, es) && SameTail(V, ds, es)
    ensures forall k :: 0 <= k < |V.f| ==> (ds[k].Null? <==> es[k].Null?)
  {
    forall k | 0 <= k < |V.f|
      ensures ds[k].Null? <==> es[k].Null?
    {
      if k < V.nFixed {
        FixedFacts(V, ds, k);
        FixedFacts(V, es, k);
      } else {
        assert SameStored(V, ds, es, k);
      }
    }
  }

  /** A row has only one payload; rows that store the same have the same payload. */
  lemma PayloadUnique(V: View, ds: seq<Datum>, es: seq<Datum>, p: seq<Byte>, q: seq<Byte>)
    requires RowOk(V, ds) && RowOk(V, es) && Encodes(V, ds, p) && Encodes(V, es, q)
    requires forall k :: 0 <= k < |V.f| ==> SameStored(V, ds, es, k)
    ensures p == q
  {
    RunOffSame(V, ds, es, |V.f|);
    forall i | 0 <= i < |p|
      ensures p[i] == q[i]
    {
      PayloadsAgree(V, ds, es, p, q, i);
    }
  }

  lemma StoredRowOk(V: View, ds: seq<Datum>)
    requires RowOk(V, ds)
    ensures RowOk(V, StoredRow(V, ds))
    ensures forall k :: 0 <= k < |V.f| ==> SameStored(V, ds, StoredRow(V, ds), k)
    ensures Total(V, StoredRow(V, ds)) == Total(V, ds)
  {
    forall k | 0 <= k < |V.f|
      ensures SameStored(V, ds, StoredRow(V, ds), k)
      ensures TypedAt(V, StoredRow(V, ds), k) && NullAllowed(V, StoredRow(V, ds), k)
    {
      StoredBytes(V.f[k], ds[k]);
      assert TypedAt(V, ds, k) && NullAllowed(V, ds, k);
    }
    RunOffSame(V, ds, StoredRow(V, ds), |V.f|);
  }

  /**
   Canonical encoding: decode a payload (whatever follows it in its buffer) and write the row again; the
   writer produces the same payload, byte for byte.
   */
  lemma ReencodeExact(V: View, ds: seq<Datum>, p: seq<Byte>, stale: seq<Byte>)
    requires Sound(V, ds) && Encodes(V, ds, p) && Total(V, ds) <= I16_MAX
    ensures forall k :: 0 <= k < |V.f| ==> Readable(V, p + stale, k)
    ensures var row := seq(|V.f|, k requires 0 <= k < |V.f| && Readable(V, p + stale, k) => ReadField(V, p + stale, k));
      Write16(V, row, 0) == Wrote(|p|, p)
  {
    RoundTrip(V, ds, p, stale);
    var row := seq(|V.f|, k requires 0 <= k < |V.f| && Readable(V, p + stale, k) => ReadField(V, p + stale, k));
    assert row == StoredRow(V, ds);
    StoredRowOk(V, ds);
    WriteFits(V, row, 0);
    var q :| Write16(V, row, 0) == Wrote(Total(V, row), q) && Encodes(V, row, q);
    PayloadUnique(V, ds, row, p, q);
  }

  /**
   Replacing the value of one non-nullable fixed field keeps the payload length and changes only the bytes of
   that field.
   */
  lemma FixedReplacementLocal(V: View, ds: seq<Datum>, k: nat, d: Datum, p: seq<Byte>)
    requires RowOk(V, ds) && Encodes(V, ds, p) && Total(V, ds) <= I16_MAX
    requires k < V.nFixed && Typed(V.f[k], d) && !d.Null?
    ensures WrotePayload(V, ds[k := d], Write16(V, ds[k := d], 0)) && Write16(V, ds[k := d], 0).len == |p|
    ensures var q := Write16(V, ds[k := d], 0).payload;
      Encodes(V, ds[k := d], q) && |q| == |p| &&
      forall i :: 0 <= i < |p| && !(V.f[k].offset <= i < V.f[k].offset + V.f[k].len) ==> q[i] == p[i]
  {
    var es := ds[k := d];
    forall j | 0 <= j < |V.f|
      ensures TypedAt(V, es, j) && NullAllowed(V, es, j)
    {
      assert TypedAt(V, ds, j) && NullAllowed(V, ds, j);
    }
    RunOffSame(V, ds, es, |V.f|);
    WriteFits(V, es, 0);
    var q :| Write16(V, es, 0) == Wrote(Total(V, es), q) && Encodes(V, es, q);
    forall i | 0 <= i < |p| && !(V.f[k].offset <= i < V.f[k].offset + V.f[k].len)
      ensures q[i] == p[i]
    {
      PayloadsAgree(V, ds, es, p, q, i);
    }
  }

  // ---------------------------------------------------------------- regions

  /** Two non-null fields occupy disjoint ranges, in storage order. */
  lemma RegionsDisjoint(V: View, ds: seq<Datum>, j: nat, k: nat)
    requires RowOk(V, ds) && j < k < |V.f| && !ds[j].Null? && !ds[k].Null?
    ensures PlaceOf(V, ds, j) + DataLen(V.f[j], ds[j]) <= PlaceOf(V, ds, k)
  {
    if k < V.nFixed {
      FixedFacts(V, ds, j);
      assert Apart(V, j, k);
      FixedFacts(V, ds, k);
    } else {
      TailFacts(V, ds, k);
      if j < V.nFixed {
        FixedFacts(V, ds, j);
      } else {
        TailFacts(V, ds, j);
        RunOffMonotone(V, ds, j + 1, k);
      }
    }
  }

  /**
   Non-interference: each non-null field lies inside the payload, clear of the bitmap and the end array, and
   starts at a multiple of its alignment.
   */
  lemma RegionPlaced(V: View, ds: seq<Datum>, k: nat)
    requires RowOk(V, ds) && k < |V.f| && !ds[k].Null?
    ensures 0 <= PlaceOf(V, ds, k) && PlaceOf(V, ds, k) + DataLen(V.f[k], ds[k]) <= Total(V, ds)
    ensures PlaceOf(V, ds, k) + DataLen(V.f[k], ds[k]) <= V.bitmapAt || V.dataAt <= PlaceOf(V, ds, k)
    ensures Aligned(V.f[k].align, PlaceOf(V, ds, k))
  {
    if k < V.nFixed {
      FixedFacts(V, ds, k);
      RunOffMonotone(V, ds, 0, |V.f|);
    } else {
      TailFacts(V, ds, k);
      RunOffMonotone(V, ds, k + 1, |V.f|);
    }
  }

  // ---------------------------------------------------------------- where the promises end

  /**
   Shared null bits lose data: if a NULL field shares its bit with a non-null one, the reader reports the
   non-null field as NULL.
   */
  lemma SharedBitLosesField(V: View, ds: seq<Datum>, p: seq<Byte>, j: nat, k: nat)
    requires RowOk(V, ds) && Encodes(V, ds, p) && j < |V.f| && k < |V.f|
    requires V.f[j].nullBit == V.f[k].nullBit && ds[j].Null? && !ds[k].Null?
    ensures BitReadable(V, p, k) && IsNullAt(V, p, k)
  {
    var x := V.f[j].nullBit;
    assert NullAllowed(V, ds, j);
    assert BitHeld(V, ds, |V.f|, p, x);
  }

  /** One non-nullable by-value byte, then two non-nullable variable-length fields of alignment 1. */
  function ByteAndTwoStrings(): View {
    View([Field(1, 1, false, -1, 0), Field(-1, 1, true, -1, -1), Field(-1, 1, true, -1, -2)], 1, 2, 1, 2, 6)
  }

  lemma ByteAndTwoStringsOk(ds: seq<Datum>)
    requires |ds| == 3 && ds[0].Val? && ds[1].Ref? && ds[2].Ref?
    ensures RowOk(ByteAndTwoStrings(), ds)
    ensures Total(ByteAndTwoStrings(), ds) == AlignUp(8, 6 + |ds[1].bytes| + |ds[2].bytes|)
  {
    var V := ByteAndTwoStrings();
    assert Placed(V, 0) && Placed(V, 1) && Placed(V, 2);
    assert RunOff(V, ds, 1) == 6;
    assert RunOff(V, ds, 2) == 6 + |ds[1].bytes|;
  }

  /** One step over a variable-length field of alignment 1, when the sum may leave the 16-bit range. */
  lemma StringStep(V: View, f: Field, d: Datum, init: nat, st: WState) returns (r: WState)
    requires f.len == -1 && f.align == 1 && f.offset < 0 && d.Ref? && |d.bytes| <= I16_MAX
    requires 0 <= st.off <= I16_MAX && InRange(st.buf, EndOf(V.endsAt, f), 2)
    ensures Step(V, f, d, init, st) == Go(r) && r.off == I16(st.off + |d.bytes|) && |r.buf| == st.off + |d.bytes|
  {
    assert TypeAlign(1, st.off) == st.off;
    assert I16(DataLen(f, d)) == |d.bytes|;
    r := Step(V, f, d, init, st).st;
  }

  /** The bound of 32761 bytes is sharp: with one byte more the writer can return 0 for a long row. */
  lemma OverflowMissed(V: View, ds: seq<Datum>)
    requires V == ByteAndTwoStrings() && |ds| == 3 && ds[0] == Val(0) && ds[1].Ref? && ds[2].Ref?
    requires |ds[1].bytes| == 32761 && |ds[2].bytes| == 32762
    ensures RowOk(V, ds) && SizesUpTo(V, ds, 32762) && Total(V, ds) > I16_MAX
    ensures Write16(V, ds, 0) == Wrote(0, [])
  {
    ByteAndTwoStringsOk(ds);
    EverythingDropped(V, ds);
    TwoStringsSizes(V, ds, 32762);
  }

  lemma TwoStringsSizes(V: View, ds: seq<Datum>, bound: nat)
    requires V == ByteAndTwoStrings() && |ds| == 3 && ds[1].Ref? && ds[2].Ref?
    requires |ds[1].bytes| <= bound && |ds[2].bytes| <= bound
    ensures SizesUpTo(V, ds, bound)
  {
  }

  lemma EverythingDropped(V: View, ds: seq<Datum>)
    requires V == ByteAndTwoStrings() && |ds| == 3 && ds[0] == Val(0) && ds[1].Ref? && ds[2].Ref?
    requires |ds[1].bytes| == 32761 && |ds[2].bytes| == 32762
    ensures Write16(V, ds, 0) == Wrote(0, [])
  {
    var s3 := TwoStringsWritten(V, ds, 0);
    FinishDropsAll(s3);
  }

  lemma ByteStep(V: View, init: nat, st: WState) returns (r: WState)
    requires |st.buf| > 0
    ensures Step(V, Field(1, 1, false, -1, 0), Val(0), init, st) == Go(r)
    ensures r.off == st.off && |r.buf| == |st.buf|
  {
    assert |FieldBytes(Field(1, 1, false, -1, 0), Val(0))| == 1;
    r := WState(Put(st.buf, 0, FieldBytes(Field(1, 1, false, -1, 0), Val(0))), st.off);
  }

  lemma ThreeSteps(V: View, ds: seq<Datum>, init: nat, s0: WState, s1: WState, s2: WState, s3: WState)
    requires |V.f| == |ds| == 3
    requires Step(V, V.f[0], ds[0], init, s0) == Go(s1)
    requires Step(V, V.f[1], ds[1], init, s1) == Go(s2)
    requires Step(V, V.f[2], ds[2], init, s2) == Go(s3)
    ensures WriteFrom(V, ds, init, 0, s0) == Finish(init, s3)
  {
    assert WriteFrom(V, ds, init, 3, s3) == Finish(init, s3);
    assert WriteFrom(V, ds, init, 2, s2) == Finish(init, s3);
    assert WriteFrom(V, ds, init, 1, s1) == Finish(init, s3);
  }

  /** The steps of the writer on a byte and two strings. */
  lemma TwoStringsWritten(V: View, ds: seq<Datum>, init: nat) returns (r: WState)
    requires V == ByteAndTwoStrings() && |ds| == 3 && ds[0] == Val(0) && ds[1].Ref? && ds[2].Ref?
    requires 6 + |ds[1].bytes| <= I16_MAX && |ds[2].bytes| <= I16_MAX
    ensures Write16(V, ds, init) == Finish(init, r)
    ensures r.off == I16(6 + |ds[1].bytes| + |ds[2].bytes|) && |r.buf| == 6 + |ds[1].bytes| + |ds[2].bytes|
  {
    var s0 := WState(Zeros(6), 6);
    var s1 := ByteStep(V, init, s0);
    var s2 := StringStep(V, V.f[1], ds[1], init, s1);
    r := StringStep(V, V.f[2], ds[2], init, s2);
    ThreeSteps(V, ds, init, s0, s1, s2, r);
  }

  lemma FinishDropsAll(st: WState)
    requires st.off == I16(65529) && |st.buf| == 65529
    ensures Finish(0, st) == Wrote(0, [])
  {
    assert st.off == -7;
    assert I16(65529) == -7;
  }

  /** Whether overflow is detected exactly for all rows whose values behind the end array are this short. */
  ghost predicate DetectsOverflow(bound: int) {
    forall V: View, ds: seq<Datum> :: RowOk(V, ds) && SizesUpTo(V, ds, bound) ==>
      (Write16(V, ds, 0) == TooLong <==> Total(V, ds) > I16_MAX)
  }

  /** The writer detects overflow exactly for all rows up to a value size if and only if the size is at most 32761. */
  lemma DetectsOverflowUpTo(bound: int)
    ensures DetectsOverflow(bound) <==> bound <= 32761
  {
    if bound <= 32761 {
      forall V: View, ds: seq<Datum> | RowOk(V, ds) && SizesUpTo(V, ds, bound)
        ensures Write16(V, ds, 0) == TooLong <==> Total(V, ds) > I16_MAX
      {
        WriteExact(V, ds);
      }
    } else {
      var V, ds := OverflowWitness();
    }
  }

  lemma OverflowWitness() returns (V: View, ds: seq<Datum>)
    ensures RowOk(V, ds) && SizesUpTo(V, ds, 32762) && Total(V, ds) > I16_MAX && Write16(V, ds, 0) != TooLong
  {
    V, ds := ByteAndTwoStrings(), [Val(0), Ref(Zeros(32761)), Ref(Zeros(32762))];
    OverflowMissed(V, ds);
  }

  /**
   The writer is documented to return -1 when the buffer, prefix included, would exceed the maximal offset.
   Whether it does so behind a prefix of this length.
   */
  ghost predicate HonoursLimitBehind(init: nat) {
    forall V: View, ds: seq<Datum> :: RowOk(V, ds) && SizesUpTo(V, ds, 32761) ==>
      (Write16(V, ds, init) == TooLong <==> init + Total(V, ds) > I16_MAX)
  }

  /** The limit is honoured exactly when there is no prefix. */
  lemma HonoursLimitOnlyWithoutPrefix(init: nat)
    requires init % 8 == 0 && init <= I16_MAX
    ensures HonoursLimitBehind(init) <==> init == 0
  {
    if init == 0 {
      forall V: View, ds: seq<Datum> | RowOk(V, ds) && SizesUpTo(V, ds, 32761)
        ensures Write16(V, ds, 0) == TooLong <==> Total(V, ds) > I16_MAX
      {
        WriteExact(V, ds);
      }
    } else {
      var V, ds := PrefixWitness(init);
    }
  }

  lemma PrefixWitness(init: nat) returns (V: View, ds: seq<Datum>)
    requires 8 <= init <= I16_MAX
    ensures RowOk(V, ds) && SizesUpTo(V, ds, 32761) && init + Total(V, ds) > I16_MAX && Write16(V, ds, init) != TooLong
  {
    V, ds := ByteAndTwoStrings(), [Val(0), Ref(Zeros(32754)), Ref([])];
    ByteAndTwoStringsOk(ds);
    assert AlignUp(8, 32760) == 32760;
    var r := PrefixIgnored(V, ds, init);
  }

  lemma PrefixIgnored(V: View, ds: seq<Datum>, init: int) returns (r: WResult)
    requires V == ByteAndTwoStrings() && |ds| == 3 && ds[0] == Val(0) && ds[1].Ref? && ds[2] == Ref([])
    requires |ds[1].bytes| == 32754 && init >= 0
    ensures Write16(V, ds, init) == r && r.Wrote?
  {
    var s3 := TwoStringsWritten(V, ds, init);
    r := Finish(init, s3);
    FinishKeeps(init, s3);
  }

  lemma FinishKeeps(init: int, st: WState)
    requires st.off == 32760 && init >= 0
    ensures Finish(init, st).Wrote?
  {
    assert AlignUp(8, 32760) == 32760;
  }

  // ---------------------------------------------------------------- rows in field order, and slots

  /** Dissembling the slot gives `row`, and the slot starts with the payload of that row. */
  ghost predicate ReadsAs(cols: seq<Col>, slot: seq<Byte>, row: seq<Datum>) {
    RowReadable(cols, slot) && RowIn(cols, slot) == row && exists p :: p <= slot && IsPayload(cols, row, p)
  }

  /** The slot holds a record of the row. */
  ghost predicate Reads(cols: seq<Col>, slot: seq<Byte>, row: seq<Datum>) {
    |row| == |cols| && forall k {:trigger Key(k, slot)} :: Key(k, slot) ==> ReadsAs(cols, slot, row)
  }

  ghost predicate SameStoredRow(cols: seq<Col>, row: seq<Datum>, row': seq<Datum>) {
    |row| == |row'| == |cols| && forall i :: 0 <= i < |cols| ==>
      (row[i].Null? <==> row'[i].Null?) && FieldBytes(FieldOf(cols, i), row[i]) == FieldBytes(FieldOf(cols, i), row'[i])
  }

  /** Rows that store the same bytes field by field have the same payload. */
  lemma SameRowSamePayload(cols: seq<Col>, row: seq<Datum>, row': seq<Datum>, p: seq<Byte>, q: seq<Byte>)
    requires IsPayload(cols, row, p) && IsPayload(cols, row', q) && SameStoredRow(cols, row, row')
    ensures p == q
  {
    UsableSound(cols, row);
    UsableSound(cols, row');
    var V, ds, es := ViewOf(cols), RowPlaced(cols, row), RowPlaced(cols, row');
    forall k | 0 <= k < |V.f|
      ensures SameStored(V, ds, es, k)
    {
      OrderAt(cols, k);
      var i := OrderOf(cols)[k];
      assert V.f[k] == FieldOf(cols, i) && ds[k] == row[i] && es[k] == row'[i];
      StoredSameLength(cols, row, row', i);
    }
    PayloadUnique(V, ds, es, p, q);
  }

  lemma StoredSameLength(cols: seq<Col>, row: seq<Datum>, row': seq<Datum>, i: nat)
    requires ColsOk(cols) && RowFor(cols, row) && RowFor(cols, row') && SameStoredRow(cols, row, row') && i < |cols|
    ensures DataLen(FieldOf(cols, i), row[i]) == DataLen(FieldOf(cols, i), row'[i])
  {
    assert ColOk(cols[i]) && Typed(FieldOf(cols, i), row[i]) && Typed(FieldOf(cols, i), row'[i]);
  }

  lemma StoredAgain(cols: seq<Col>, row: seq<Datum>)
    requires ColsOk(cols) && RowFor(cols, row)
    ensures RowFor(cols, StoredIn(cols, row)) && SameStoredRow(cols, row, StoredIn(cols, row))
  {
    forall i | 0 <= i < |cols|
      ensures Typed(FieldOf(cols, i), StoredIn(cols, row)[i]) && (StoredIn(cols, row)[i].Null? <==> row[i].Null?)
      ensures FieldBytes(FieldOf(cols, i), row[i]) == FieldBytes(FieldOf(cols, i), StoredIn(cols, row)[i])
    {
      StoredBytes(FieldOf(cols, i), row[i]);
    }
  }

  /** The row as stored has the same length: all that differs is the high bytes of by-value data. */
  lemma StoredLength(cols: seq<Col>, row: seq<Datum>)
    requires Usable(cols) && RowFor(cols, row) && RowFor(cols, StoredIn(cols, row))
    ensures LengthOf(cols, StoredIn(cols, row)) == LengthOf(cols, row)
  {
    UsableSound(cols, row);
    var V, ds := ViewOf(cols), RowPlaced(cols, row);
    forall k | 0 <= k < |V.f|
      ensures RowPlaced(cols, StoredIn(cols, row))[k] == StoredRow(V, ds)[k]
    {
      OrderAt(cols, k);
    }
    assert RowPlaced(cols, StoredIn(cols, row)) == StoredRow(V, ds);
    StoredRowOk(V, ds);
  }

  /** The row as stored has the same payload. */
  lemma StoredPayload(cols: seq<Col>, row: seq<Datum>, p: seq<Byte>)
    requires IsPayload(cols, row, p)
    ensures IsPayload(cols, StoredIn(cols, row), p)
  {
    var again := StoredIn(cols, row);
    StoredAgain(cols, row);
    StoredLength(cols, row);
    WriteRowFits(cols, again);
    SameRowSamePayload(cols, row, again, p, WriteRow(cols, again).payload);
  }

  /** A payload, with anything behind it, is a record of the row as stored. */
  lemma PayloadReads(cols: seq<Col>, row: seq<Datum>, p: seq<Byte>, slot: seq<Byte>)
    requires IsPayload(cols, row, p) && p <= slot
    ensures Reads(cols, slot, StoredIn(cols, row))
  {
    StoredPayload(cols, row, p);
    RowRoundTrip(cols, row, p, slot);
  }

  /** What it takes to read a record: its payload. */
  lemma ReadsPayload(cols: seq<Col>, slot: seq<Byte>, row: seq<Datum>) returns (p: seq<Byte>)
    requires Reads(cols, slot, row)
    ensures p <= slot && IsPayload(cols, row, p) && StoredIn(cols, row) == row
    ensures RowReadable(cols, slot) && RowIn(cols, slot) == row
  {
    assert Key(0, slot);
    p :| p <= slot && IsPayload(cols, row, p);
    RowRoundTrip(cols, row, p, slot);
  }

  /**
   Canonical encoding, in field order: dissembling a record and writing the row again gives the payload at the
   front of the record, whatever follows it in the slot.
   */
  lemma RewriteExact(cols: seq<Col>, slot: seq<Byte>, row: seq<Datum>)
    requires Reads(cols, slot, row)
    ensures LayoutOf(cols).Some? && WriteRow(cols, row).Wrote? && WriteRow(cols, row).payload <= slot
    ensures WriteRow(cols, row).len == |WriteRow(cols, row).payload|
  {
    var p := ReadsPayload(cols, slot, row);
    WriteRowFits(cols, row);
    StoredAgain(cols, row);
    SameRowSamePayload(cols, row, row, p, WriteRow(cols, row).payload);
  }

  lemma ReplacePlaced(cols: seq<Col>, row: seq<Datum>, i: nat, d: Datum)
    requires |row| == |cols| && i < |cols|
    ensures PositionOf(cols, i) < |cols|
    ensures RowPlaced(cols, row[i := d]) == RowPlaced(cols, row)[PositionOf(cols, i) := d]
  {
    PositionFinds(cols, i);
    var placed, expected := RowPlaced(cols, row[i := d]), RowPlaced(cols, row)[PositionOf(cols, i) := d];
    forall k | 0 <= k < |cols|
      ensures placed[k] == expected[k]
    {
      OrderAt(cols, k);
    }
  }

  /** Two payloads of the same length that differ in the range `[at, at + len)` at most. */
  ghost predicate DifferIn(p: seq<Byte>, q: seq<Byte>, at: int, len: int) {
    |p| == |q| && forall x {:trigger q[x]} :: 0 <= x < |p| && !(at <= x < at + len) ==> q[x] == p[x]
  }

  lemma ReplaceRowFor(cols: seq<Col>, row: seq<Datum>, i: nat, d: Datum)
    requires RowFor(cols, row) && i < |cols| && Typed(FieldOf(cols, i), d) && !d.Null?
    ensures RowFor(cols, row[i := d])
  {
  }

  lemma ReplaceStored(V: View, ds: seq<Datum>, k: nat, d: Datum, p: seq<Byte>) returns (q: seq<Byte>)
    requires RowOk(V, ds) && Encodes(V, ds, p) && Total(V, ds) <= I16_MAX
    requires k < V.nFixed && k < |V.f| && Typed(V.f[k], d) && !d.Null?
    ensures Write16(V, ds[k := d], 0) == Wrote(|p|, q) && Encodes(V, ds[k := d], q)
    ensures DifferIn(p, q, V.f[k].offset, V.f[k].len)
  {
    FixedReplacementLocal(V, ds, k, d, p);
    q := Write16(V, ds[k := d], 0).payload;
  }

  /**
   Fixed-field replacement is local, in field order: writing the row with one non-nullable fixed field changed
   gives a payload of the same length that differs in the bytes of that field only.
   */
  lemma ReplaceFixed(cols: seq<Col>, row: seq<Datum>, i: nat, d: Datum, p: seq<Byte>) returns (q: seq<Byte>)
    requires IsPayload(cols, row, p) && i < |cols| && Is(cols[i], Fixed) && Typed(FieldOf(cols, i), d) && !d.Null?
    ensures WriteRow(cols, row[i := d]) == Wrote(|p|, q) && IsPayload(cols, row[i := d], q)
    ensures DifferIn(p, q, FieldOf(cols, i).offset, cols[i].len)
  {
    UsableSound(cols, row);
    ReplaceRowFor(cols, row, i, d);
    ReplacePlaced(cols, row, i, d);
    PickFinds(cols, Fixed, |cols|, i);
    q := ReplaceStored(ViewOf(cols), RowPlaced(cols, row), PositionOf(cols, i), d, p);
  }
}
