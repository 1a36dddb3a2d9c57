/**
 What the layout compiler promises in terms of the columns alone: no room is wasted but for alignment, and which null
 bit a field gets (src/catalog/Schema.cpp:85-236).
 */
module LayoutLaws {
  import opened Base
  import opened Layout

  // ---------------------------------------------------------------- the fixed-length fields

  /** A field with an offset of its own: not nullable and of fixed length. */
  predicate Front(c: Col) { !c.nullable && c.len >= 0 }

  /** Where such a field ends. */
  function FrontEnd(cols: seq<Col>, L: Layout, i: nat): int
    requires i < |cols| && i < |L.field|
  {
    L.field[i].offset + cols[i].len
  }

  /** No such field among the first `n` ends behind this place. */
  ghost predicate AllInFront(cols: seq<Col>, L: Layout, n: nat, place: int)
    requires n <= |cols| == |L.field|
  {
    forall j {:trigger FrontEnd(cols, L, j)} :: 0 <= j < n && Front(cols[j]) ==> FrontEnd(cols, L, j) <= place
  }

  /** The place is where one of the first `n` such fields ends, or the beginning. */
  ghost predicate AtAnEnd(cols: seq<Col>, L: Layout, n: nat, place: int)
    requires n <= |cols| == |L.field|
  {
    place == 0 || exists j {:trigger FrontEnd(cols, L, j)} :: 0 <= j < n && Front(cols[j]) && FrontEnd(cols, L, j) == place
  }

  /** The place is the first one of this alignment behind the first `n` such fields. */
  ghost predicate FirstAligned(cols: seq<Col>, L: Layout, n: nat, a: Alignment, place: int)
    requires n <= |cols| == |L.field|
  {
    && Aligned(a, place) && place >= 0 && AllInFront(cols, L, n, place)
    && exists e: int {:trigger AtAnEnd(cols, L, n, e)} :: AtAnEnd(cols, L, n, e) && e <= place < e + a
  }

  lemma {:induction false} FixedEndIs(cols: seq<Col>, L: Layout, n: nat)
    requires n <= |cols| && ColsOk(cols) && LayoutOf(cols) == Some(L)
    ensures AllInFront(cols, L, n, FixedEnd(cols, n)) && AtAnEnd(cols, L, n, FixedEnd(cols, n))
  {
    if n > 0 {
      FixedEndIs(cols, L, n - 1);
      assert L.field[n - 1] == FieldOf(cols, n - 1);
      assert Front(cols[n - 1]) <==> Is(cols[n - 1], Fixed);
      if Front(cols[n - 1]) {
        assert FrontEnd(cols, L, n - 1) == FixedEnd(cols, n);
      }
    }
  }

  // ---------------------------------------------------------------- counting

  predicate Varlen(c: Col) { c.len == -1 }

  /** How many of the first `n` columns are of variable length. */
  function Varlens(cols: seq<Col>, n: nat): nat
    requires n <= |cols|
  {
    |set j | 0 <= j < n && Varlen(cols[j])|
  }

  /** How many of them are nullable, and of variable length or not. */
  function Nullables(cols: seq<Col>, n: nat, varlen: bool): nat
    requires n <= |cols|
  {
    |set j | 0 <= j < n && cols[j].nullable && (Varlen(cols[j]) <==> varlen)|
  }

  lemma {:induction false} PickCounts(cols: seq<Col>, n: nat)
    requires n <= |cols| && ColsOk(cols)
    ensures |Pick(cols, Var, n)| == Varlens(cols, n)
    ensures |Pick(cols, NullVar, n)| == Nullables(cols, n, true) && |Pick(cols, NullFixed, n)| == Nullables(cols, n, false)
  {
    if n > 0 {
      PickCounts(cols, n - 1);
      var m := n - 1;
      var v, v' := set j | 0 <= j < m && Varlen(cols[j]), set j | 0 <= j < n && Varlen(cols[j]);
      assert v' == if Varlen(cols[m]) then v + {m} else v;
      NullableStep(cols, m, true);
      NullableStep(cols, m, false);
    }
  }

  lemma NullableStep(cols: seq<Col>, m: nat, varlen: bool)
    requires m < |cols|
    ensures Nullables(cols, m + 1, varlen) ==
            Nullables(cols, m, varlen) + if cols[m].nullable && (Varlen(cols[m]) <==> varlen) then 1 else 0
  {
    var s := set j | 0 <= j < m && cols[j].nullable && (Varlen(cols[j]) <==> varlen);
    var t := set j | 0 <= j < m + 1 && cols[j].nullable && (Varlen(cols[j]) <==> varlen);
    assert t == if cols[m].nullable && (Varlen(cols[m]) <==> varlen) then s + {m} else s;
  }

  // ---------------------------------------------------------------- the laws

  /** The null bit of a field: the variable-length ones come first. Those that are not nullable keep their bits unused. */
  predicate BitAsCounted(cols: seq<Col>, L: Layout, i: nat)
    requires i < |cols| == |L.field|
  {
    L.field[i].nullBit ==
    if !cols[i].nullable then -1
    else if Varlen(cols[i]) then Varlens(cols, i)
    else Nullables(cols, |cols|, true) + Nullables(cols, i, false)
  }

  /** The bitmap has the least number of bytes, and the end array begins at the first even place behind it. */
  predicate BitmapTight(cols: seq<Col>, L: Layout) {
    var bits := Nullables(cols, |cols|, true) + Nullables(cols, |cols|, false);
    L.endsAt % 2 == 0 && L.bitmapAt <= L.endsAt && 8 * (L.endsAt - L.bitmapAt) >= bits > 8 * (L.endsAt - 2 - L.bitmapAt)
  }

  /**
   Every field with an offset of its own begins at the first aligned place behind those before it. If there are no
   others, the payload ends at the first multiple of 8 behind them. Otherwise the bitmap follows at once, then the end
   array with two bytes for each variable-length field, then the data.
   */
  lemma LayoutTight(cols: seq<Col>, L: Layout)
    requires ColsOk(cols) && LayoutOf(cols) == Some(L)
    ensures |L.field| == |cols| && forall i {:trigger L.field[i]} :: 0 <= i < |cols| ==>
              && BitAsCounted(cols, L, i) && L.field[i].len == cols[i].len && L.field[i].align == cols[i].align
              && (Front(cols[i]) ==> FirstAligned(cols, L, i, cols[i].align, L.field[i].offset))
    ensures if forall i :: 0 <= i < |cols| ==> Front(cols[i]) then
              L.bitmapAt == L.endsAt == L.dataAt && FirstAligned(cols, L, |cols|, 8, L.dataAt)
            else
              && FirstAligned(cols, L, |cols|, 1, L.bitmapAt) && BitmapTight(cols, L)
              && (Varlens(cols, |cols|) < 16384 ==> L.dataAt == L.endsAt + 2 * Varlens(cols, |cols|))
  {
    forall i | 0 <= i < |cols|
      ensures BitAsCounted(cols, L, i) && L.field[i].len == cols[i].len && L.field[i].align == cols[i].align
      ensures Front(cols[i]) ==> FirstAligned(cols, L, i, cols[i].align, L.field[i].offset)
    {
      assert L.field[i] == FieldOf(cols, i);
      PickCounts(cols, i);
      PickCounts(cols, |cols|);
      if Front(cols[i]) {
        FixedEndIs(cols, L, i);
        FirstBehind(cols, L, i, cols[i].align, L.field[i].offset);
      }
    }
    FixedEndIs(cols, L, |cols|);
    RegionsTight(cols, L);
  }

  lemma FirstBehind(cols: seq<Col>, L: Layout, n: nat, a: Alignment, place: int)
    requires n <= |cols| == |L.field| && place == AlignUp(a, FixedEnd(cols, n))
    requires AllInFront(cols, L, n, FixedEnd(cols, n)) && AtAnEnd(cols, L, n, FixedEnd(cols, n))
    ensures FirstAligned(cols, L, n, a, place)
  {
  }

  lemma AllFront(cols: seq<Col>)
    requires ColsOk(cols)
    ensures (forall i :: 0 <= i < |cols| ==> Front(cols[i])) <==> Count(cols, Fixed) == |cols|
  {
    if forall i :: 0 <= i < |cols| ==> Front(cols[i]) {
      EveryFront(cols, |cols|);
    } else {
      var i :| 0 <= i < |cols| && !Front(cols[i]);
      SomeBehind(cols, |cols|, i);
    }
  }

  lemma {:induction false} EveryFront(cols: seq<Col>, n: nat)
    requires n <= |cols| && forall i :: 0 <= i < |cols| ==> Front(cols[i])
    ensures |Pick(cols, Fixed, n)| == n
  {
    if n > 0 {
      EveryFront(cols, n - 1);
    }
  }

  lemma {:induction false} SomeBehind(cols: seq<Col>, n: nat, i: nat)
    requires i < n <= |cols| && !Is(cols[i], Fixed)
    ensures |Pick(cols, Fixed, n)| < n
  {
    if i < n - 1 {
      SomeBehind(cols, n - 1, i);
    } else {
      PickPartition(cols, i);
    }
  }

  lemma {:induction false} RegionsTight(cols: seq<Col>, L: Layout)
    requires ColsOk(cols) && LayoutOf(cols) == Some(L)
    requires AllInFront(cols, L, |cols|, FixedEnd(cols, |cols|)) && AtAnEnd(cols, L, |cols|, FixedEnd(cols, |cols|))
    ensures if forall i :: 0 <= i < |cols| ==> Front(cols[i]) then
              L.bitmapAt == L.endsAt == L.dataAt && FirstAligned(cols, L, |cols|, 8, L.dataAt)
            else
              && FirstAligned(cols, L, |cols|, 1, L.bitmapAt) && BitmapTight(cols, L)
              && (Varlens(cols, |cols|) < 16384 ==> L.dataAt == L.endsAt + 2 * Varlens(cols, |cols|))
  {
    AllFront(cols);
    PickCounts(cols, |cols|);
    if Count(cols, Fixed) == |cols| {
      FirstBehind(cols, L, |cols|, 8, L.dataAt);
    } else {
      FirstBehind(cols, L, |cols|, 1, L.bitmapAt);
      BytesTight(L.bitmapAt, Count(cols, NullVar) + Count(cols, NullFixed), L.endsAt);
      if Count(cols, Var) < 16384 {
        AddWithCheckExact(EndsAt(cols), 2 * Count(cols, Var));
      }
    }
  }

  lemma BytesTight(at: nat, bits: nat, ends: int)
    requires ends == AlignUp(2, at + (bits + 7) / 8)
    ensures ends % 2 == 0 && at <= ends && 8 * (ends - at) >= bits > 8 * (ends - 2 - at)
  {
  }
}
