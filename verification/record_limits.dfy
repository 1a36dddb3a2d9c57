/**
 Which catalog entries can be stored: the record of an entry has a single field of variable length, its name, and is too
 long exactly if the name is (src/catalog/CatCacheBase_private.inc:1173-1178).
 */
module RecordLimits {
  import opened Base
  import opened Codec
  import opened Layout
  import opened SlotFile
  import opened Entries
  import opened EntryCodec
  import opened OidAllocation
  import opened Catalog

  /** Where a systable has its only variable-length column, the name; nowhere for `IndexColumn`. */
  function NameColumn(t: nat): (r: Option<nat>)
    ensures r.Some? ==> r.value < |SysCols(t)| && SysCols(t)[r.value] == NAME
    ensures forall i :: 0 <= i < |SysCols(t)| && r != Some(i) ==> Is(SysCols(t)[i], Fixed)
  {
    if t == TAB_TABLE || t == TAB_TYPE then Some(5) else if t == TAB_COLUMN || t == TAB_INDEX then Some(6) else None
  }

  lemma {:induction false} OneName(cols: seq<Col>, name: Option<nat>, n: nat)
    requires n <= |cols| && (name.Some? ==> name.value < |cols| && cols[name.value] == NAME)
    requires forall i :: 0 <= i < |cols| && name != Some(i) ==> Is(cols[i], Fixed)
    ensures |Pick(cols, Var, n)| == if name.Some? && name.value < n then 1 else 0
  {
    if n > 0 {
      OneName(cols, name, n - 1);
    }
  }

  lemma NameDatum(e: Entry)
    requires InTypes(e)
    ensures NamedRow(SysCols(TabOf(e)), DatumVector(e), NameColumn(TabOf(e)), NameOf(e))
  {
  }

  /** A row whose only variable-length field is a name, if it has one. */
  predicate NamedRow(cols: seq<Col>, row: Row, name: Option<nat>, bytes: seq<Byte>) {
    && |row| == |cols| && (forall i :: 0 <= i < |cols| && name != Some(i) ==> Is(cols[i], Fixed))
    && match name case None => bytes == [] case Some(i) => i < |cols| && cols[i] == NAME && row[i] == Ref(bytes)
  }

  lemma OneNameLength(cols: seq<Col>, row: Row, name: Option<nat>, bytes: seq<Byte>)
    requires ColsOk(cols) && LayoutOf(cols).Some? && NamedRow(cols, row, name, bytes)
    ensures LengthOf(cols, row) == AlignUp(8, LayoutOf(cols).value.dataAt + |bytes|)
  {
    OneNameEnds(cols, row, name, bytes);
  }

  lemma OneNameEnds(cols: seq<Col>, row: Row, name: Option<nat>, bytes: seq<Byte>)
    requires ColsOk(cols) && LayoutOf(cols).Some? && NamedRow(cols, row, name, bytes)
    ensures RunOff(ViewOf(cols), RowPlaced(cols, row), |ViewOf(cols).f|) == ViewOf(cols).dataAt + |bytes|
  {
    OneNamePlaced(cols, row, name, bytes);
    ShapeOfLayout(cols);
    var V, ds := ViewOf(cols), RowPlaced(cols, row);
    RunOffFixed(V, ds, V.nFixed);
    if name.Some? {
      NameBehind(V, ds, bytes);
    }
  }

  lemma OneNamePlaced(cols: seq<Col>, row: Row, name: Option<nat>, bytes: seq<Byte>)
    requires ColsOk(cols) && LayoutOf(cols).Some? && NamedRow(cols, row, name, bytes)
    ensures Count(cols, Var) < 16384
    ensures var V, ds := ViewOf(cols), RowPlaced(cols, row);
      if name.None? then V.nFixed == |V.f| else
        && |V.f| == V.nFixed + 1 && V.f[V.nFixed].offset < 0 && V.f[V.nFixed].len == -1 && V.f[V.nFixed].align == 1
        && ds[V.nFixed] == Ref(bytes)
  {
    OneName(cols, name, |cols|);
    AllButOne(cols, name, |cols|);
    PickPartition(cols, |cols|);
    if name.Some? {
      var i := name.value;
      OneName(cols, name, i);
      assert PositionOf(cols, i) == Count(cols, Fixed);
      assert ViewOf(cols).f[PositionOf(cols, i)] == FieldOf(cols, i) && RowPlaced(cols, row)[PositionOf(cols, i)] == row[i];
    }
  }

  lemma {:induction false} AllButOne(cols: seq<Col>, name: Option<nat>, n: nat)
    requires n <= |cols| && forall i :: 0 <= i < |cols| && name != Some(i) ==> Is(cols[i], Fixed)
    requires name.Some? ==> name.value < |cols| && cols[name.value] == NAME
    ensures Pick(cols, NullFixed, n) == []
  {
    if n > 0 {
      AllButOne(cols, name, n - 1);
    }
  }

  lemma NameBehind(V: View, ds: seq<Datum>, bytes: seq<Byte>)
    requires |ds| == |V.f| == V.nFixed + 1 && V.f[V.nFixed].offset < 0 && V.f[V.nFixed].len == -1 && V.f[V.nFixed].align == 1
    requires ds[V.nFixed] == Ref(bytes)
    ensures RunOff(V, ds, |V.f|) == RunOff(V, ds, V.nFixed) + |bytes|
  {
  }

  /** Where the names of a systable begin in its records; where the records of `IndexColumn` end. */
  function NameAt(t: nat): nat {
    if t == TAB_TABLE then 14 else if t == TAB_TYPE || t == TAB_COLUMN then 26 else if t == TAB_INDEX then 18 else 32
  }

  predicate EndStep(cols: seq<Col>, ends: seq<nat>, i: nat)
    requires i < |cols| && |ends| == |cols| + 1
  {
    ends[i + 1] == if cols[i] == NAME then ends[i] else AlignUp(cols[i].align, ends[i]) + cols[i].len
  }

  /** Where the columns in front of each column end, names not counted. */
  predicate EndsOf(cols: seq<Col>, ends: seq<nat>) {
    && |ends| == |cols| + 1 && ends[0] == 0 && (forall i :: 0 <= i < |cols| ==> SysCol(cols[i]))
    && forall i {:trigger EndStep(cols, ends, i)} :: 0 <= i < |cols| ==> EndStep(cols, ends, i)
  }

  lemma {:induction false} FixedEnds(cols: seq<Col>, ends: seq<nat>, n: nat)
    requires n <= |cols| && EndsOf(cols, ends)
    ensures FixedEnd(cols, n) == ends[n]
  {
    if n > 0 {
      FixedEnds(cols, ends, n - 1);
      assert EndStep(cols, ends, n - 1);
    }
  }

  lemma SysLayout(cols: seq<Col>, end: nat)
    requires ColsOk(cols) && LayoutOf(cols).Some? && FixedEnd(cols, |cols|) == end && BitmapBytes(cols) == 0
    requires Count(cols, Var) <= 1 && Count(cols, Fixed) == |cols| - Count(cols, Var)
    ensures LayoutOf(cols).value.dataAt == if Count(cols, Var) == 0 then AlignUp(8, end) else AlignUp(2, end) + 2
  {
    AddWithCheckExact(EndsAt(cols), 2 * Count(cols, Var));
  }

  lemma DataBegins(cols: seq<Col>, ends: seq<nat>, name: Option<nat>)
    requires EndsOf(cols, ends) && ColsOk(cols) && LayoutOf(cols).Some?
    requires name.Some? ==> name.value < |cols| && cols[name.value] == NAME
    requires forall i :: 0 <= i < |cols| && name != Some(i) ==> Is(cols[i], Fixed)
    ensures var end := ends[|cols|];
      LayoutOf(cols).value.dataAt == if name.None? then AlignUp(8, end) else AlignUp(2, end) + 2
  {
    FixedEnds(cols, ends, |cols|);
    NothingNullable(cols, |cols|);
    PickPartition(cols, |cols|);
    OneName(cols, name, |cols|);
    SysLayout(cols, ends[|cols|]);
  }

  /** Where the fixed-length columns of a systable end, one by one. */
  function Ends(t: nat): (r: seq<nat>)
    ensures |r| == |SysCols(t)| + 1
  {
    if t == TAB_TABLE then [0, 4, 5, 6, 8, 12, 12]
    else if t == TAB_TYPE then [0, 4, 6, 7, 8, 9, 9, 16, 20, 24]
    else if t == TAB_COLUMN then [0, 4, 6, 7, 8, 12, 24, 24]
    else if t == TAB_INDEX then [0, 4, 8, 9, 10, 12, 16, 16]
    else [0, 4, 6, 8, 12, 13, 24, 28, 32]
  }

  lemma EndsStep(t: nat, i: nat)
    requires i < |SysCols(t)|
    ensures EndStep(SysCols(t), Ends(t), i)
  {
  }

  lemma EndsAre(t: nat)
    ensures EndsOf(SysCols(t), Ends(t))
  {
    forall i | 0 <= i < |SysCols(t)|
      ensures EndStep(SysCols(t), Ends(t), i)
    {
      EndsStep(t, i);
    }
  }

  lemma NameAtIs(t: nat, cols: seq<Col>)
    requires cols == SysCols(t)
    ensures LayoutOf(cols).Some? && ColsOk(cols) && LayoutOf(cols).value.dataAt == NameAt(t)
  {
    SystablesUsable(t);
    EndsAre(t);
    DataBegins(cols, Ends(t), NameColumn(t));
  }

  lemma AlignedLimit(x: int)
    ensures AlignUp(8, x) <= I16_MAX <==> x <= 32760
  {
  }

  lemma NamedLimit(cols: seq<Col>, row: Row, name: Option<nat>, bytes: seq<Byte>)
    requires ColsOk(cols) && LayoutOf(cols).Some? && NamedRow(cols, row, name, bytes)
    ensures LengthOf(cols, row) <= I16_MAX <==> LayoutOf(cols).value.dataAt + |bytes| <= 32760
  {
    OneNameLength(cols, row, name, bytes);
    AlignedLimit(LayoutOf(cols).value.dataAt + |bytes|);
  }

  lemma RecordFitsExactly(e: Entry, cols: seq<Col>, row: Row)
    requires InTypes(e) && cols == SysCols(TabOf(e)) && row == DatumVector(e)
    ensures RecordFits(e) <==> NameAt(TabOf(e)) + |NameOf(e)| <= 32760
  {
    NameAtIs(TabOf(e), cols);
    NameDatum(e);
    NamedLimit(cols, row, NameColumn(TabOf(e)), NameOf(e));
  }

  /** An entry can be stored if and only if its name is short enough for its systable. */
  lemma FitsExactly(e: Entry)
    requires Writable(e)
    ensures Fits(e) <==> NameAt(TabOf(e)) + |NameOf(e)| <= 32760
  {
    RecordFitsExactly(e, SysCols(TabOf(e)), DatumVector(e));
    assert Key(0, e);
  }

  lemma ShortFits(e: Entry)
    requires Writable(e) && |NameOf(e)| <= 32000
    ensures Fits(e)
  {
    FitsExactly(e);
  }

  // ---------------------------------------------------------------- what can be added

  /** There are slots for the rows of the table, and the names are short enough. */
  ghost predicate RoomForTable(db: Db, a: TableArgs, n: nat)
    requires ArgsFit(a, n)
  {
    && |db.tables| < MAX_SLOTS && |a.name| <= 32746
    && |db.columns| + n <= MAX_SLOTS && forall i {:trigger a.names[i]} :: 0 <= i < n ==> |a.names[i]| <= 32734
  }

  /** The rows of a new table can be appended if and only if there is room for it. */
  lemma TableInsertableExactly(db: Db, id: nat, a: TableArgs, n: nat)
    requires id <= MAX_OID && TableArgsTyped(a) && ShortNames(a) && n <= I16_MAX && ArgsFit(a, n)
    ensures TableInsertable(db, id, a, n) <==> RoomForTable(db, a, n)
  {
    TableWritable(id, a, n);
    var t, cs := [NewTable(id, a, n)], NewColumns(id, a, n);
    FitsExactly(t[0]);
    forall k | 0 <= k < n
      ensures Fits(cs[k]) <==> |a.names[k]| <= 32734
    {
      FitsExactly(cs[k]);
    }
    if !RoomForTable(db, a, n) && |db.tables| < MAX_SLOTS && |a.name| <= 32746 && |db.columns| + n <= MAX_SLOTS {
      var i :| 0 <= i < n && |a.names[i]| > 32734;
      assert !Fits(cs[i]);
    }
  }

  /** The same in terms of the arguments. */
  ghost predicate RoomAsked(db: Db, a: TableArgs) {
    && |db.tables| < MAX_SLOTS && |a.name| <= 32746 && |db.columns| + |a.typids| <= MAX_SLOTS
    && forall i {:trigger a.names[i]} :: 0 <= i < |a.typids| && i < |a.names| ==> |a.names[i]| <= 32734
  }

  lemma RoomAskedExactly(db: Db, a: TableArgs, n: nat)
    requires !BadTable(a) && n == |a.typids| <= I16_MAX && ArgsFit(Filled(a, n), n)
    ensures RoomForTable(db, Filled(a, n), n) <==> RoomAsked(db, a)
  {
    FilledShort(a, n);
  }

  ghost predicate RoomForIndex(db: Db, x: IndexArgs) {
    |db.indexes| < MAX_SLOTS && |x.name| <= 32742 && |db.idxcols| + |x.colids| <= MAX_SLOTS
  }

  /** The rows of a new index can be appended if and only if there is room for it. */
  lemma IndexInsertableExactly(db: Db, id: nat, x: IndexArgs, d: Declared)
    requires id <= MAX_OID && IndexArgsTyped(x) && ShortName(x.name) && |x.colids| <= I16_MAX && IndexArgsFit(x, d)
    requires forall i :: 0 <= i < |x.colids| ==> x.eqs[i] <= U32_MAX && x.lts[i] <= U32_MAX
    requires DeclaredTyped(d)
    ensures IndexInsertable(db, id, x, d) <==> RoomForIndex(db, x)
  {
    IndexWritable(id, x, d);
    var e, keys := [NewIndex(id, x)], NewKeys(id, x, d);
    FitsExactly(e[0]);
    forall k | 0 <= k < |x.colids|
      ensures Fits(keys[k])
    {
      FitsExactly(keys[k]);
    }
  }
}
