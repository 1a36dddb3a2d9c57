/**
 Catalog entries as records: the datum vectors of the SysTable_xxx structs, their columns, and files of entries.
 */
module EntryCodec {
  import opened Base
  import opened Digits
  import opened Codec
  import opened CodecWrite
  import opened Layout
  import opened Records
  import opened SlotFile
  import opened Entries

  // ---------------------------------------------------------------- columns of the systables

  function ByValue(len: TypLen): Col
    requires IsValueLen(len)
  {
    Col(len, len, false, false)
  }

  const NAME := Col(-1, 1, true, false)

  /** The columns of a systable, in the order of its .inc file, with the types of Type.dat. */
  function SysCols(t: nat): (r: seq<Col>)
    ensures 0 < |r| <= 9
  {
    var b, i2, u4, u8 := ByValue(1), ByValue(2), ByValue(4), ByValue(8);
    if t == TAB_TABLE then [u4, b, b, i2, u4, NAME]
    else if t == TAB_TYPE then [u4, i2, b, b, b, NAME, u4, u4, u4]
    else if t == TAB_COLUMN then [u4, i2, b, b, u4, u8, NAME]
    else if t == TAB_INDEX then [u4, u4, b, b, i2, u4, NAME]
    else [u4, i2, i2, u4, b, u8, u4, u4]
  }

  /** A column of a systable. */
  predicate SysCol(c: Col) {
    c == NAME || (!c.byref && !c.nullable && IsValueLen(c.len) && c.align == c.len)
  }

  lemma {:induction false} FixedEndSmall(cols: seq<Col>, n: nat)
    requires n <= |cols| && forall i :: 0 <= i < |cols| ==> SysCol(cols[i])
    ensures FixedEnd(cols, n) <= 16 * n
  {
    if n > 0 {
      FixedEndSmall(cols, n - 1);
    }
  }

  lemma {:induction false} NothingNullable(cols: seq<Col>, n: nat)
    requires n <= |cols| && forall i :: 0 <= i < |cols| ==> SysCol(cols[i])
    ensures Pick(cols, NullVar, n) == [] && Pick(cols, NullFixed, n) == []
  {
    if n > 0 {
      NothingNullable(cols, n - 1);
    }
  }

  /** The layout of every systable can be computed and used. */
  lemma SystablesUsable(t: nat)
    ensures LayoutOf(SysCols(t)).Some? && Usable(SysCols(t))
  {
    var cols := SysCols(t);
    assert forall i :: 0 <= i < |cols| ==> SysCol(cols[i]) && ColOk(cols[i]);
    assert ColsOk(cols);
    FixedEndSmall(cols, |cols|);
    NothingNullable(cols, |cols|);
    LayoutExact(cols);
    NullBitsSound(cols);
  }

  // ---------------------------------------------------------------- structs and datums


  /** `Datum::From` of a signed integer sign-extends it to 64 bits. */
  function FromInt(x: int): Datum
    requires -0x8000 <= x <= I16_MAX
  {
    Val(if x >= 0 then x else x + U64)
  }

  function FromBool(b: bool): Datum {
    Val(if b then 1 else 0)
  }

  function RepOf(d: Datum): nat {
    if d.Val? then d.rep else 0
  }

  /** `GetUInt64`. */
  function U64Of(d: Datum): nat { RepOf(d) % U64 }

  /** `GetUInt8`. */
  function U8(d: Datum): nat { RepOf(d) % 0x100 }

  /** `GetInt16`. */
  function S16(d: Datum): int { I16(RepOf(d)) }

  function StrOf(d: Datum): Str { if d.Ref? then d.bytes else [] }

  /** The fields of a struct are in the range of their C++ types. */
  predicate InTypes(e: Entry) {
    IdOf(e) <= U32_MAX && -0x8000 <= NumberOf(e) <= I16_MAX &&
    match e
    case Table(_, _, _, n, fid, _) => -0x8000 <= n <= I16_MAX && fid <= U32_MAX
    case Type(_, len, _, _, align, _, f, g, h) => -0x8000 <= len <= I16_MAX && align < 0x100 && f <= U32_MAX && g <= U32_MAX && h <= U32_MAX
    case Column(_, _, _, _, typ, param, _) => typ <= U32_MAX && param < U64
    case Index(_, tab, typ, _, n, fid, _) => tab <= U32_MAX && typ < 0x100 && -0x8000 <= n <= I16_MAX && fid <= U32_MAX
    case IndexColumn(_, _, c, typ, _, param, f, g) => -0x8000 <= c <= I16_MAX && typ <= U32_MAX && param < U64 && f <= U32_MAX && g <= U32_MAX
  }

  function TabOf(e: Entry): nat {
    match e
    case Table(_, _, _, _, _, _) => TAB_TABLE
    case Type(_, _, _, _, _, _, _, _, _) => TAB_TYPE
    case Column(_, _, _, _, _, _, _) => TAB_COLUMN
    case Index(_, _, _, _, _, _, _) => TAB_INDEX
    case IndexColumn(_, _, _, _, _, _, _, _) => TAB_INDEXCOLUMN
  }

  /** `GetDatumVector`. */
  function DatumVector(e: Entry): (r: Row)
    requires InTypes(e)
    ensures |r| == |SysCols(TabOf(e))|
  {
    match e
    case Table(id, sys, vlen, n, fid, name) => [Val(id), FromBool(sys), FromBool(vlen), FromInt(n), Val(fid), Ref(name)]
    case Type(id, len, vlen, byref, align, name, f, g, h) =>
      [Val(id), FromInt(len), FromBool(vlen), FromBool(byref), Val(align), Ref(name), Val(f), Val(g), Val(h)]
    case Column(id, n, arr, nullable, typ, param, name) =>
      [Val(id), FromInt(n), FromBool(arr), FromBool(nullable), Val(typ), Val(param), Ref(name)]
    case Index(id, tab, typ, uniq, n, fid, name) => [Val(id), Val(tab), Val(typ), FromBool(uniq), FromInt(n), Val(fid), Ref(name)]
    case IndexColumn(id, n, c, typ, nullable, param, f, g) =>
      [Val(id), FromInt(n), FromInt(c), Val(typ), FromBool(nullable), Val(param), Val(f), Val(g)]
  }

  /** Which field of a struct is stored in which column, as its .inc file lists them. */
  lemma FieldsInOrder(e: Entry)
    requires InTypes(e)
    ensures var r := DatumVector(e);
      && (e.Table? ==>
            && r[0] == Val(e.tabid) && r[1] == FromBool(e.tabissys) && r[2] == FromBool(e.tabisvarlen)
            && r[3] == FromInt(e.tabncols) && r[4] == Val(e.tabfid) && r[5] == Ref(e.tabname))
      && (e.Type? ==>
            && r[0] == Val(e.typid) && r[1] == FromInt(e.typlen) && r[2] == FromBool(e.typisvarlen) && r[3] == FromBool(e.typbyref)
            && r[4] == Val(e.typalign) && r[5] == Ref(e.typname)
            && r[6] == Val(e.typinfunc) && r[7] == Val(e.typoutfunc) && r[8] == Val(e.typlenfunc))
      && (e.Column? ==>
            && r[0] == Val(e.coltabid) && r[1] == FromInt(e.colid) && r[2] == FromBool(e.colisarray)
            && r[3] == FromBool(e.colisnullable) && r[4] == Val(e.coltypid) && r[5] == Val(e.coltypparam) && r[6] == Ref(e.colname))
      && (e.Index? ==>
            && r[0] == Val(e.idxid) && r[1] == Val(e.idxtabid) && r[2] == Val(e.idxtyp) && r[3] == FromBool(e.idxunique)
            && r[4] == FromInt(e.idxncols) && r[5] == Val(e.idxfid) && r[6] == Ref(e.idxname))
      && (e.IndexColumn? ==>
            && r[0] == Val(e.idxcolidxid) && r[1] == FromInt(e.idxcolid) && r[2] == FromInt(e.idxcoltabcolid)
            && r[3] == Val(e.idxcoltypid) && r[4] == FromBool(e.idxcolisnullable) && r[5] == Val(e.idxcoltypparam)
            && r[6] == Val(e.idxcoleqfuncid) && r[7] == Val(e.idxcolltfuncid))
    ensures FromBool(true) == Val(1) && FromBool(false) == Val(0)
    ensures TabOf(e) == if e.Table? then 1 else if e.Type? then 2 else if e.Column? then 3 else if e.Index? then 7 else 8
  {
  }

  function Flag(d: Datum): bool { RepOf(d) != 0 }

  /** `CreateSysTableStruct`. */
  function Create(t: nat, r: Row): (e: Entry)
    requires |r| == |SysCols(t)|
    ensures IdOf(e) == U32(r[0])
  {
    if t == TAB_TABLE then Table(U32(r[0]), Flag(r[1]), Flag(r[2]), S16(r[3]), U32(r[4]), StrOf(r[5]))
    else if t == TAB_TYPE then
      Type(U32(r[0]), S16(r[1]), Flag(r[2]), Flag(r[3]), U8(r[4]), StrOf(r[5]), U32(r[6]), U32(r[7]), U32(r[8]))
    else if t == TAB_COLUMN then Column(U32(r[0]), S16(r[1]), Flag(r[2]), Flag(r[3]), U32(r[4]), U64Of(r[5]), StrOf(r[6]))
    else if t == TAB_INDEX then Index(U32(r[0]), U32(r[1]), U8(r[2]), Flag(r[3]), S16(r[4]), U32(r[5]), StrOf(r[6]))
    else IndexColumn(U32(r[0]), S16(r[1]), S16(r[2]), U32(r[3]), Flag(r[4]), U64Of(r[5]), U32(r[6]), U32(r[7]))
  }

  // ---------------------------------------------------------------- a struct survives storage

  /** The number of values of a by-value column. */
  function Size(c: Col): (r: nat)
    ensures r > 0
  {
    if c.len == 1 then 0x100 else if c.len == 2 then 0x1_0000 else if c.len == 4 then 0x1_0000_0000 else U64
  }

  /** What storage keeps of a datum. */
  function Kept(c: Col, d: Datum): Datum {
    if d.Val? then Val(d.rep % Size(c)) else d
  }

  predicate RightKind(c: Col, d: Datum) {
    SysCol(c) && if c == NAME then d.Ref? else d.Val?
  }

  /** How the datum of a systable column is stored. */
  lemma StoredDatum(cols: seq<Col>, i: nat, d: Datum)
    requires i < |cols| && RightKind(cols[i], d)
    ensures Typed(FieldOf(cols, i), d) && Stored(FieldOf(cols, i), d) == Kept(cols[i], d)
  {
    if cols[i] != NAME {
      LowBytesRead(d.rep, cols[i].len);
      Pow256Values(cols[i]);
    }
  }

  lemma Pow256Values(c: Col)
    requires IsValueLen(c.len)
    ensures Pow256(c.len) == Size(c)
  {
    assert Pow256(3) == 0x100_0000;
    assert Pow256(6) == 0x1_0000_0000_0000;
  }

  /** Every datum of the row is of the kind of its column. */
  predicate RightKinds(cols: seq<Col>, row: Row) {
    |row| == |cols| && forall i :: 0 <= i < |cols| ==> RightKind(cols[i], row[i])
  }

  lemma StoredRowIs(cols: seq<Col>, row: Row)
    requires RightKinds(cols, row)
    ensures RowFor(cols, row) && forall i :: 0 <= i < |cols| ==> StoredIn(cols, row)[i] == Kept(cols[i], row[i])
  {
    forall i | 0 <= i < |cols|
      ensures Typed(FieldOf(cols, i), row[i]) && StoredIn(cols, row)[i] == Kept(cols[i], row[i])
    {
      StoredDatum(cols, i, row[i]);
    }
  }

  lemma KeptU32(x: nat)
    requires x <= U32_MAX
    ensures U32(Kept(ByValue(4), Val(x))) == x
  {
  }

  lemma KeptU8(x: nat)
    requires x < 0x100
    ensures U8(Kept(ByValue(1), Val(x))) == x
  {
  }

  lemma KeptU64(x: nat)
    requires x < U64
    ensures U64Of(Kept(ByValue(8), Val(x))) == x
  {
  }

  lemma KeptInt(x: int)
    requires -0x8000 <= x <= I16_MAX
    ensures S16(Kept(ByValue(2), FromInt(x))) == x
  {
    I16OfRemainder(if x >= 0 then x else x + U64);
    I16DropsU64(x);
  }

  lemma KeptFlag(b: bool)
    ensures Flag(Kept(ByValue(1), FromBool(b))) == b
  {
  }

  /** What storage keeps of a row. */
  function KeptRow(cols: seq<Col>, row: Row): (r: Row)
    requires |row| == |cols|
    ensures |r| == |cols| && forall i :: 0 <= i < |cols| ==> r[i] == Kept(cols[i], row[i])
  {
    seq(|cols|, i requires 0 <= i < |cols| => Kept(cols[i], row[i]))
  }

  /** Reading the fields of a struct from what storage keeps of its datum vector gives the struct. */
  lemma CreateKept(e: Entry)
    requires InTypes(e)
    ensures Create(TabOf(e), KeptRow(SysCols(TabOf(e)), DatumVector(e))) == e
  {
    KeptU32(IdOf(e));
    KeptInt(NumberOf(e));
    match e
    case Table(_, sys, vlen, n, fid, _) =>
      KeptFlag(sys);
      KeptFlag(vlen);
      KeptInt(n);
      KeptU32(fid);
    case Type(_, len, vlen, byref, align, _, f, g, h) =>
      KeptInt(len);
      KeptFlag(vlen);
      KeptFlag(byref);
      KeptU8(align);
      KeptU32(f);
      KeptU32(g);
      KeptU32(h);
    case Column(_, _, arr, nullable, typ, param, _) =>
      KeptFlag(arr);
      KeptFlag(nullable);
      KeptU32(typ);
      KeptU64(param);
    case Index(_, tab, typ, uniq, n, fid, _) =>
      KeptU32(tab);
      KeptU8(typ);
      KeptFlag(uniq);
      KeptInt(n);
      KeptU32(fid);
    case IndexColumn(_, _, c, typ, nullable, param, f, g) =>
      KeptInt(c);
      KeptU32(typ);
      KeptFlag(nullable);
      KeptU64(param);
      KeptU32(f);
      KeptU32(g);
  }

  /** Reading back what was stored of a struct gives the struct. */
  lemma CreateStored(e: Entry)
    requires InTypes(e)
    ensures RowFor(SysCols(TabOf(e)), DatumVector(e))
    ensures Create(TabOf(e), StoredIn(SysCols(TabOf(e)), DatumVector(e))) == e
  {
    DatumKinds(e);
    StoredRowIs(SysCols(TabOf(e)), DatumVector(e));
    assert StoredIn(SysCols(TabOf(e)), DatumVector(e)) == KeptRow(SysCols(TabOf(e)), DatumVector(e));
    CreateKept(e);
  }

  // ---------------------------------------------------------------- files of entries

  /** The slot holds a record of the entry. */
  ghost predicate EntryHeld(t: nat, slot: seq<Byte>, e: Entry) {
    exists row :: Reads(SysCols(t), slot, row) && Create(t, row) == e
  }

  ghost predicate SlotHolds(t: nat, f: File, es: seq<Entry>, i: nat)
    requires WellFormed(f) && i < |es| == |f.offsets|
  {
    f.valid[i] && EntryHeld(t, Slot(f, i), es[i])
  }

  /** The file of the systable holds exactly the entries, in slot order. */
  ghost predicate FileHolds(t: nat, f: File, es: seq<Entry>) {
    WellFormed(f) && |es| == |f.offsets| &&
    forall i {:trigger SlotHolds(t, f, es, i)} :: 0 <= i < |es| ==> SlotHolds(t, f, es, i)
  }

  function NameOf(e: Entry): Str {
    match e
    case Table(_, _, _, _, _, name) => name
    case Type(_, _, _, _, _, name, _, _, _) => name
    case Column(_, _, _, _, _, _, name) => name
    case Index(_, _, _, _, _, _, name) => name
    case IndexColumn(_, _, _, _, _, _, _, _) => []
  }

  /** An entry that the writer handles: its fields are in range, and its name is short enough for the overflow check. */
  predicate Writable(e: Entry) {
    InTypes(e) && |NameOf(e)| <= 32761
  }

  /** What the writer makes of an entry. */
  function Encode(e: Entry): WResult
    requires InTypes(e)
  {
    SystablesUsable(TabOf(e));
    WriteRow(SysCols(TabOf(e)), DatumVector(e))
  }

  lemma NamesShort(cols: seq<Col>, row: Row)
    requires LayoutOf(cols).Some? && RightKinds(cols, row) && forall i :: 0 <= i < |row| && row[i].Ref? ==> |row[i].bytes| <= 32761
    ensures SizesUpTo(ViewOf(cols), RowPlaced(cols, row), 32761)
  {
    var V, ds := ViewOf(cols), RowPlaced(cols, row);
    forall k | V.nFixed <= k < |V.f| && !ds[k].Null?
      ensures DataLen(V.f[k], ds[k]) <= 32761
    {
      OrderAt(cols, k);
      var i := OrderOf(cols)[k];
      assert V.f[k] == FieldOf(cols, i) && ds[k] == row[i];
      StoredDatum(cols, i, row[i]);
      assert RightKind(cols[i], row[i]);
    }
  }

  lemma NameDatums(e: Entry)
    requires Writable(e)
    ensures forall i :: 0 <= i < |DatumVector(e)| && DatumVector(e)[i].Ref? ==> |DatumVector(e)[i].bytes| <= 32761
  {
  }

  /** An entry is too long for a record exactly if the unbounded length of its payload exceeds 32767. */
  lemma EncodeExact(e: Entry)
    requires Writable(e)
    ensures LayoutOf(SysCols(TabOf(e))).Some?
    ensures Encode(e).TooLong? <==> LengthOf(SysCols(TabOf(e)), DatumVector(e)) > I16_MAX
    ensures Encode(e).TooLong? || Encode(e).Wrote?
    ensures Encode(e).Wrote? ==> IsPayload(SysCols(TabOf(e)), DatumVector(e), Encode(e).payload)
  {
    var cols, row := SysCols(TabOf(e)), DatumVector(e);
    EntryFits(e);
    WriteRowExact(cols, row);
  }

  lemma EntryFits(e: Entry)
    requires Writable(e)
    ensures Usable(SysCols(TabOf(e))) && RowFor(SysCols(TabOf(e)), DatumVector(e))
    ensures SizesUpTo(ViewOf(SysCols(TabOf(e))), RowPlaced(SysCols(TabOf(e)), DatumVector(e)), 32761)
  {
    SystablesUsable(TabOf(e));
    CreateStored(e);
    NameDatums(e);
    DatumKinds(e);
    NamesShort(SysCols(TabOf(e)), DatumVector(e));
  }

  lemma DatumKinds(e: Entry)
    requires InTypes(e)
    ensures RightKinds(SysCols(TabOf(e)), DatumVector(e))
  {
  }

  /** The record of a written entry, in a slot of its own, reads back as the entry. */
  lemma EncodedHeld(e: Entry)
    requires Writable(e) && Encode(e).Wrote?
    ensures EntryHeld(TabOf(e), Padded(Encode(e).payload), e)
  {
    var cols, row, p := SysCols(TabOf(e)), DatumVector(e), Encode(e).payload;
    EncodeExact(e);
    CreateStored(e);
    PayloadReads(cols, row, p, Padded(p));
  }

  lemma AppendHolds(t: nat, f: File, es: seq<Entry>, e: Entry, p: seq<Byte>)
    requires FileHolds(t, f, es) && EntryHeld(t, Padded(p), e) && Append(f, p).Some?
    ensures FileHolds(t, Append(f, p).value, es + [e])
  {
    var g := Append(f, p).value;
    AppendSlots(f, p);
    forall i | 0 <= i < |es| + 1
      ensures SlotHolds(t, g, es + [e], i)
    {
      if i < |es| {
        assert SlotHolds(t, f, es, i);
      }
    }
  }
}
