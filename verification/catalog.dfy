/**
 The catalog cache of src/catalog/CatCacheBase_private.inc over in-memory files: searches with the record id
 cache, table descriptors built by re-entrant searches, id allocation and multi-row inserts.
 */
module Catalog {
  import opened Base
  import opened Codec
  import opened Layout
  import opened Records
  import opened Schemas
  import opened SlotFile
  import InitCatalog
  import opened Entries
  import opened EntryCodec
  import opened OidAllocation
  import opened Asked

  /** `TableDesc`: what is declared, the columns after the types have been looked up, and their layout. */
  datatype Desc = Desc(decl: Declared, cols: seq<Col>, layout: Option<Layout>)

  /** How `FindTableDesc` ends: with a descriptor, a null pointer, an error of the layout computation, or a fatal error. */
  datatype Lookup = Found(desc: Desc) | Missing | NoLayout | Fatal

  type RecId = (nat, nat)
  type Fids = map<nat, nat>

  predicate IsSystab(t: nat) {
    t == TAB_TABLE || t == TAB_TYPE || t == TAB_COLUMN || t == TAB_INDEX || t == TAB_INDEXCOLUMN
  }

  function Of(db: Db, t: nat): seq<Entry> {
    if t == TAB_TABLE then db.tables
    else if t == TAB_TYPE then db.types
    else if t == TAB_COLUMN then db.columns
    else if t == TAB_INDEX then db.indexes
    else db.idxcols
  }

  /** The catalog with entries appended to one systable. */
  function With(db: Db, t: nat, es: seq<Entry>): Db {
    if t == TAB_TABLE then db.(tables := db.tables + es)
    else if t == TAB_TYPE then db.(types := db.types + es)
    else if t == TAB_COLUMN then db.(columns := db.columns + es)
    else if t == TAB_INDEX then db.(indexes := db.indexes + es)
    else db.(idxcols := db.idxcols + es)
  }

  // ---------------------------------------------------------------- files and the record id cache

  /** Each systable has a file of its own. */
  ghost predicate FidsOk(fids: Fids) {
    && (forall t :: IsSystab(t) ==> t in fids && 2 <= fids[t] <= U32_MAX)
    && (forall t, u :: IsSystab(t) && IsSystab(u) && t != u ==> t in fids && u in fids && fids[t] != fids[u])
  }

  ghost predicate FileOk(files: seq<File>, db: Db, fids: Fids, t: nat) {
    t in fids && 2 <= fids[t] < |files| + 2 && FileHolds(t, files[fids[t] - 2], Of(db, t))
  }

  ghost predicate FilesOk(files: seq<File>, db: Db, fids: Fids) {
    FidsOk(fids) && forall t {:trigger FileOk(files, db, fids, t)} :: IsSystab(t) ==> FileOk(files, db, fids, t)
  }

  /** What the cache has under the id of a record is the entry that the record holds. */
  ghost predicate Cached(recids: map<RecId, Entry>, db: Db, fids: Fids, t: nat, sid: nat) {
    t in fids && ((fids[t], sid) in recids ==> sid < |Of(db, t)| && recids[(fids[t], sid)] == Of(db, t)[sid])
  }

  /** Cache coherence. */
  ghost predicate Coherent(recids: map<RecId, Entry>, db: Db, fids: Fids) {
    forall t, sid {:trigger Cached(recids, db, fids, t, sid)} :: IsSystab(t) && 0 <= sid ==> Cached(recids, db, fids, t, sid)
  }

  lemma CoherentInsert(recids: map<RecId, Entry>, db: Db, fids: Fids, t: nat, sid: nat)
    requires FidsOk(fids) && Coherent(recids, db, fids) && IsSystab(t) && sid < |Of(db, t)|
    ensures Coherent(recids[(fids[t], sid) := Of(db, t)[sid]], db, fids)
  {
    var recids' := recids[(fids[t], sid) := Of(db, t)[sid]];
    forall u: nat, s: nat | IsSystab(u)
      ensures Cached(recids', db, fids, u, s)
    {
      assert Cached(recids, db, fids, u, s);
    }
  }

  lemma CoherentAppend(recids: map<RecId, Entry>, db: Db, fids: Fids, t: nat, e: Entry)
    requires Coherent(recids, db, fids) && IsSystab(t)
    ensures Coherent(recids, With(db, t, [e]), fids)
  {
    forall u: nat, s: nat | IsSystab(u)
      ensures Cached(recids, With(db, t, [e]), fids, u, s)
    {
      assert Cached(recids, db, fids, u, s);
    }
  }

  lemma FilesAppend(files: seq<File>, db: Db, fids: Fids, t: nat, e: Entry, p: seq<Byte>)
    requires FilesOk(files, db, fids) && IsSystab(t) && EntryHeld(t, Padded(p), e)
    ensures t in fids && 2 <= fids[t] < |files| + 2
    ensures Append(files[fids[t] - 2], p).Some? ==>
              FilesOk(files[fids[t] - 2 := Append(files[fids[t] - 2], p).value], With(db, t, [e]), fids)
  {
    assert FileOk(files, db, fids, t);
    var f := files[fids[t] - 2];
    if Append(f, p).Some? {
      AppendHolds(t, f, Of(db, t), e, p);
      FilesChange(files, db, fids, t, e, Append(f, p).value);
    }
  }

  lemma FilesChange(files: seq<File>, db: Db, fids: Fids, t: nat, e: Entry, f: File)
    requires FilesOk(files, db, fids) && IsSystab(t) && t in fids && 2 <= fids[t] < |files| + 2
    requires FileHolds(t, f, Of(db, t) + [e])
    ensures FilesOk(files[fids[t] - 2 := f], With(db, t, [e]), fids)
  {
    var files' := files[fids[t] - 2 := f];
    forall u: nat | IsSystab(u)
      ensures FileOk(files', With(db, t, [e]), fids, u)
    {
      assert FileOk(files, db, fids, u);
    }
  }

  // ---------------------------------------------------------------- types and descriptors

  predicate Aligns(x: nat) { x == 1 || x == 2 || x == 4 || x == 8 }

  /** The row is one that Type.dat may contain. */
  predicate TypeFits(e: Entry) {
    e.Type? && -1 <= e.typlen <= I16_MAX && Aligns(e.typalign) && TypeOk(InfoOf(e))
  }

  function InfoOf(e: Entry): TypeInfo
    requires e.Type? && -1 <= e.typlen <= I16_MAX && Aligns(e.typalign)
  {
    TypeInfo(e.typlen, e.typalign, e.typisvarlen, e.typbyref, e.typlenfunc != INVALID_OID)
  }

  /** The column that a type row gives, unless computing its length raises an error. */
  function TypeCol(e: Entry, param: nat, nullable: bool): Option<Col>
    requires TypeFits(e)
  {
    if LengthRaises(InfoOf(e), param) then None else Some(ColOf(InfoOf(e), param, nullable))
  }

  function FindCol(types: seq<Entry>, typid: nat, param: nat, nullable: bool): Option<Col> {
    match First(types, typid)
    case None => None
    case Some(i) => if TypeFits(types[i]) then TypeCol(types[i], param, nullable) else None
  }

  ghost predicate ColIs(types: seq<Entry>, d: Declared, cols: seq<Col>, i: nat)
    requires Lengths(d, |d.typids|) && i < |d.typids| && i < |cols|
  {
    FindCol(types, d.typids[i], d.typparams[i], d.nullables[i]) == Some(cols[i])
  }

  /** The columns are those of the declared types. */
  ghost predicate ColsAre(types: seq<Entry>, d: Declared, cols: seq<Col>) {
    Lengths(d, |d.typids|) && |cols| <= |d.typids| &&
    forall i {:trigger ColIs(types, d, cols, i)} :: 0 <= i < |cols| ==> ColIs(types, d, cols, i)
  }

  /** The layout is that of the columns. */
  ghost predicate LayoutIs(desc: Desc) {
    forall k {:trigger Key(k, desc)} :: Key(k, desc) ==> desc.layout == LayoutOf(desc.cols)
  }

  /** The descriptor is the one that the catalog describes. */
  ghost predicate DescOk(db: Db, id: nat, desc: Desc) {
    && Describes(db, id, desc.decl) && ColsAre(db.types, desc.decl, desc.cols) && |desc.cols| == |desc.decl.typids|
    && LayoutIs(desc)
  }

  /** How the table's column is stored, by the row of its type. */
  ghost predicate ColumnStored(types: seq<Entry>, d: Declared, cols: seq<Col>, i: nat) {
    && i < |cols| && i < |d.typids| && i < |d.typparams| && i < |d.nullables|
    && First(types, d.typids[i]).Some? && types[First(types, d.typids[i]).value].Type? &&
    var t, c := types[First(types, d.typids[i]).value], cols[i];
    && c.nullable == d.nullables[i] && c.align == t.typalign
    && (t.typisvarlen ==> c.len == -1 && c.byref)
    && (!t.typisvarlen ==> c.byref == t.typbyref && c.len == if t.typlenfunc != INVALID_OID then d.typparams[i] else t.typlen)
  }

  ghost predicate ColumnsStored(types: seq<Entry>, d: Declared, cols: seq<Col>) {
    |cols| == |d.typids| && forall i {:trigger cols[i]} :: 0 <= i < |cols| ==> ColumnStored(types, d, cols, i)
  }

  /** The columns of a descriptor are stored as their types say. */
  lemma DescStored(db: Db, id: nat, desc: Desc)
    requires DescOk(db, id, desc)
    ensures ColumnsStored(db.types, desc.decl, desc.cols)
  {
    forall i | 0 <= i < |desc.cols|
      ensures ColumnStored(db.types, desc.decl, desc.cols, i)
    {
      assert ColIs(db.types, desc.decl, desc.cols, i);
    }
  }

  ghost predicate DescAt(descs: map<nat, Desc>, db: Db, id: nat) {
    id in descs ==> DescOk(db, id, descs[id])
  }

  /** The descriptor of a systable gives its file and its columns. */
  predicate SysDesc(desc: Desc, fids: Fids, t: nat) {
    t in fids && desc.decl.table.Table? && desc.decl.table.tabfid == fids[t] && desc.cols == SysCols(t)
  }

  predicate SysDescAt(descs: map<nat, Desc>, fids: Fids, t: nat) {
    t in descs ==> SysDesc(descs[t], fids, t)
  }

  ghost predicate ColumnIs(types: seq<Entry>, t: nat, c: Entry) {
    && c.Column? && 0 <= c.colid < |SysCols(t)|
    && FindCol(types, c.coltypid, c.coltypparam, c.colisnullable) == Some(SysCols(t)[c.colid])
  }

  predicate SysTable(e: Entry, fid: nat, n: int) {
    e.Table? && e.tabfid == fid && e.tabncols == n
  }

  /** The catalog describes its own systables. */
  ghost predicate SysOk(db: Db, fids: Fids, t: nat) {
    && t in fids && First(db.tables, t).Some?
    && SysTable(db.tables[First(db.tables, t).value], fids[t], |SysCols(t)|)
    && forall k {:trigger Matches(db.columns, t)[k]} :: 0 <= k < |Matches(db.columns, t)| ==>
         ColumnIs(db.types, t, Matches(db.columns, t)[k])
  }

  ghost predicate TypesFit(types: seq<Entry>) {
    forall i {:trigger types[i]} :: 0 <= i < |types| ==> TypeFits(types[i])
  }

  /** Every cached descriptor is the described one; those that searches start from are cached. */
  ghost predicate Descs(descs: map<nat, Desc>, db: Db, fids: Fids) {
    && (forall id: nat {:trigger DescAt(descs, db, id)} :: DescAt(descs, db, id))
    && (forall t {:trigger SysDescAt(descs, fids, t)} :: IsSystab(t) ==> SysDescAt(descs, fids, t))
    && (forall t {:trigger SysOk(db, fids, t)} :: IsSystab(t) ==> SysOk(db, fids, t))
    && TAB_TABLE in descs && TAB_TYPE in descs && TAB_COLUMN in descs && TypesFit(db.types)
  }

  /** The described columns of a systable are its columns. */
  lemma SysCovered(db: Db, fids: Fids, t: nat, desc: Desc)
    requires IsSystab(t) && TablesOk(db) && SysOk(db, fids, t) && DescOk(db, t, desc)
    ensures SysDesc(desc, fids, t)
  {
    assert TableOk(db, First(db.tables, t).value);
    var cs, n := Matches(db.columns, t), |SysCols(t)|;
    forall x: nat | x < n
      ensures desc.cols[x] == SysCols(t)[x]
    {
      var k := NumberedFinds(cs, n, x);
      assert ColumnIs(db.types, t, cs[k]) && ColumnDescribed(desc.decl, cs[k]) && ColIs(db.types, desc.decl, desc.cols, x);
    }
  }

  lemma DescsInsert(descs: map<nat, Desc>, db: Db, fids: Fids, id: nat, desc: Desc)
    requires Descs(descs, db, fids) && DescOk(db, id, desc) && TablesOk(db)
    ensures Descs(descs[id := desc], db, fids)
  {
    var descs' := descs[id := desc];
    forall i: nat
      ensures DescAt(descs', db, i)
    {
      assert DescAt(descs, db, i);
    }
    forall t: nat | IsSystab(t)
      ensures SysDescAt(descs', fids, t)
    {
      assert SysDescAt(descs, fids, t) && SysOk(db, fids, t);
      if t == id {
        SysCovered(db, fids, t, desc);
      }
    }
  }

  /** Descriptors stay right while the catalog grows by entries for new ids. */
  lemma DescsExtend(descs: map<nat, Desc>, db: Db, fids: Fids, next: nat, db': Db)
    requires Descs(descs, db, fids) && Below(db.tables, next) && Extends(db, next, db') && FIRST_OID <= next
    ensures Descs(descs, db', fids)
  {
    forall id: nat
      ensures DescAt(descs, db', id)
    {
      assert DescAt(descs, db, id);
      if id in descs {
        DescriptionStays(db, next, db', id, descs[id].decl);
      }
    }
    forall t: nat | IsSystab(t)
      ensures SysOk(db', fids, t)
    {
      assert SysOk(db, fids, t) && t < next;
    }
  }

  // ---------------------------------------------------------------- reading one record

  /** `GetField` of the id column. */
  method ReadId(cols: seq<Col>, slot: seq<Byte>, ghost t: nat, ghost e: Entry) returns (id: nat)
    requires cols == SysCols(t) && EntryHeld(t, slot, e)
    ensures id == IdOf(e)
  {
    ghost var row :| Reads(cols, slot, row) && Create(t, row) == e;
    ghost var p := ReadsPayload(cols, slot, row);
    id := U32(FieldIn(cols, slot, 0));
  }

  /** `DissemblePayload` and `CreateSysTableStruct`. */
  method ReadEntry(t: nat, cols: seq<Col>, slot: seq<Byte>, ghost e: Entry) returns (r: Entry)
    requires cols == SysCols(t) && EntryHeld(t, slot, e)
    ensures r == e
  {
    ghost var row :| Reads(cols, slot, row) && Create(t, row) == e;
    ghost var p := ReadsPayload(cols, slot, row);
    r := Create(t, RowIn(cols, slot));
  }

  lemma MatchesStep(es: seq<Entry>, id: nat, n: nat)
    requires n < |es|
    ensures Matches(es[..n + 1], id) == Matches(es[..n], id) + if IdOf(es[n]) == id then [es[n]] else []
    ensures Matches(es[..n + 1], id) <= Matches(es, id)
  {
    assert es[..n + 1][..n] == es[..n];
    MatchesAppend(es[..n + 1], es[n + 1..], id);
    assert es[..n + 1] + es[n + 1..] == es;
  }

  /** What a search for a unique entry finds. */
  function FirstEntry(es: seq<Entry>, id: nat): Option<Entry> {
    match First(es, id)
    case None => None
    case Some(i) => Some(es[i])
  }

  lemma {:induction false} FirstStops(es: seq<Entry>, id: nat, n: nat)
    requires n < |es| && First(es[..n], id).None? && IdOf(es[n]) == id
    ensures First(es, id) == Some(n)
  {
    assert es[..n + 1][..n] == es[..n];
    assert First(es[..n + 1], id) == Some(n);
    FirstAppend(es[..n + 1], es[n + 1..], id);
    assert es[..n + 1] + es[n + 1..] == es;
  }

  // ---------------------------------------------------------------- building a descriptor

  /** The first `k` column rows are described. */
  ghost predicate FirstDescribed(d: Declared, columns: seq<Entry>, k: nat) {
    Lengths(d, |columns|) && k <= |columns| && forall j {:trigger columns[j]} :: 0 <= j < k ==> ColumnDescribed(d, columns[j])
  }

  lemma DescribeStep(d: Declared, columns: seq<Entry>, k: nat, d': Declared)
    requires FirstDescribed(d, columns, k) && k < |columns| && Numbered(columns, |columns|) && columns[k].Column?
    requires var c := columns[k];
      d' == Declared(d.table, d.typids[c.colid := c.coltypid], d.typparams[c.colid := c.coltypparam],
                     d.nullables[c.colid := c.colisnullable], d.names[c.colid := c.colname])
    ensures FirstDescribed(d', columns, k + 1)
  {
    forall j | 0 <= j < k
      ensures ColumnDescribed(d', columns[j])
    {
      assert NumberOf(columns[j]) != NumberOf(columns[k]) && ColumnDescribed(d, columns[j]);
    }
  }

  /** `TableDesc::Create`: the column rows are scattered into vectors by column id, whatever their order. */
  method CreateDeclared(table: Entry, columns: seq<Entry>) returns (d: Option<Declared>)
    requires table.Table? && Numbered(columns, |columns|)
    requires forall k {:trigger columns[k]} :: 0 <= k < |columns| ==> columns[k].Column? && columns[k].coltabid == table.tabid
    ensures d.Some? <==> columns != []
    ensures d.Some? ==> d.value.table == table && Lengths(d.value, |columns|) && AllDescribed(d.value, columns)
  {
    if columns == [] {
      return None;
    }
    var n := |columns|;
    var typid, typparam := new nat[n](_ => 0), new nat[n](_ => 0);
    var isnullable, names := new bool[n](_ => false), new Str[n](_ => []);
    for k := 0 to n
      invariant FirstDescribed(Declared(table, typid[..], typparam[..], isnullable[..], names[..]), columns, k)
    {
      var col := columns[k];
      if col.coltabid != table.tabid {
        return None;
      }
      ghost var before := Declared(table, typid[..], typparam[..], isnullable[..], names[..]);
      typid[col.colid], typparam[col.colid] := col.coltypid, col.coltypparam;
      isnullable[col.colid], names[col.colid] := col.colisnullable, col.colname;
      DescribeStep(before, columns, k, Declared(table, typid[..], typparam[..], isnullable[..], names[..]));
    }
    d := Some(Declared(table, typid[..], typparam[..], isnullable[..], names[..]));
  }

  method LayOut(d: Declared, cols: seq<Col>) returns (desc: Desc)
    ensures desc.decl == d && desc.cols == cols && LayoutIs(desc)
  {
    desc := Desc(d, cols, LayoutOf(cols));
  }

  /** No column of the table has a type whose length cannot be computed. */
  ghost predicate LengthsKnown(db: Db, id: nat) {
    forall k {:trigger Matches(db.columns, id)[k]} :: 0 <= k < |Matches(db.columns, id)| ==>
      LengthKnown(db.types, Matches(db.columns, id)[k])
  }

  ghost predicate LengthKnown(types: seq<Entry>, c: Entry) {
    c.Column? && FindCol(types, c.coltypid, c.coltypparam, c.colisnullable).Some?
  }

  /** What integrity says about the columns of a table. */
  lemma ColumnsOf(db: Db, id: nat)
    requires TablesOk(db) && ColumnsOk(db) && First(db.tables, id).Some?
    ensures var t := db.tables[First(db.tables, id).value]; t.Table? && t.tabid == id && 1 <= t.tabncols <= I16_MAX
    ensures var t := db.tables[First(db.tables, id).value]; Numbered(Matches(db.columns, id), t.tabncols)
    ensures forall k {:trigger Matches(db.columns, id)[k]} :: 0 <= k < |Matches(db.columns, id)| ==>
              var c := Matches(db.columns, id)[k]; c.Column? && c.coltabid == id && First(db.types, c.coltypid).Some?
  {
    assert TableOk(db, First(db.tables, id).value);
    forall k | 0 <= k < |Matches(db.columns, id)|
      ensures var c := Matches(db.columns, id)[k]; c.Column? && c.coltabid == id && First(db.types, c.coltypid).Some?
    {
      var i := MatchesFrom(db.columns, id, k);
      assert ColumnOk(db, i);
    }
  }

  lemma LengthUnknown(db: Db, id: nat, d: Declared, i: nat)
    requires TablesOk(db) && Describes(db, id, d) && i < |d.typids|
    requires FindCol(db.types, d.typids[i], d.typparams[i], d.nullables[i]).None?
    ensures !LengthsKnown(db, id)
  {
    assert TableOk(db, First(db.tables, id).value);
    var k := NumberedFinds(Matches(db.columns, id), d.table.tabncols, i);
    assert ColumnDescribed(d, Matches(db.columns, id)[k]);
    assert !LengthKnown(db.types, Matches(db.columns, id)[k]);
  }

  lemma LengthsAllKnown(db: Db, id: nat, d: Declared, cols: seq<Col>)
    requires Describes(db, id, d) && ColsAre(db.types, d, cols) && |cols| == |d.typids|
    ensures LengthsKnown(db, id)
  {
    forall k | 0 <= k < |Matches(db.columns, id)|
      ensures LengthKnown(db.types, Matches(db.columns, id)[k])
    {
      assert ColumnDescribed(d, Matches(db.columns, id)[k]) && ColIs(db.types, d, cols, Matches(db.columns, id)[k].colid);
    }
  }

  lemma SysLengthsKnown(db: Db, fids: Fids, t: nat)
    requires SysOk(db, fids, t)
    ensures LengthsKnown(db, t)
  {
    forall k | 0 <= k < |Matches(db.columns, t)|
      ensures LengthKnown(db.types, Matches(db.columns, t)[k])
    {
      assert ColumnIs(db.types, t, Matches(db.columns, t)[k]);
    }
  }

  lemma ColsAreStep(types: seq<Entry>, d: Declared, cols: seq<Col>, c: Col)
    requires ColsAre(types, d, cols) && |cols| < |d.typids|
    requires FindCol(types, d.typids[|cols|], d.typparams[|cols|], d.nullables[|cols|]) == Some(c)
    ensures ColsAre(types, d, cols + [c])
  {
    forall i | 0 <= i <= |cols|
      ensures ColIs(types, d, cols + [c], i)
    {
      if i < |cols| {
        assert ColIs(types, d, cols, i);
      }
    }
  }

  // ---------------------------------------------------------------- inserting

  /** The record of the entry is not too long. */
  ghost predicate Fits(e: Entry) {
    Writable(e) && forall k {:trigger Key(k, e)} :: Key(k, e) ==> RecordFits(e)
  }

  ghost predicate RecordFits(e: Entry)
    requires InTypes(e)
  {
    LayoutOf(SysCols(TabOf(e))).Some? && LengthOf(SysCols(TabOf(e)), DatumVector(e)) <= I16_MAX
  }

  /** Encoding of an entry; nothing if the record would be too long. */
  method WriteEntry(cols: seq<Col>, e: Entry) returns (rec: Option<seq<Byte>>)
    requires Writable(e) && cols == SysCols(TabOf(e))
    ensures rec.Some? <==> Fits(e)
    ensures rec.Some? ==> EntryHeld(TabOf(e), Padded(rec.value), e)
  {
    EncodeExact(e);
    assert Key(0, e);
    var w := WriteRow(cols, DatumVector(e));
    if w.TooLong? {
      return None;
    }
    EncodedHeld(e);
    rec := Some(w.payload);
  }

  ghost predicate ForSystab(t: nat, es: seq<Entry>) {
    forall k {:trigger es[k]} :: 0 <= k < |es| ==> Writable(es[k]) && TabOf(es[k]) == t
  }

  /** All records can be appended: none is too long, and there are slots for them. */
  ghost predicate Insertable(db: Db, t: nat, es: seq<Entry>) {
    |Of(db, t)| + |es| <= MAX_SLOTS && AllFit(es, |es|)
  }

  ghost predicate AllFit(es: seq<Entry>, n: nat)
    requires n <= |es|
  {
    forall k {:trigger es[k]} :: 0 <= k < n ==> Fits(es[k])
  }

  lemma WithNone(db: Db, t: nat)
    ensures With(db, t, []) == db
  {
  }

  lemma WithStep(db: Db, t: nat, es: seq<Entry>, k: nat)
    requires k < |es|
    ensures With(With(db, t, es[..k]), t, [es[k]]) == With(db, t, es[..k + 1])
    ensures |Of(With(db, t, es[..k]), t)| == |Of(db, t)| + k
  {
    assert es[..k + 1] == es[..k] + [es[k]];
  }

  lemma AppendExtends(db: Db, next: nat, t: nat, es: seq<Entry>, id: nat)
    requires IsSystab(t) && t != TAB_TYPE && AllOf(es, id) && next <= id
    ensures Extends(db, next, With(db, t, es))
  {
    var db' := With(db, t, es);
    forall o: nat | o < next
      ensures First(db'.tables, o) == First(db.tables, o) && Matches(db'.columns, o) == Matches(db.columns, o)
      ensures First(db'.indexes, o) == First(db.indexes, o) && Matches(db'.idxcols, o) == Matches(db.idxcols, o)
    {
      ScansExtend(Of(db, t), es, o, id);
    }
  }

  // ---------------------------------------------------------------- the arguments of AddTable and AddIndex

  /**
   How an operation ends: with the new id, with an error that changes nothing, with a negative column count after the
   id has been taken, fatally, or outside the model.
   */
  datatype AddResult = Added(id: nat) | Refused | TooWide | Aborted | LongName | OutOfBounds | NullFunction

  function Decimal(n: nat): Str {
    if n < 10 then [48 + n] else Decimal(n / 10) + [48 + n % 10]
  }

  /** The default name of column `i`: `col_` and its number. */
  function ColumnName(i: nat): Str {
    [99, 111, 108, 95] + Decimal(i)
  }

  lemma {:induction false} DecimalExactly(n: nat)
    ensures DigitsOf(Decimal(n), n) && |Decimal(n)| >= 1 && (n > 0 ==> Decimal(n)[0] != 48)
  {
    if n < 10 {
      assert Decimal(n)[..0] == [];
    } else {
      var front := Decimal(n / 10);
      DecimalExactly(n / 10);
      assert Decimal(n)[..|Decimal(n)| - 1] == front;
    }
  }

  lemma NameIsDefault(i: nat)
    ensures DefaultName(ColumnName(i), i)
  {
    DecimalExactly(i);
    assert ColumnName(i)[4..] == Decimal(i);
  }

  /** The arguments with the defaults filled in for `n` columns. */
  function Filled(a: TableArgs, n: int): TableArgs {
    var m := if n > 0 then n else 0;
    a.(typparams := if a.typparams == [] then seq(m, i => 0) else a.typparams,
       names := if a.names == [] then seq(m, i requires 0 <= i => ColumnName(i)) else a.names,
       nullables := if a.nullables == [] then seq(m, i => true) else a.nullables,
       arrays := if a.arrays == [] then seq(m, i => false) else a.arrays)
  }

  /** A vector of the wrong size. An empty one is resized to `n` entries, which fails if `n` is negative. */
  predicate Disagrees(size: nat, n: int) {
    if size == 0 then n < 0 else I16(size) != n
  }

  /** The arguments `AddTable` refuses. The number of columns is the number of types cut to 16 bits. */
  predicate BadTable(a: TableArgs) {
    var n := I16(|a.typids|);
    || a.fid == 0 || |a.typids| == 0 || |a.typids| > 0xffff
    || Disagrees(|a.typparams|, n) || (a.names != [] && I16(|a.names|) != n)
    || Disagrees(|a.nullables|, n) || Disagrees(|a.arrays|, n)
  }

  lemma Narrowed(size: nat)
    ensures I16(size) <= size
    ensures 0 < size <= 0xffff ==> I16(size) == if size <= I16_MAX then size else size - 0x1_0000
  {
  }

  lemma FilledFits(a: TableArgs)
    requires !BadTable(a)
    ensures I16(|a.typids|) > 0 ==> ArgsFit(Filled(a, I16(|a.typids|)), I16(|a.typids|))
    ensures I16(|a.typids|) > 0 <==> |a.typids| <= I16_MAX
  {
    Narrowed(|a.typids|);
    Narrowed(|a.typparams|);
    Narrowed(|a.names|);
    Narrowed(|a.nullables|);
    Narrowed(|a.arrays|);
  }

  lemma FilledAsked(a: TableArgs, id: nat, n: nat, i: nat)
    requires !BadTable(a) && n == |a.typids| <= I16_MAX && i < n && ArgsFit(Filled(a, n), n)
    ensures ColumnAsked(a, id, i, NewColumn(id, Filled(a, n), i))
  {
    NameIsDefault(i);
  }

  /** The rows that `AddTable` adds are those that it was asked for. */
  lemma AskedTableRows(db: Db, id: nat, a: TableArgs, n: nat)
    requires !BadTable(a) && n == |a.typids| <= I16_MAX && ArgsFit(Filled(a, n), n)
    ensures TableRowsAdded(db, id, a, WithTable(db, id, Filled(a, n), n))
  {
    var cs := NewColumns(id, Filled(a, n), n);
    assert WithTable(db, id, Filled(a, n), n).columns[|db.columns|..] == cs;
    forall i | 0 <= i < n
      ensures ColumnAsked(a, id, i, cs[i])
    {
      FilledAsked(a, id, n, i);
    }
  }

  /** The arguments are values of their C++ types. */
  predicate TableArgsTyped(a: TableArgs) {
    && a.fid <= U32_MAX && (forall i {:trigger a.typids[i]} :: 0 <= i < |a.typids| ==> a.typids[i] <= U32_MAX)
    && (forall i {:trigger a.typparams[i]} :: 0 <= i < |a.typparams| ==> a.typparams[i] < U64)
  }

  predicate ShortName(name: Str) { |name| <= 32761 }

  predicate ShortNames(a: TableArgs) {
    ShortName(a.name) && forall i {:trigger a.names[i]} :: 0 <= i < |a.names| ==> ShortName(a.names[i])
  }

  lemma {:induction false} DecimalShort(n: nat, digits: nat, bound: nat)
    requires n < bound && ((digits == 1 && bound == 10) || (digits == 2 && bound == 100) || (digits == 3 && bound == 1000)
                           || (digits == 4 && bound == 10000) || (digits == 5 && bound == 100000))
    ensures |Decimal(n)| <= digits
  {
    if n >= 10 {
      DecimalShort(n / 10, digits - 1, bound / 10);
    }
  }

  /** Default names are short, so only names that are given can be too long. */
  lemma FilledShort(a: TableArgs, n: int)
    requires n <= I16_MAX
    ensures ShortNames(Filled(a, n)) <==> ShortNames(a)
    ensures a.names == [] ==> forall i {:trigger Filled(a, n).names[i]} :: 0 <= i < |Filled(a, n).names| ==> |Filled(a, n).names[i]| <= 9
  {
    if a.names == [] {
      forall i | 0 <= i < |Filled(a, n).names|
        ensures |Filled(a, n).names[i]| <= 9
      {
        DecimalShort(i, 5, 100000);
      }
    }
  }

  /** When `AddTable` ends in an ordinary error. */
  predicate RefusesTable(db: Db, next: nat, a: TableArgs) {
    Narrowed(|a.typids|);
    BadTable(a) || !TypesExist(db, a.typids, I16(|a.typids|)) || next > MAX_OID
  }

  predicate SameCount(size: nat, n: nat) { size % 0x1_0000 == n }

  /** A vector has one entry for each of the `n` columns, counted modulo 65536, or is empty and can be resized. */
  predicate Agrees(size: nat, n: nat) {
    if size == 0 then n <= 32767 else SameCount(size, n)
  }

  lemma AgreesExactly(size: nat, n: nat)
    requires 1 <= n <= 65535
    ensures Disagrees(size, I16(n)) <==> !Agrees(size, n)
    ensures size > 0 ==> (I16(size) == I16(n) <==> SameCount(size, n))
  {
    Narrowed(n);
  }

  predicate Unknown(types: seq<Entry>, typid: nat) {
    forall k :: 0 <= k < |types| ==> IdOf(types[k]) != typid
  }

  /**
   What `AddTable` refuses: no file, no columns or too many of them, a vector of another size, a type that does not exist
   (which is looked for only with at most 32767 columns), and a used-up counter.
   */
  lemma RefusesExactly(db: Db, next: nat, a: TableArgs)
    ensures RefusesTable(db, next, a) <==>
              || a.fid == 0 || !(1 <= |a.typids| <= 65535) || next > 0xffff_fffe
              || !Agrees(|a.typparams|, |a.typids|) || !Agrees(|a.nullables|, |a.typids|) || !Agrees(|a.arrays|, |a.typids|)
              || !(a.names == [] || SameCount(|a.names|, |a.typids|))
              || (|a.typids| <= 32767 &&
                  exists i {:trigger a.typids[i]} :: 0 <= i < |a.typids| && Unknown(db.types, a.typids[i]))
  {
    Narrowed(|a.typids|);
    if 1 <= |a.typids| <= 65535 {
      AgreesExactly(|a.typparams|, |a.typids|);
      AgreesExactly(|a.nullables|, |a.typids|);
      AgreesExactly(|a.arrays|, |a.typids|);
      AgreesExactly(|a.names|, |a.typids|);
    }
  }

  /**
   With more than 32767 columns the types are not looked up, and nothing but a vector of another size (modulo 65536),
   a missing file or a used-up counter stops `AddTable` before it takes an id.
   */
  lemma WideTakesId(db: Db, next: nat, a: TableArgs)
    requires I16_MAX < |a.typids| <= 0xffff
    ensures RefusesTable(db, next, a) <==>
              || a.fid == 0 || next > MAX_OID || (a.names != [] && !SameCount(|a.names|, |a.typids|))
              || !SameCount(|a.typparams|, |a.typids|) || !SameCount(|a.nullables|, |a.typids|)
              || !SameCount(|a.arrays|, |a.typids|)
  {
    Narrowed(|a.typids|);
  }

  /** 32768 columns of any types, with a file and everything else left to the defaults that agree with them. */
  function WideCall(name: Str, types: seq<nat>, fid: nat): TableArgs {
    TableArgs(name, types, seq(|types|, i => 0), [], seq(|types|, i => true), seq(|types|, i => false), fid)
  }

  /** Such a call takes an id, whether the types exist or not. */
  lemma WideCallTakesId(db: Db, next: nat, name: Str, types: seq<nat>, fid: nat)
    requires |types| == 32768 && fid != 0 && next <= MAX_OID
    ensures !RefusesTable(db, next, WideCall(name, types, fid))
  {
    WideTakesId(db, next, WideCall(name, types, fid));
  }

  lemma TableWritable(id: nat, a: TableArgs, n: nat)
    requires id <= MAX_OID && TableArgsTyped(a) && ShortNames(a) && n <= I16_MAX && ArgsFit(a, n)
    ensures ForSystab(TAB_TABLE, [NewTable(id, a, n)]) && ForSystab(TAB_COLUMN, NewColumns(id, a, n))
  {
    forall k | 0 <= k < n
      ensures Writable(NewColumns(id, a, n)[k]) && TabOf(NewColumns(id, a, n)[k]) == TAB_COLUMN
    {
      assert a.typids[k] <= U32_MAX && a.typparams[k] < U64 && ShortName(a.names[k]);
    }
  }

  /** All records of the new table can be appended. */
  ghost predicate TableInsertable(db: Db, id: nat, a: TableArgs, n: nat)
    requires ArgsFit(a, n)
  {
    Insertable(db, TAB_TABLE, [NewTable(id, a, n)]) && Insertable(db, TAB_COLUMN, NewColumns(id, a, n))
  }

  /** All records of the new index can be appended. */
  ghost predicate IndexInsertable(db: Db, id: nat, x: IndexArgs, d: Declared)
    requires IndexArgsFit(x, d)
  {
    Insertable(db, TAB_INDEX, [NewIndex(id, x)]) && Insertable(db, TAB_INDEXCOLUMN, NewKeys(id, x, d))
  }

  datatype KeyOps = Ops(eq: nat, lt: nat) | Failed(fault: Fault)

  /** The function asked for, or the operator of the type. */
  function Chosen(asked: nat, typ: nat, found: Oid): (r: Option<nat>)
    ensures r.Some? && asked <= U32_MAX ==> r.value <= U32_MAX
  {
    if asked != INVALID_OID then Some(asked) else if typ == INVALID_OID || found == INVALID_OID then None else Some(found)
  }

  /** The check that a function is an operator for a type. Its error message needs the row even if there is none. */
  function FunctionFault(ops: Operators, id: nat, typ: nat): Option<Fault> {
    match ops.rows(id)
    case None => Some(NullRow)
    case Some(f) => if f.nargs == 2 && f.returnsBool && f.arg0 == Some(typ) && f.arg1 == Some(typ) then None else Some(Refusal)
  }

  /** The comparison functions for a key column of a type, given the ones the caller asked for. */
  function OpsFor(ops: Operators, typ: nat, eq: nat, lt: nat): (r: KeyOps)
    ensures r.Ops? && eq <= U32_MAX && lt <= U32_MAX ==> r.eq <= U32_MAX && r.lt <= U32_MAX
  {
    match (Chosen(eq, typ, ops.equal(typ)), Chosen(lt, typ, ops.less(typ)))
    case (Some(e), Some(l)) =>
      var first, second := FunctionFault(ops, e, typ), FunctionFault(ops, l, typ);
      if first.Some? then Failed(first.value) else if second.Some? then Failed(second.value) else Ops(e, l)
    case _ => Failed(Refusal)
  }

  /** `std::vector::resize` with `InvalidOid`. */
  function Sized(v: seq<nat>, n: nat): (r: seq<nat>)
    ensures |r| == n
  {
    if |v| >= n then v[..n] else v + seq(n - |v|, i => INVALID_OID)
  }

  /** One pair of functions for each key column. */
  function SizedKeys(x: IndexArgs): (r: IndexArgs)
    ensures |r.eqs| == |r.lts| == |r.colids| && r.colids == x.colids
  {
    x.(eqs := Sized(x.eqs, |x.colids|), lts := Sized(x.lts, |x.colids|))
  }

  /** The outcome for the key columns: the functions of each, or what is wrong with the first bad one. */
  datatype KeyCheck = KeysGood(eqs: seq<nat>, lts: seq<nat>) | KeyBad(fault: Fault)

  /** What the loop does about key column `i`. A negative column number is not refused. */
  function KeyOpsAt(x: IndexArgs, d: Declared, ops: Operators, i: nat): KeyOps
    requires i < |x.colids| && i < |x.eqs| && i < |x.lts|
  {
    var c := x.colids[i];
    if c >= |d.typids| then Failed(Refusal)
    else if c < 0 then Failed(OutsideColumns)
    else OpsFor(ops, d.typids[c], x.eqs[i], x.lts[i])
  }

  /** What the loop over the first `n` key columns finds. */
  function CheckKeys(x: IndexArgs, d: Declared, ops: Operators, n: nat): (r: KeyCheck)
    requires n <= |x.colids| && n <= |x.eqs| && n <= |x.lts|
    ensures r.KeysGood? ==> |r.eqs| == |r.lts| == n
  {
    if n == 0 then KeysGood([], [])
    else match CheckKeys(x, d, ops, n - 1)
      case KeyBad(fault) => KeyBad(fault)
      case KeysGood(eqs, lts) =>
        match KeyOpsAt(x, d, ops, n - 1)
        case Failed(fault) => KeyBad(fault)
        case Ops(eq, lt) => KeysGood(eqs + [eq], lts + [lt])
  }

  ghost predicate GoodBelow(x: IndexArgs, d: Declared, ops: Operators, n: nat) {
    forall i {:trigger KeyAccepted(x, d, ops, i)} :: 0 <= i < n ==> KeyAccepted(x, d, ops, i)
  }

  /** The first of the first `n` key columns that is not accepted has this fault. */
  ghost predicate BadFirst(x: IndexArgs, d: Declared, ops: Operators, n: nat, fault: Fault) {
    exists i: nat {:trigger KeyFault(x, d, ops, i, fault)} :: i < n && GoodBelow(x, d, ops, i) && KeyFault(x, d, ops, i, fault)
  }

  /** The functions of key column `i` are the ones to use. */
  predicate KeyFound(x: IndexArgs, d: Declared, ops: Operators, eqs: seq<nat>, lts: seq<nat>, i: nat) {
    && KeyAccepted(x, d, ops, i) && i < |eqs| && i < |lts|
    && eqs[i] == EqFunction(x, ops, i, d.typids[x.colids[i]]) && lts[i] == LtFunction(x, ops, i, d.typids[x.colids[i]])
  }

  ghost predicate KeysFound(x: IndexArgs, d: Declared, ops: Operators, eqs: seq<nat>, lts: seq<nat>) {
    |eqs| == |lts| && forall i {:trigger KeyFound(x, d, ops, eqs, lts, i)} :: 0 <= i < |eqs| ==> KeyFound(x, d, ops, eqs, lts, i)
  }

  /** What the loop does about a key column is right: its functions, or its fault. */
  lemma KeyOpsExactly(x: IndexArgs, d: Declared, ops: Operators, i: nat)
    requires i < |x.colids|
    ensures var r := KeyOpsAt(SizedKeys(x), d, ops, i);
      && (r.Ops? <==> KeyAccepted(x, d, ops, i))
      && (r.Ops? ==> r.eq == EqFunction(x, ops, i, d.typids[x.colids[i]]) && r.lt == LtFunction(x, ops, i, d.typids[x.colids[i]]))
      && (forall f {:trigger KeyFault(x, d, ops, i, f)} :: r == Failed(f) <==> KeyFault(x, d, ops, i, f))
  {
    var y := SizedKeys(x);
    assert y.eqs[i] == if i < |x.eqs| then x.eqs[i] else INVALID_OID;
    assert y.lts[i] == if i < |x.lts| then x.lts[i] else INVALID_OID;
  }

  lemma BadFirstStep(x: IndexArgs, d: Declared, ops: Operators, n: nat, fault: Fault)
    requires n < |x.colids|
    ensures GoodBelow(x, d, ops, n + 1) <==> GoodBelow(x, d, ops, n) && KeyAccepted(x, d, ops, n)
    ensures BadFirst(x, d, ops, n + 1, fault) <==>
            BadFirst(x, d, ops, n, fault) || (GoodBelow(x, d, ops, n) && KeyFault(x, d, ops, n, fault))
  {
  }

  /**
   What the loop decides: all key columns are accepted, with the functions to use, or the first one that is not decides:
   it is refused, or its number is negative, or a function it asks for does not exist.
   */
  lemma {:induction false} CheckKeysExactly(x: IndexArgs, d: Declared, ops: Operators, n: nat)
    requires n <= |x.colids|
    ensures var r := CheckKeys(SizedKeys(x), d, ops, n);
      && (r.KeysGood? <==> GoodBelow(x, d, ops, n))
      && (forall f {:trigger BadFirst(x, d, ops, n, f)} :: r == KeyBad(f) <==> BadFirst(x, d, ops, n, f))
      && (r.KeysGood? ==> KeysFound(x, d, ops, r.eqs, r.lts))
  {
    if n > 0 {
      var m := n - 1;
      CheckKeysExactly(x, d, ops, m);
      KeyOpsExactly(x, d, ops, m);
      var was, r := CheckKeys(SizedKeys(x), d, ops, m), CheckKeys(SizedKeys(x), d, ops, n);
      forall f: Fault
        ensures r == KeyBad(f) <==> BadFirst(x, d, ops, n, f)
      {
        BadFirstStep(x, d, ops, m, f);
        assert was == KeyBad(f) <==> BadFirst(x, d, ops, m, f);
        assert KeyOpsAt(SizedKeys(x), d, ops, m) == Failed(f) <==> KeyFault(x, d, ops, m, f);
      }
      BadFirstStep(x, d, ops, m, Refusal);
      if r.KeysGood? {
        forall i | 0 <= i < n
          ensures KeyFound(x, d, ops, r.eqs, r.lts, i)
        {
          assert i < m ==> KeyFound(x, d, ops, was.eqs, was.lts, i);
        }
      }
    }
  }

  /** The arguments are values of their C++ types. */
  predicate IndexArgsTyped(x: IndexArgs) {
    && x.tabid <= U32_MAX && x.typ < 0x100 && x.fid <= U32_MAX
    && (forall i {:trigger x.eqs[i]} :: 0 <= i < |x.eqs| ==> x.eqs[i] <= U32_MAX)
    && (forall i {:trigger x.lts[i]} :: 0 <= i < |x.lts| ==> x.lts[i] <= U32_MAX)
    && forall i {:trigger x.colids[i]} :: 0 <= i < |x.colids| ==> -0x8000 <= x.colids[i] <= I16_MAX
  }

  function Join(names: seq<Str>): Str {
    if names == [] then [] else [95] + names[0] + Join(names[1..])
  }

  /** The default name: the table name and all column names, joined by underscores. */
  function IndexName(d: Declared): Str
    requires d.table.Table?
  {
    d.table.tabname + Join(d.names)
  }

  lemma {:induction false} JoinedFrom(name: Str, names: seq<Str>, k: nat)
    requires k <= |names|
    ensures var s, at := name + Join(names), NamesEnd(name, names, k);
      at <= |s| && s[at..] == Join(names[k..]) && (k == |names| ==> |s| == at)
  {
    if k > 0 {
      JoinedFrom(name, names, k - 1);
      var s, at := name + Join(names), NamesEnd(name, names, k - 1);
      assert names[k - 1..][0] == names[k - 1] && names[k - 1..][1..] == names[k..];
      assert s[at..] == [95] + names[k - 1] + Join(names[k..]);
      assert s[at..][1 + |names[k - 1]|..] == Join(names[k..]);
    } else {
      assert names[0..] == names;
    }
  }

  lemma JoinExactly(name: Str, names: seq<Str>)
    ensures NamesJoined(name + Join(names), name, names)
  {
    var s := name + Join(names);
    forall i | 0 <= i < |names|
      ensures NameInPlace(s, name, names, i)
    {
      JoinedFrom(name, names, i);
      var at := NamesEnd(name, names, i);
      assert s[at..] == [95] + names[i] + Join(names[i..][1..]);
      assert s[at] == s[at..][0];
      assert s[at + 1..at + 1 + |names[i]|] == s[at..][1..1 + |names[i]|] == names[i];
    }
    JoinedFrom(name, names, |names|);
  }

  /** The arguments `AddIndex` refuses before it looks at the key columns. */
  predicate IndexRefused(x: IndexArgs) {
    || !(x.typ == IDXTYP_VOLATILETREE || x.typ == IDXTYP_BTREE)
    || (x.typ == IDXTYP_VOLATILETREE <==> x.fid != 0) || |x.colids| > I16_MAX
  }

  /** What is left: an index in memory without a file or one on disk with a file, on at most 32767 columns. */
  lemma IndexAcceptedExactly(x: IndexArgs)
    ensures !IndexRefused(x) <==> ((x.typ == 1 && x.fid == 0) || (x.typ == 2 && x.fid > 0)) && |x.colids| < 32768
  {
  }

  /** The table can be described and `AddIndex` comes to look at the key columns. */
  ghost predicate Indexable(db: Db, x: IndexArgs) {
    First(db.tables, x.tabid).Some? && LengthsKnown(db, x.tabid) && !IndexRefused(x)
  }

  /** The first bad key column has this fault. */
  ghost predicate BadKey(x: IndexArgs, d: Declared, ops: Operators, fault: Fault) {
    BadFirst(x, d, ops, |x.colids|, fault)
  }

  /** The arguments with the default name and the functions of the key columns filled in, all of which are good. */
  ghost predicate Completed(x: IndexArgs, d: Declared, ops: Operators, used: IndexArgs) {
    && used == x.(name := used.name, eqs := used.eqs, lts := used.lts) && IndexArgsFit(used, d) && |x.colids| <= I16_MAX
    && d.table.Table? && used.name == (if x.name == [] then IndexName(d) else x.name)
    && GoodBelow(x, d, ops, |x.colids|) && KeysFound(x, d, ops, used.eqs, used.lts)
  }

  /** An index on column -1 is not refused for that number; one on the number behind the last column is. */
  lemma OneNegativeKey(x: IndexArgs, d: Declared, ops: Operators)
    ensures BadKey(x.(colids := [-1], eqs := [], lts := []), d, ops, OutsideColumns)
    ensures !BadKey(x.(colids := [-1], eqs := [], lts := []), d, ops, Refusal)
    ensures BadKey(x.(colids := [|d.typids|], eqs := [], lts := []), d, ops, Refusal)
  {
    assert KeyFault(x.(colids := [-1], eqs := [], lts := []), d, ops, 0, OutsideColumns);
    assert KeyFault(x.(colids := [|d.typids|], eqs := [], lts := []), d, ops, 0, Refusal);
  }

  /** A function id without a row, asked for on a column of the table, makes `AddIndex` use a null row. */
  lemma OneUnknownFunction(x: IndexArgs, d: Declared, ops: Operators, f: nat)
    requires f != INVALID_OID && ops.rows(f) == None && d.typids != []
    ensures BadKey(x.(colids := [0], eqs := [f], lts := [f]), d, ops, NullRow)
  {
    assert KeyFault(x.(colids := [0], eqs := [f], lts := [f]), d, ops, 0, NullRow);
  }

  /** The rows that `AddIndex` adds are those that it was asked for. */
  lemma AskedIndexRows(db: Db, id: nat, x: IndexArgs, d: Declared, ops: Operators, used: IndexArgs)
    requires Completed(x, d, ops, used)
    ensures IndexRowsAdded(db, id, x, d, ops, WithIndex(db, id, used, d))
  {
    var cs := NewKeys(id, used, d);
    assert WithIndex(db, id, used, d).idxcols[|db.idxcols|..] == cs;
    JoinExactly(d.table.tabname, d.names);
    forall i | 0 <= i < |x.colids|
      ensures KeyAsked(x, d, ops, id, i, cs[i])
    {
      assert KeyFound(x, d, ops, used.eqs, used.lts, i);
    }
  }

  lemma CompletedTyped(x: IndexArgs, d: Declared, ops: Operators, used: IndexArgs)
    requires Completed(x, d, ops, used) && IndexArgsTyped(x)
    ensures IndexArgsTyped(used) && forall i :: 0 <= i < |used.colids| ==> used.eqs[i] <= U32_MAX && used.lts[i] <= U32_MAX
  {
    forall i | 0 <= i < |used.colids|
      ensures used.eqs[i] <= U32_MAX && used.lts[i] <= U32_MAX
    {
      assert KeyFound(x, d, ops, used.eqs, used.lts, i);
    }
  }

  lemma IndexWritable(id: nat, x: IndexArgs, d: Declared)
    requires id <= MAX_OID && IndexArgsTyped(x) && ShortName(x.name) && |x.colids| <= I16_MAX && IndexArgsFit(x, d)
    requires forall i :: 0 <= i < |x.colids| ==> x.eqs[i] <= U32_MAX && x.lts[i] <= U32_MAX
    requires DeclaredTyped(d)
    ensures ForSystab(TAB_INDEX, [NewIndex(id, x)]) && ForSystab(TAB_INDEXCOLUMN, NewKeys(id, x, d))
  {
    forall k | 0 <= k < |x.colids|
      ensures Writable(NewKeys(id, x, d)[k]) && TabOf(NewKeys(id, x, d)[k]) == TAB_INDEXCOLUMN
    {
      assert -0x8000 <= x.colids[k] <= I16_MAX && d.typids[x.colids[k]] <= U32_MAX;
    }
  }

  /** Descriptors do not depend on the index systables. */
  lemma DescsSame(descs: map<nat, Desc>, db: Db, fids: Fids, db': Db)
    requires Descs(descs, db, fids) && db'.tables == db.tables && db'.columns == db.columns && db'.types == db.types
    ensures Descs(descs, db', fids)
  {
    forall id: nat
      ensures DescAt(descs, db', id)
    {
      assert DescAt(descs, db, id);
    }
    forall t: nat | IsSystab(t)
      ensures SysOk(db', fids, t)
    {
      assert SysOk(db, fids, t);
    }
  }

  lemma SoundSame(db: Db, db': Db)
    requires db'.tables == db.tables && db'.columns == db.columns && db'.types == db.types
    requires TablesOk(db) && ColumnsOk(db)
    ensures TablesOk(db') && ColumnsOk(db')
  {
    forall i | 0 <= i < |db'.tables|
      ensures TableOk(db', i)
    {
      assert TableOk(db, i);
    }
    forall i | 0 <= i < |db'.columns|
      ensures ColumnOk(db', i)
    {
      assert ColumnOk(db, i);
    }
    forall i | 0 <= i < |db'.types|
      ensures TypeRowOk(db', i)
    {
      assert TypeRowOk(db, i);
    }
  }

  lemma {:induction false} CheckStops(x: IndexArgs, d: Declared, ops: Operators, m: nat, n: nat)
    requires m <= n <= |x.colids| && n <= |x.eqs| && n <= |x.lts| && !CheckKeys(x, d, ops, m).KeysGood?
    ensures CheckKeys(x, d, ops, n) == CheckKeys(x, d, ops, m)
  {
    if m < n {
      CheckStops(x, d, ops, m, n - 1);
    }
  }

  predicate DeclaredTyped(d: Declared) {
    Lengths(d, |d.typids|) &&
    forall i {:trigger d.typids[i]} :: 0 <= i < |d.typids| ==> d.typids[i] <= U32_MAX && d.typparams[i] < U64
  }

  /** What is described was read from records, so it has the range of its C++ types. */
  lemma DescribedTyped(files: seq<File>, db: Db, fids: Fids, next: nat, id: nat, d: Declared)
    requires FilesOk(files, db, fids) && Integrity(db, next) && Describes(db, id, d)
    ensures DeclaredTyped(d)
  {
    assert TableOk(db, First(db.tables, id).value) && FileOk(files, db, fids, TAB_COLUMN);
    var cs, f := Matches(db.columns, id), files[fids[TAB_COLUMN] - 2];
    forall i: nat | i < |d.typids|
      ensures d.typids[i] <= U32_MAX && d.typparams[i] < U64
    {
      var k := NumberedFinds(cs, d.table.tabncols, i);
      var j := MatchesFrom(db.columns, id, k);
      assert ColumnDescribed(d, cs[k]) && SlotHolds(TAB_COLUMN, f, db.columns, j);
      var row :| Reads(SysCols(TAB_COLUMN), Slot(f, j), row) && Create(TAB_COLUMN, row) == db.columns[j];
    }
  }

  // ---------------------------------------------------------------- building a key schema

  /** `IndexDesc`: the key schema, the columns after the types have been looked up, and their layout. */
  datatype IndexDesc = IndexDesc(keys: KeySchema, schema: Desc)

  /**
   How `FindIndexDesc` ends: with a descriptor, a null pointer, the use of a null key schema if there are no key columns,
   an error of the layout computation, or a fatal error.
   */
  datatype KeyLookup = KeysAre(desc: IndexDesc) | NoIndex | NoKeys | NoKeyLayout | BadIndex

  /** The key columns as the declaration of a schema. They have no names. */
  function AsDeclared(s: KeySchema): (d: Declared)
    ensures d.typids == s.typids && d.typparams == s.typparams && d.nullables == s.nullables
    ensures KeyLengths(s, |s.typids|) ==> Lengths(d, |s.typids|)
  {
    Declared(s.index, s.typids, s.typparams, s.nullables, seq(|s.typids|, i => []))
  }

  /** The descriptor is the one that the catalog describes. */
  ghost predicate IndexDescOk(db: Db, id: nat, x: IndexDesc) {
    && KeysOf(db, id, x.keys) && x.schema.decl == AsDeclared(x.keys) && ColsAre(db.types, x.schema.decl, x.schema.cols)
    && |x.schema.cols| == |x.keys.typids| && LayoutIs(x.schema)
  }

  ghost predicate IndexDescAt(descs: map<nat, IndexDesc>, db: Db, id: nat) {
    id in descs ==> IndexDescOk(db, id, descs[id])
  }

  /** Every cached index descriptor is the described one. */
  ghost predicate IndexDescs(descs: map<nat, IndexDesc>, db: Db) {
    forall id: nat {:trigger IndexDescAt(descs, db, id)} :: IndexDescAt(descs, db, id)
  }

  /** Index descriptors stay right while the catalog grows by entries for new ids. */
  lemma IndexDescsExtend(descs: map<nat, IndexDesc>, db: Db, next: nat, db': Db)
    requires IndexDescs(descs, db) && Below(db.indexes, next) && Extends(db, next, db')
    ensures IndexDescs(descs, db')
  {
    forall id: nat
      ensures IndexDescAt(descs, db', id)
    {
      assert IndexDescAt(descs, db, id);
      if id in descs {
        KeysStay(db, next, db', id, descs[id].keys);
      }
    }
  }

  lemma IndexDescsInsert(descs: map<nat, IndexDesc>, db: Db, id: nat, x: IndexDesc)
    requires IndexDescs(descs, db) && IndexDescOk(db, id, x)
    ensures IndexDescs(descs[id := x], db)
  {
    var descs' := descs[id := x];
    forall i: nat
      ensures IndexDescAt(descs', db, i)
    {
      assert IndexDescAt(descs, db, i);
    }
  }

  /** No key column of the index has a type whose length cannot be computed. */
  ghost predicate KeyLengthsKnown(db: Db, id: nat) {
    forall k {:trigger Matches(db.idxcols, id)[k]} :: 0 <= k < |Matches(db.idxcols, id)| ==>
      KeyLengthKnown(db.types, Matches(db.idxcols, id)[k])
  }

  ghost predicate KeyLengthKnown(types: seq<Entry>, c: Entry) {
    c.IndexColumn? && FindCol(types, c.idxcoltypid, c.idxcoltypparam, c.idxcolisnullable).Some?
  }

  lemma KeyLengthUnknown(db: Db, id: nat, s: KeySchema, i: nat)
    requires IndexesOk(db) && KeysOf(db, id, s) && i < |s.typids|
    requires FindCol(db.types, s.typids[i], s.typparams[i], s.nullables[i]).None?
    ensures !KeyLengthsKnown(db, id)
  {
    KeysOfIndex(db, id);
    var cs := Matches(db.idxcols, id);
    var k := NumberedFinds(cs, |cs|, i);
    assert KeyDescribed(s, cs[k]);
    assert !KeyLengthKnown(db.types, cs[k]);
  }

  lemma KeyLengthsAllKnown(db: Db, id: nat, x: IndexDesc)
    requires IndexDescOk(db, id, x)
    ensures KeyLengthsKnown(db, id)
  {
    forall k | 0 <= k < |Matches(db.idxcols, id)|
      ensures KeyLengthKnown(db.types, Matches(db.idxcols, id)[k])
    {
      assert KeyDescribed(x.keys, Matches(db.idxcols, id)[k]);
      assert ColIs(db.types, x.schema.decl, x.schema.cols, Matches(db.idxcols, id)[k].idxcolid);
    }
  }

  /** The entry with number `i` is at position `i`. */
  ghost predicate InPlace(cs: seq<Entry>, sorted: seq<Entry>, k: nat)
    requires k < |cs|
  {
    0 <= NumberOf(cs[k]) < |sorted| && sorted[NumberOf(cs[k])] == cs[k]
  }

  ghost predicate FirstInPlace(cs: seq<Entry>, sorted: seq<Entry>, n: nat)
    requires n <= |cs|
  {
    forall k {:trigger InPlace(cs, sorted, k)} :: 0 <= k < n ==> InPlace(cs, sorted, k)
  }

  /** What `std::sort` by number comes to when the numbers are those from 0 on. */
  method SortByNumber(cs: seq<Entry>) returns (sorted: seq<Entry>)
    requires cs != [] && Numbered(cs, |cs|)
    ensures |sorted| == |cs| && FirstInPlace(cs, sorted, |cs|)
  {
    var a := new Entry[|cs|](_ => cs[0]);
    for k := 0 to |cs|
      invariant FirstInPlace(cs, a[..], k)
    {
      ghost var before := a[..];
      a[NumberOf(cs[k])] := cs[k];
      forall j | 0 <= j <= k
        ensures InPlace(cs, a[..], j)
      {
        if j < k {
          assert InPlace(cs, before, j) && NumberOf(cs[j]) != NumberOf(cs[k]);
        }
      }
    }
    sorted := a[..];
  }

  function NumbersOf(sorted: seq<Entry>, index: Entry): (s: KeySchema)
    requires forall k {:trigger sorted[k]} :: 0 <= k < |sorted| ==> sorted[k].IndexColumn?
    ensures s.index == index && KeyLengths(s, |sorted|)
    ensures forall k {:trigger sorted[k]} :: 0 <= k < |sorted| && sorted[k].idxcolid == k ==> KeyDescribed(s, sorted[k])
  {
    var n := |sorted|;
    KeySchema(index, seq(n, i requires 0 <= i < n => sorted[i].idxcoltabcolid), seq(n, i requires 0 <= i < n => sorted[i].idxcoltypid),
              seq(n, i requires 0 <= i < n => sorted[i].idxcoltypparam), seq(n, i requires 0 <= i < n => sorted[i].idxcolisnullable))
  }

  /** What integrity says about the key columns of an index. */
  lemma KeysOfIndex(db: Db, id: nat)
    requires IndexesOk(db) && First(db.indexes, id).Some?
    ensures var x := db.indexes[First(db.indexes, id).value]; x.Index? && x.idxid == id && Numbered(Matches(db.idxcols, id), x.idxncols)
    ensures forall k {:trigger Matches(db.idxcols, id)[k]} :: 0 <= k < |Matches(db.idxcols, id)| ==> Matches(db.idxcols, id)[k].IndexColumn?
  {
    assert IndexOk(db, First(db.indexes, id).value);
    forall k | 0 <= k < |Matches(db.idxcols, id)|
      ensures Matches(db.idxcols, id)[k].IndexColumn?
    {
      var i := MatchesFrom(db.idxcols, id, k);
      assert IndexColumnOk(db, i);
    }
  }

  lemma KeyCountBound(files: seq<File>, db: Db, fids: Fids, id: nat)
    requires FilesOk(files, db, fids) && IndexesOk(db) && First(db.indexes, id).Some?
    ensures var x := db.indexes[First(db.indexes, id).value];
      x.Index? && Wrap64(x.idxncols) == x.idxncols == |Matches(db.idxcols, id)| && Numbered(Matches(db.idxcols, id), x.idxncols)
  {
    KeysOfIndex(db, id);
    assert FileOk(files, db, fids, TAB_INDEXCOLUMN);
  }

  /** The sorted key columns make the key schema of the index. */
  lemma SortedKeys(db: Db, id: nat, cs: seq<Entry>, sorted: seq<Entry>)
    requires IndexesOk(db) && First(db.indexes, id).Some? && cs == Matches(db.idxcols, id)
    requires |sorted| == |cs| && FirstInPlace(cs, sorted, |cs|)
    requires cs != []
    ensures forall k {:trigger sorted[k]} :: 0 <= k < |sorted| ==> sorted[k].IndexColumn?
    ensures KeysOf(db, id, NumbersOf(sorted, db.indexes[First(db.indexes, id).value]))
  {
    KeysOfIndex(db, id);
    forall i: nat | i < |sorted|
      ensures sorted[i].IndexColumn?
    {
      var k := NumberedFinds(cs, |cs|, i);
      assert InPlace(cs, sorted, k);
    }
    var s := NumbersOf(sorted, db.indexes[First(db.indexes, id).value]);
    forall k | 0 <= k < |cs|
      ensures KeyDescribed(s, cs[k])
    {
      assert InPlace(cs, sorted, k);
    }
  }

  // ---------------------------------------------------------------- the minimal cache

  /** The systables whose descriptors every search rests on. */
  predicate Minimal(t: nat) {
    t == TAB_TABLE || t == TAB_TYPE || t == TAB_COLUMN
  }

  function WithEntry(desc: Desc, e: Entry): Desc {
    desc.(decl := desc.decl.(table := e))
  }

  /** The bootstrap descriptor of a systable, with its `Table` entry, is the one that the catalog describes. */
  ghost predicate BootOk(db: Db, boot: map<nat, Desc>, t: nat) {
    t in boot && First(db.tables, t).Some? && DescOk(db, t, WithEntry(boot[t], db.tables[First(db.tables, t).value]))
  }

  ghost predicate Booted(db: Db, boot: map<nat, Desc>) {
    forall t {:trigger BootOk(db, boot, t)} :: Minimal(t) ==> BootOk(db, boot, t)
  }

  ghost predicate SystablesDescribed(db: Db, fids: Fids) {
    (forall t {:trigger SysOk(db, fids, t)} :: IsSystab(t) ==> SysOk(db, fids, t)) && TypesFit(db.types)
  }

  lemma BootSys(db: Db, fids: Fids, boot: map<nat, Desc>, t: nat)
    requires Minimal(t) && TablesOk(db) && SystablesDescribed(db, fids) && Booted(db, boot)
    ensures t in boot && boot[t].cols == SysCols(t)
  {
    assert BootOk(db, boot, t) && SysOk(db, fids, t);
    SysCovered(db, fids, t, WithEntry(boot[t], db.tables[First(db.tables, t).value]));
  }

  /** Among the first `n` records of `Table`: 1 if the one of systable `t` is there. */
  function FoundBelow(db: Db, t: nat, n: nat): nat {
    if First(db.tables, t).Some? && First(db.tables, t).value < n then 1 else 0
  }

  function MinFound(db: Db, n: nat): nat {
    FoundBelow(db, TAB_TABLE, n) + FoundBelow(db, TAB_TYPE, n) + FoundBelow(db, TAB_COLUMN, n)
  }

  ghost predicate MinLoadedAt(descs: map<nat, Desc>, db: Db, boot: map<nat, Desc>, n: nat, t: nat) {
    if Minimal(t) && FoundBelow(db, t, n) == 1 then
      t in boot && t in descs && descs[t] == WithEntry(boot[t], db.tables[First(db.tables, t).value])
    else t !in descs
  }

  /** The descriptors of the systables whose records are among the first `n`, and no others. */
  ghost predicate MinLoaded(descs: map<nat, Desc>, db: Db, boot: map<nat, Desc>, n: nat) {
    Booted(db, boot) && forall t: nat {:trigger MinLoadedAt(descs, db, boot, n, t)} :: MinLoadedAt(descs, db, boot, n, t)
  }

  /** Ids in `Table` are distinct, so a record is counted once. */
  lemma MinStep(db: Db, next: nat, n: nat)
    requires Integrity(db, next) && n < |db.tables|
    ensures First(db.tables, IdOf(db.tables[n])) == Some(n)
    ensures forall t: nat {:trigger FoundBelow(db, t, n + 1)} ::
              FoundBelow(db, t, n + 1) == if t == IdOf(db.tables[n]) then 1 else FoundBelow(db, t, n)
  {
    assert TableOk(db, n);
  }

  lemma MinCounts(db: Db, next: nat, n: nat)
    requires Integrity(db, next) && n < |db.tables|
    ensures MinFound(db, n + 1) == MinFound(db, n) + if Minimal(IdOf(db.tables[n])) then 1 else 0
  {
    MinStep(db, next, n);
  }

  lemma MinComplete(db: Db, fids: Fids, boot: map<nat, Desc>, descs: map<nat, Desc>, n: nat)
    requires TablesOk(db) && SystablesDescribed(db, fids) && MinLoaded(descs, db, boot, n)
    requires n == |db.tables| || MinFound(db, n) >= 3
    ensures Descs(descs, db, fids)
  {
    forall t: nat | Minimal(t)
      ensures FoundBelow(db, t, n) == 1
    {
      assert BootOk(db, boot, t);
    }
    forall id: nat
      ensures DescAt(descs, db, id)
    {
      assert MinLoadedAt(descs, db, boot, n, id);
      assert Minimal(id) ==> BootOk(db, boot, id);
    }
    forall t: nat | IsSystab(t)
      ensures SysDescAt(descs, fids, t)
    {
      assert MinLoadedAt(descs, db, boot, n, t) && SysOk(db, fids, t);
      if t in descs {
        assert DescAt(descs, db, t);
        SysCovered(db, fids, t, descs[t]);
      }
    }
    assert MinLoadedAt(descs, db, boot, n, TAB_TABLE) && MinLoadedAt(descs, db, boot, n, TAB_TYPE);
    assert MinLoadedAt(descs, db, boot, n, TAB_COLUMN);
  }

  lemma MinLoadedNext(descs: map<nat, Desc>, db: Db, boot: map<nat, Desc>, next: nat, n: nat, descs': map<nat, Desc>)
    requires MinLoaded(descs, db, boot, n) && Integrity(db, next) && n < |db.tables|
    requires var id := IdOf(db.tables[n]);
      if Minimal(id) then id in boot && descs' == descs[id := WithEntry(boot[id], db.tables[n])] else descs' == descs
    ensures MinLoaded(descs', db, boot, n + 1)
  {
    MinStep(db, next, n);
    var m := n + 1;
    forall t: nat
      ensures MinLoadedAt(descs', db, boot, m, t)
    {
      assert MinLoadedAt(descs, db, boot, n, t);
      assert FoundBelow(db, t, m) == if t == IdOf(db.tables[n]) then 1 else FoundBelow(db, t, n);
    }
  }

  class CatCache {
    /** The in-memory files; file `fid` is at `fid - 2`. */
    var systables: seq<File>
    var recidLookupTable: map<RecId, Entry>
    var tableDesc: map<nat, Desc>
    var indexDesc: map<nat, IndexDesc>
    var nextOid: nat
    /** The entries that the files hold. */
    ghost var db: Db
    ghost const fids: Fids

    /** The files hold the entries of the catalog, and the record id cache agrees with them. */
    ghost predicate Stores()
      reads this
    {
      FilesOk(systables, db, fids) && Coherent(recidLookupTable, db, fids)
    }

    ghost predicate Describing()
      reads this
    {
      Descs(tableDesc, db, fids)
    }

    ghost predicate Indexed()
      reads this
    {
      IndexDescs(indexDesc, db)
    }

    /** The invariant between operations. */
    ghost predicate Valid()
      reads this
    {
      Stores() && Describing() && Indexed() && Integrity(db, nextOid) && FIRST_OID <= nextOid <= MAX_OID + 1
    }

    /** A cache over files that have been initialized, with nothing cached. */
    constructor (files: seq<File>, next: nat, ghost db: Db, ghost fids: Fids)
      requires FilesOk(files, db, fids)
      ensures Stores() && this.db == db && this.fids == fids && systables == files && nextOid == next && tableDesc == map[]
      ensures indexDesc == map[]
    {
      systables, recidLookupTable, tableDesc, indexDesc, nextOid := files, map[], map[], map[], next;
      this.db, this.fids := db, fids;
    }

    /**
     The first part of `LoadMinCache`: one scan of `Table` that stops at the third record it wants, and takes the
     columns of those three descriptors from the bootstrap catalog. It establishes the invariant.
     */
    method LoadMinCache(tableFid: nat, boot: map<nat, Desc>)
      requires Stores() && tableDesc == map[] && indexDesc == map[] && SystablesDescribed(db, fids) && Booted(db, boot)
      requires Integrity(db, nextOid) && FIRST_OID <= nextOid <= MAX_OID + 1 && tableFid == fids[TAB_TABLE]
      modifies this`recidLookupTable, this`tableDesc
      ensures Valid()
    {
      assert FileOk(systables, db, fids, TAB_TABLE);
      BootSys(db, fids, boot, TAB_TABLE);
      var cols := boot[TAB_TABLE].cols;
      var f := systables[tableFid - 2];
      var nfound, sid := 0, 0;
      while sid < |f.offsets| && nfound < 3
        invariant sid <= |f.offsets| && Stores() && MinLoaded(tableDesc, db, boot, sid) && nfound == MinFound(db, sid)
      {
        var found := LoadMinEntry(tableFid, f, sid, cols, boot);
        MinCounts(db, nextOid, sid);
        nfound, sid := if found then nfound + 1 else nfound, sid + 1;
      }
      MinComplete(db, fids, boot, tableDesc, sid);
    }

    /** One record of `Table`: if it is one of the three, its entry is cached and its descriptor created. */
    method LoadMinEntry(tableFid: nat, f: File, sid: nat, cols: seq<Col>, boot: map<nat, Desc>) returns (found: bool)
      requires Stores() && tableFid == fids[TAB_TABLE] && FileHolds(TAB_TABLE, f, db.tables) && sid < |f.offsets|
      requires Integrity(db, nextOid) && cols == SysCols(TAB_TABLE) && MinLoaded(tableDesc, db, boot, sid)
      modifies this`recidLookupTable, this`tableDesc
      ensures Stores() && MinLoaded(tableDesc, db, boot, sid + 1) && (found <==> Minimal(IdOf(db.tables[sid])))
    {
      assert SlotHolds(TAB_TABLE, f, db.tables, sid);
      ghost var descs := tableDesc;
      found := false;
      if f.valid[sid] {
        var slot := Slot(f, sid);
        var tabid := ReadId(cols, slot, TAB_TABLE, db.tables[sid]);
        if Minimal(tabid) {
          assert BootOk(db, boot, tabid);
          var tab := GetOrCreateCachedEntry(TAB_TABLE, tableFid, sid, cols, slot);
          tableDesc := tableDesc[tabid := WithEntry(boot[tabid], tab)];
          found := true;
        }
      }
      MinLoadedNext(descs, db, boot, nextOid, sid, tableDesc);
    }

    /** `GetOrCreateCachedEntry` for the record that a scan stands on. */
    method GetOrCreateCachedEntry(t: nat, fid: nat, sid: nat, cols: seq<Col>, slot: seq<Byte>) returns (e: Entry)
      requires Stores() && IsSystab(t) && fid == fids[t] && sid < |Of(db, t)| && cols == SysCols(t)
      requires EntryHeld(t, slot, Of(db, t)[sid])
      modifies this`recidLookupTable
      ensures Stores() && e == Of(db, t)[sid]
    {
      assert Cached(recidLookupTable, db, fids, t, sid);
      if (fid, sid) in recidLookupTable {
        return recidLookupTable[(fid, sid)];
      }
      e := ReadEntry(t, cols, slot, Of(db, t)[sid]);
      CoherentInsert(recidLookupTable, db, fids, t, sid);
      recidLookupTable := recidLookupTable[(fid, sid) := e];
    }

    /** The table scan of a search for a unique entry. */
    method ScanForFirst(t: nat, desc: Desc, oid: nat) returns (r: Option<Entry>)
      requires Stores() && IsSystab(t) && SysDesc(desc, fids, t)
      modifies this`recidLookupTable
      ensures Stores() && r == FirstEntry(Of(db, t), oid)
    {
      assert FileOk(systables, db, fids, t);
      var fid := desc.decl.table.tabfid;
      var f := systables[fid - 2];
      ghost var es := Of(db, t);
      for sid := 0 to |f.offsets|
        invariant Stores() && First(es[..sid], oid).None?
      {
        assert SlotHolds(t, f, es, sid);
        assert es[..sid + 1][..sid] == es[..sid];
        if f.valid[sid] {
          var slot := Slot(f, sid);
          var lhs := ReadId(desc.cols, slot, t, es[sid]);
          if lhs == oid {
            FirstStops(es, oid, sid);
            var e := GetOrCreateCachedEntry(t, fid, sid, desc.cols, slot);
            return Some(e);
          }
        }
      }
      assert es[..|es|] == es;
      r := None;
    }

    /** The table scan of an uncached search that stops after `expectN` entries, or goes to the end if that is 0. */
    method ScanForAll(t: nat, desc: Desc, oid: nat, expectN: nat) returns (r: seq<Entry>)
      requires Stores() && IsSystab(t) && SysDesc(desc, fids, t)
      ensures expectN == 0 || |Matches(Of(db, t), oid)| <= expectN ==> r == Matches(Of(db, t), oid)
      ensures expectN > 0 && expectN < |Matches(Of(db, t), oid)| ==> r == Matches(Of(db, t), oid)[..expectN]
    {
      assert FileOk(systables, db, fids, t);
      var f := systables[desc.decl.table.tabfid - 2];
      ghost var es := Of(db, t);
      r := [];
      for sid := 0 to |f.offsets|
        invariant r == Matches(es[..sid], oid) && (expectN > 0 ==> |r| < expectN)
      {
        assert SlotHolds(t, f, es, sid);
        MatchesStep(es, oid, sid);
        if f.valid[sid] {
          var slot := Slot(f, sid);
          var lhs := ReadId(desc.cols, slot, t, es[sid]);
          if lhs == oid {
            var e := ReadEntry(t, desc.cols, slot, es[sid]);
            r := r + [e];
            if expectN != 0 && |r| == expectN {
              return;
            }
          }
        }
      }
      assert es[..|es|] == es;
    }

    /** The part of integrity that descriptors rest on. */
    ghost predicate Sound()
      reads this
    {
      TablesOk(db) && ColumnsOk(db)
    }

    /**
     A search for a unique entry by id: through the descriptor of the systable, then a table scan. The result is
     what an uncached first-match scan finds.
     */
    method FindByOid(t: nat, oid: nat) returns (r: Option<Entry>)
      requires Stores() && Describing() && IsSystab(t) && (t in tableDesc || Sound())
      modifies this`recidLookupTable, this`tableDesc
      ensures Stores() && Describing() && r == FirstEntry(Of(db, t), oid)
      ensures t in old(tableDesc) ==> tableDesc == old(tableDesc)
      decreases if t in tableDesc then 1 else 5, 0
    {
      var lookup := FindTableDesc(t);
      assert SysOk(db, fids, t) && SysDescAt(tableDesc, fids, t);
      SysLengthsKnown(db, fids, t);
      if !lookup.Found? {
        return None;
      }
      r := ScanForFirst(t, lookup.desc, oid);
    }

    /** The type lookups of the layout computation; `bad` is the first field whose length cannot be computed. */
    method FindTypes(d: Declared) returns (cols: Option<seq<Col>>, ghost bad: nat)
      requires Stores() && Describing() && Lengths(d, |d.typids|)
      modifies this`recidLookupTable, this`tableDesc
      ensures Stores() && Describing() && tableDesc == old(tableDesc)
      ensures cols.Some? ==> ColsAre(db.types, d, cols.value) && |cols.value| == |d.typids|
      ensures cols.None? ==> bad < |d.typids| && FindCol(db.types, d.typids[bad], d.typparams[bad], d.nullables[bad]).None?
      decreases 3, 0
    {
      var r := [];
      for i := 0 to |d.typids|
        invariant Stores() && Describing() && tableDesc == old(tableDesc)
        invariant |r| == i && ColsAre(db.types, d, r)
      {
        var typ := FindByOid(TAB_TYPE, d.typids[i]);
        var col := if typ.None? then None else TypeCol(typ.value, d.typparams[i], d.nullables[i]);
        if col.None? {
          return None, i;
        }
        ColsAreStep(db.types, d, r, col.value);
        r := r + [col.value];
      }
      cols, bad := Some(r), 0;
    }

    /** The second half of `FindTableDesc`: the descriptor of the column rows is built and cached. */
    method BuildDesc(tabid: nat, table: Entry, cols: seq<Entry>) returns (r: Lookup)
      requires Stores() && Describing() && Sound() && FirstEntry(db.tables, tabid) == Some(table)
      requires cols == Matches(db.columns, tabid)
      modifies this`recidLookupTable, this`tableDesc
      ensures Stores() && Describing() && (r.Found? || r.NoLayout?)
      ensures r.Found? ==> tabid in tableDesc && r.desc == tableDesc[tabid] && DescOk(db, tabid, r.desc)
      ensures r.Found? <==> LengthsKnown(db, tabid)
      decreases 3, 1
    {
      ColumnsOf(db, tabid);
      var d := CreateDeclared(table, cols);
      if d.None? {
        return Fatal;
      }
      assert Describes(db, tabid, d.value);
      var typed, bad := FindTypes(d.value);
      if typed.None? {
        LengthUnknown(db, tabid, d.value, bad);
        return NoLayout;
      }
      var desc := LayOut(d.value, typed.value);
      LengthsAllKnown(db, tabid, d.value, typed.value);
      DescsInsert(tableDesc, db, fids, tabid, desc);
      tableDesc := tableDesc[tabid := desc];
      r := Found(desc);
    }

    /**
     `FindTableDesc`: the cached descriptor, or one built from the `Table`, `Column` and `Type` systables. Under
     integrity the scan for the columns never reports a wrong count and the column ids never leave the vectors.
     */
    method FindTableDesc(tabid: nat) returns (r: Lookup)
      requires Stores() && Describing() && (tabid in tableDesc || Sound())
      modifies this`recidLookupTable, this`tableDesc
      ensures Stores() && Describing() && (tabid in old(tableDesc) ==> tableDesc == old(tableDesc))
      ensures r.Found? ==> tabid in tableDesc && r.desc == tableDesc[tabid] && DescOk(db, tabid, r.desc)
      ensures tabid in old(tableDesc) ==> r.Found?
      ensures r.Missing? ==> First(db.tables, tabid).None?
      ensures Sound() ==> !r.Fatal? && (r.Missing? <==> First(db.tables, tabid).None?)
      ensures Sound() && !r.Missing? ==> (r.Found? <==> LengthsKnown(db, tabid))
      decreases if tabid in tableDesc then 0 else 4, 0
    {
      if tabid in tableDesc {
        r := Found(tableDesc[tabid]);
        assert DescAt(tableDesc, db, tabid);
        LengthsAllKnown(db, tabid, r.desc.decl, r.desc.cols);
        return;
      }
      var table := FindByOid(TAB_TABLE, tabid);
      if table.None? {
        return Missing;
      }
      ColumnsOf(db, tabid);
      var columnDesc := FindTableDesc(TAB_COLUMN);
      assert SysDescAt(tableDesc, fids, TAB_COLUMN);
      var cols := ScanForAll(TAB_COLUMN, columnDesc.desc, tabid, Wrap64(table.value.tabncols));
      if |cols| != Wrap64(table.value.tabncols) {
        return Fatal;
      }
      r := BuildDesc(tabid, table.value, cols);
    }

    /** A search for all entries with an id, of which `expectN` are expected: descriptor, then table scan. */
    method FindAll(t: nat, oid: nat, expectN: nat) returns (r: seq<Entry>)
      requires Stores() && Describing() && Sound() && IsSystab(t)
      modifies this`recidLookupTable, this`tableDesc
      ensures Stores() && Describing()
      ensures |Matches(Of(db, t), oid)| == expectN ==> r == Matches(Of(db, t), oid)
    {
      var lookup := FindTableDesc(t);
      assert SysOk(db, fids, t) && SysDescAt(tableDesc, fids, t);
      SysLengthsKnown(db, fids, t);
      if !lookup.Found? {
        return [];
      }
      r := ScanForAll(t, lookup.desc, oid, expectN);
    }

    /** The second half of `FindIndexDesc`: the key schema is laid out, and the descriptor built and cached. */
    method BuildIndexDesc(idxid: nat, keys: KeySchema) returns (r: KeyLookup)
      requires Valid() && KeysOf(db, idxid, keys)
      modifies this`recidLookupTable, this`tableDesc, this`indexDesc
      ensures Valid() && (r.KeysAre? || r.NoKeyLayout?) && (r.KeysAre? <==> KeyLengthsKnown(db, idxid))
      ensures r.KeysAre? ==> IndexDescOk(db, idxid, r.desc)
    {
      var typed, bad := FindTypes(AsDeclared(keys));
      if typed.None? {
        KeyLengthUnknown(db, idxid, keys, bad);
        return NoKeyLayout;
      }
      var schema := LayOut(AsDeclared(keys), typed.value);
      var desc := IndexDesc(keys, schema);
      KeyLengthsAllKnown(db, idxid, desc);
      IndexDescsInsert(indexDesc, db, idxid, desc);
      indexDesc := indexDesc[idxid := desc];
      r := KeysAre(desc);
    }

    /** The key columns of an index, sorted by number; nothing if their count is not the expected one. */
    method FindKeys(idxid: nat, index: Entry) returns (sorted: Option<seq<Entry>>)
      requires Valid() && FirstEntry(db.indexes, idxid) == Some(index)
      modifies this`recidLookupTable, this`tableDesc
      ensures Valid() && sorted.Some? && (sorted.value == [] <==> Matches(db.idxcols, idxid) == [])
      ensures sorted.value != [] ==>
                (forall k {:trigger sorted.value[k]} :: 0 <= k < |sorted.value| ==> sorted.value[k].IndexColumn?) &&
                KeysOf(db, idxid, NumbersOf(sorted.value, index))
    {
      KeyCountBound(systables, db, fids, idxid);
      var n := Wrap64(index.idxncols);
      var cs := FindAll(TAB_INDEXCOLUMN, idxid, n);
      if |cs| != n {
        return None;
      }
      if cs == [] {
        return Some([]);
      }
      var inOrder := SortByNumber(cs);
      SortedKeys(db, idxid, cs, inOrder);
      sorted := Some(inOrder);
    }

    /**
     `FindIndexDesc`: the cached descriptor, or one built from the `Index` and `IndexColumn` systables. Under integrity
     the count of the key columns is always the expected one. An index without key columns has no key schema, and the
     source uses the null pointer that stands for it.
     */
    method FindIndexDesc(idxid: nat) returns (r: KeyLookup)
      requires Valid()
      modifies this`recidLookupTable, this`tableDesc, this`indexDesc
      ensures Valid() && !r.BadIndex?
      ensures r.NoIndex? <==> First(db.indexes, idxid).None?
      ensures r.NoKeys? <==> First(db.indexes, idxid).Some? && Matches(db.idxcols, idxid) == []
      ensures r.KeysAre? <==> !r.NoIndex? && !r.NoKeys? && KeyLengthsKnown(db, idxid)
      ensures r.KeysAre? ==> IndexDescOk(db, idxid, r.desc)
    {
      if idxid in indexDesc {
        assert IndexDescAt(indexDesc, db, idxid);
        KeyLengthsAllKnown(db, idxid, indexDesc[idxid]);
        return KeysAre(indexDesc[idxid]);
      }
      var index := FindByOid(TAB_INDEX, idxid);
      if index.None? {
        return NoIndex;
      }
      var sorted := FindKeys(idxid, index.value);
      if sorted.None? {
        return BadIndex;
      }
      if sorted.value == [] {
        return NoKeys;
      }
      r := BuildIndexDesc(idxid, NumbersOf(sorted.value, index.value));
    }

    /**
     `InsertCatalogEntries`: appends a record for each entry. It fails (fatally) if one is too long or the file is
     full.
     */
    method InsertCatalogEntries(t: nat, es: seq<Entry>) returns (ok: bool)
      requires Stores() && Describing() && IsSystab(t) && (t in tableDesc || Sound()) && ForSystab(t, es)
      modifies this`systables, this`recidLookupTable, this`tableDesc, this`db
      ensures Stores() && Descs(tableDesc, old(db), fids) && (t in old(tableDesc) ==> tableDesc == old(tableDesc))
      ensures ok <==> Insertable(old(db), t, es)
      ensures ok ==> db == With(old(db), t, es)
    {
      var lookup := FindTableDesc(t);
      assert SysOk(db, fids, t) && SysDescAt(tableDesc, fids, t);
      SysLengthsKnown(db, fids, t);
      ok := lookup.Found?;
      if ok {
        ok := AppendEntries(t, lookup.desc, es);
      }
    }

    /** Appending one record. */
    method AppendEntry(t: nat, desc: Desc, e: Entry) returns (ok: bool)
      requires Stores() && IsSystab(t) && SysDesc(desc, fids, t) && Writable(e) && TabOf(e) == t
      modifies this`systables, this`db
      ensures Stores() && (ok <==> Fits(e) && |Of(old(db), t)| < MAX_SLOTS) && db == if ok then With(old(db), t, [e]) else old(db)
    {
      assert FileOk(systables, db, fids, t);
      var rec := WriteEntry(desc.cols, e);
      if rec.None? {
        return false;
      }
      var at := desc.decl.table.tabfid - 2;
      FilesAppend(systables, db, fids, t, e, rec.value);
      var f := Append(systables[at], rec.value);
      if f.None? {
        return false;
      }
      CoherentAppend(recidLookupTable, db, fids, t, e);
      systables := systables[at := f.value];
      db := With(db, t, [e]);
      ok := true;
    }

    method AppendEntries(t: nat, desc: Desc, es: seq<Entry>) returns (ok: bool)
      requires Stores() && IsSystab(t) && SysDesc(desc, fids, t) && ForSystab(t, es)
      modifies this`systables, this`db
      ensures Stores() && (ok <==> Insertable(old(db), t, es)) && (ok ==> db == With(old(db), t, es))
    {
      assert FileOk(systables, db, fids, t);
      ghost var db0 := db;
      WithNone(db0, t);
      for k := 0 to |es|
        invariant Stores() && db == With(db0, t, es[..k]) && AllFit(es, k) && |Of(db0, t)| + k <= MAX_SLOTS
      {
        WithStep(db0, t, es, k);
        ok := AppendEntry(t, desc, es[k]);
        if !ok {
          return;
        }
      }
      assert es[..|es|] == es;
      ok := true;
    }

    /** `AllocateOid` without interference: the next id, or `InvalidOid` when there is none left. */
    method AllocateOid() returns (oid: nat)
      requires FIRST_OID <= nextOid <= MAX_OID + 1
      modifies this`nextOid
      ensures if old(nextOid) > MAX_OID then oid == INVALID_OID && nextOid == old(nextOid)
              else oid == old(nextOid) && nextOid == oid + 1
    {
      if nextOid > MAX_OID {
        return INVALID_OID;
      }
      oid := nextOid;
      nextOid := nextOid + 1;
    }

    /** The rows of a new table. */
    method InsertTable(id: nat, a: TableArgs, n: nat) returns (ok: bool)
      requires Stores() && Describing() && Integrity(db, id) && FIRST_OID <= id <= MAX_OID
      requires TableArgsTyped(a) && ShortNames(a) && n <= I16_MAX && ArgsFit(a, n)
      modifies this`systables, this`recidLookupTable, this`tableDesc, this`db
      ensures ok ==> Stores() && Describing() && db == WithTable(old(db), id, a, n)
      ensures ok <==> TableInsertable(old(db), id, a, n)
    {
      TableWritable(id, a, n);
      ghost var db0 := db;
      AppendExtends(db0, id, TAB_TABLE, [NewTable(id, a, n)], id);
      ok := InsertCatalogEntries(TAB_TABLE, [NewTable(id, a, n)]);
      if !ok {
        return;
      }
      DescsExtend(tableDesc, db0, fids, id, db);
      assert FileOk(systables, db, fids, TAB_COLUMN);
      ok := InsertCatalogEntries(TAB_COLUMN, NewColumns(id, a, n));
      if ok {
        AddTableExtends(db0, id, id, a, n);
        DescsExtend(tableDesc, db0, fids, id, db);
      }
    }

    /** The check that every type exists. */
    method CheckTypes(typids: seq<nat>, n: int) returns (ok: bool)
      requires Stores() && Describing() && n <= |typids|
      modifies this`recidLookupTable, this`tableDesc
      ensures Stores() && Describing() && tableDesc == old(tableDesc) && (ok <==> TypesExist(db, typids, n))
    {
      var i := 0;
      while i < n
        invariant Stores() && Describing() && tableDesc == old(tableDesc) && 0 <= i <= |typids| && TypesExist(db, typids, i)
      {
        var typ := FindByOid(TAB_TYPE, typids[i]);
        if typ.None? {
          return false;
        }
        i := i + 1;
      }
      ok := true;
    }

    /** What `AddTable` does before it takes an id: the arguments with the defaults filled in, unless they are bad. */
    method PrepareTable(a: TableArgs) returns (ok: bool, args: TableArgs, n: int)
      requires Valid()
      modifies this`recidLookupTable, this`tableDesc
      ensures Valid() && n == I16(|a.typids|)
      ensures ok <==> !BadTable(a) && TypesExist(db, a.typids, n)
      ensures ok ==> args == Filled(a, n) && (n > 0 ==> ArgsFit(args, n)) && (n > 0 <==> |a.typids| <= I16_MAX)
    {
      n := I16(|a.typids|);
      args := a;
      Narrowed(|a.typids|);
      if a.fid == 0 || |a.typids| == 0 || |a.typids| > 0xffff {
        return false, args, n;
      }
      if Disagrees(|a.typparams|, n) || (a.names != [] && I16(|a.names|) != n) ||
         Disagrees(|a.nullables|, n) || Disagrees(|a.arrays|, n) {
        return false, args, n;
      }
      args := Filled(a, n);
      FilledFits(a);
      ok := CheckTypes(a.typids, n);
    }

    /**
     `AddTable`. An ordinary error happens exactly for refused arguments, an unknown type or a used-up counter, and
     leaves the files and the counter as they were. Otherwise an id is taken. It is lost, with nothing else changed,
     exactly if there are more than 32767 columns: `reserve` throws on the negative count. Success adds one `Table`
     row and a `Column` row for each column, exactly if all these rows can be appended, and always keeps integrity.
     */
    method AddTable(a: TableArgs) returns (r: AddResult)
      requires Valid() && TableArgsTyped(a)
      modifies this
      ensures r.Refused? <==> RefusesTable(old(db), old(nextOid), a)
      ensures r.Refused? ==> Valid() && systables == old(systables) && nextOid == old(nextOid) && db == old(db)
      ensures !r.Refused? ==> nextOid == old(nextOid) + 1 && !BadTable(a)
      ensures r.TooWide? <==> !RefusesTable(old(db), old(nextOid), a) && |a.typids| > I16_MAX
      ensures r.TooWide? ==> Valid() && systables == old(systables) && db == old(db)
      ensures r.LongName? <==> !r.Refused? && !r.TooWide? && !ShortNames(a)
      ensures r.Added? <==> !r.Refused? && !r.TooWide? && !r.LongName? && TableFits(old(db), old(nextOid), a)
      ensures r.Added? ==> Valid() && r.id == old(nextOid) && TableAdded(old(db), r.id, a, db)
      ensures r.Added? ==> TableRowsAdded(old(db), r.id, a, db)
      ensures !r.OutOfBounds? && !r.NullFunction?
    {
      var ok, args, n := PrepareTable(a);
      if !ok {
        return Refused;
      }
      var tabid := AllocateOid();
      if tabid == INVALID_OID {
        return Refused;
      }
      if n < 0 {
        return TooWide;
      }
      FilledShort(a, n);
      if !ShortNames(args) {
        return LongName;
      }
      ghost var db0 := db;
      r := InsertNewTable(tabid, args, n);
      if r.Added? {
        AskedTableRows(db0, tabid, a, n);
      }
    }

    method InsertNewTable(tabid: nat, args: TableArgs, n: nat) returns (r: AddResult)
      requires Stores() && Describing() && Indexed() && Integrity(db, tabid)
      requires FIRST_OID <= tabid <= MAX_OID && nextOid == tabid + 1
      requires TableArgsTyped(args) && ShortNames(args) && 1 <= n <= I16_MAX
      requires ArgsFit(args, n) && TypesExist(db, args.typids, n)
      modifies this`systables, this`recidLookupTable, this`tableDesc, this`db
      ensures r == if TableInsertable(old(db), tabid, args, n) then Added(tabid) else Aborted
      ensures r.Added? ==> Valid() && db == WithTable(old(db), tabid, args, n)
    {
      ghost var db0 := db;
      var ok := InsertTable(tabid, args, n);
      if !ok {
        return Aborted;
      }
      AddTableKeepsIntegrity(db0, tabid, tabid, args, n);
      IndexDescsExtend(indexDesc, db0, tabid, db);
      r := Added(tabid);
    }

    /** The rows of a new index. */
    method InsertIndex(id: nat, x: IndexArgs, d: Declared) returns (ok: bool)
      requires Stores() && Describing() && Integrity(db, id) && FIRST_OID <= id <= MAX_OID && IndexArgsFit(x, d)
      requires ForSystab(TAB_INDEX, [NewIndex(id, x)]) && ForSystab(TAB_INDEXCOLUMN, NewKeys(id, x, d))
      modifies this`systables, this`recidLookupTable, this`tableDesc, this`db
      ensures ok ==> Stores() && Describing() && db == WithIndex(old(db), id, x, d)
      ensures ok <==> IndexInsertable(old(db), id, x, d)
    {
      ghost var db0 := db;
      ok := InsertCatalogEntries(TAB_INDEX, [NewIndex(id, x)]);
      if !ok {
        return;
      }
      DescsSame(tableDesc, db0, fids, db);
      SoundSame(db0, db);
      ghost var db1 := db;
      ok := InsertCatalogEntries(TAB_INDEXCOLUMN, NewKeys(id, x, d));
      if ok {
        DescsSame(tableDesc, db1, fids, db);
      }
    }

    /** The loop over the key columns. */
    method CheckIndexKeys(x: IndexArgs, d: Declared, ops: Operators) returns (r: KeyCheck)
      requires |x.eqs| == |x.lts| == |x.colids| && Lengths(d, |d.typids|)
      ensures r == CheckKeys(x, d, ops, |x.colids|)
    {
      var eqs, lts := [], [];
      for i := 0 to |x.colids|
        invariant CheckKeys(x, d, ops, i) == KeysGood(eqs, lts)
      {
        var found := KeyOpsAt(x, d, ops, i);
        if found.Failed? {
          CheckStops(x, d, ops, i + 1, |x.colids|);
          return KeyBad(found.fault);
        }
        eqs, lts := eqs + [found.eq], lts + [found.lt];
      }
      r := KeysGood(eqs, lts);
    }

    /** The outcome for a bad key column. */
    static function Ending(fault: Fault): AddResult {
      match fault
      case Refusal => Refused
      case OutsideColumns => OutOfBounds
      case NullRow => NullFunction
    }

    /** The operation came as far as taking an id. */
    static predicate IdTaken(r: AddResult) {
      !r.Refused? && !r.OutOfBounds? && !r.NullFunction?
    }

    /** The key columns and the default name. */
    method PrepareKeys(x: IndexArgs, d: Declared, ops: Operators) returns (stop: Option<AddResult>, used: IndexArgs)
      requires Lengths(d, |d.typids|) && d.table.Table? && |x.colids| <= I16_MAX
      ensures stop == Some(OutOfBounds) <==> BadKey(x, d, ops, OutsideColumns)
      ensures stop == Some(NullFunction) <==> BadKey(x, d, ops, NullRow)
      ensures stop == Some(Refused) <==> BadKey(x, d, ops, Refusal)
      ensures stop == None || stop == Some(OutOfBounds) || stop == Some(NullFunction) || stop == Some(Refused)
      ensures stop.None? ==> Completed(x, d, ops, used)
    {
      var name := if x.name == [] then IndexName(d) else x.name;
      var keys := CheckIndexKeys(SizedKeys(x), d, ops);
      CheckKeysExactly(x, d, ops, |x.colids|);
      if !keys.KeysGood? {
        stop, used := Some(Ending(keys.fault)), x;
        assert BadKey(x, d, ops, keys.fault);
        return;
      }
      stop, used := None, x.(name := name, eqs := keys.eqs, lts := keys.lts);
      assert forall i {:trigger x.colids[i]} :: 0 <= i < |x.colids| ==> KeyAccepted(x, d, ops, i);
    }

    /** What `AddIndex` does before it takes an id: the arguments completed, or the reason to stop. */
    method PrepareIndex(x: IndexArgs, ops: Operators)
      returns (stop: Option<AddResult>, used: IndexArgs, d: Declared)
      requires Stores() && Describing() && Sound() && IndexArgsTyped(x)
      modifies this`recidLookupTable, this`tableDesc
      ensures Stores() && Describing()
      ensures Indexable(db, x) ==> Describes(db, x.tabid, d)
      ensures stop == Some(OutOfBounds) <==> Indexable(db, x) && BadKey(x, d, ops, OutsideColumns)
      ensures stop == Some(NullFunction) <==> Indexable(db, x) && BadKey(x, d, ops, NullRow)
      ensures stop == Some(Refused) <==> !Indexable(db, x) || BadKey(x, d, ops, Refusal)
      ensures stop == None || stop == Some(OutOfBounds) || stop == Some(NullFunction) || stop == Some(Refused)
      ensures stop.None? ==> Completed(x, d, ops, used)
    {
      used, d := x, Declared(NewIndex(0, x), [], [], [], []);
      var lookup := FindTableDesc(x.tabid);
      if !lookup.Found? {
        return Some(Refused), used, d;
      }
      d := lookup.desc.decl;
      if IndexRefused(x) {
        return Some(Refused), used, d;
      }
      stop, used := PrepareKeys(x, d, ops);
    }

    /**
     `AddIndex`, with the operator and function rows as a parameter. An ordinary error happens exactly for refused
     arguments, a bad key column, or a used-up counter, and leaves the files and the counter as they were.
     A negative column number is not refused: if the key columns before it are good, the source reads outside the
     table's columns. A function id without a row is not refused either: the source uses the null pointer. Success adds
     an `Index` row and the key columns, made from the table's description, exactly if all these rows can be appended,
     and keeps integrity.
     */
    method AddIndex(x: IndexArgs, ops: Operators) returns (r: AddResult, ghost used: IndexArgs, ghost d: Declared)
      requires Valid() && IndexArgsTyped(x)
      modifies this
      ensures Indexable(old(db), x) ==> Describes(old(db), x.tabid, d)
      ensures r.OutOfBounds? <==> Indexable(old(db), x) && BadKey(x, d, ops, OutsideColumns)
      ensures r.NullFunction? <==> Indexable(old(db), x) && BadKey(x, d, ops, NullRow)
      ensures r.Refused? <==>
                || !Indexable(old(db), x) || BadKey(x, d, ops, Refusal)
                || (old(nextOid) > MAX_OID && !r.OutOfBounds? && !r.NullFunction?)
      ensures !IdTaken(r) ==> Valid() && systables == old(systables) && nextOid == old(nextOid) && db == old(db)
      ensures IdTaken(r) ==> Completed(x, d, ops, used) && nextOid == old(nextOid) + 1
      ensures r.LongName? <==> IdTaken(r) && !ShortName(used.name)
      ensures r.Added? <==> IdTaken(r) && !r.LongName? && IndexInsertable(old(db), old(nextOid), used, d)
      ensures r.Added? ==> Valid() && r.id == old(nextOid) && db == WithIndex(old(db), r.id, used, d)
      ensures r.Added? ==> Lengths(d, |d.typids|) && IndexRowsAdded(old(db), r.id, x, d, ops, db)
    {
      var stop, args, decl := PrepareIndex(x, ops);
      used, d := args, decl;
      if stop.Some? {
        return stop.value, used, d;
      }
      var idxid := AllocateOid();
      if idxid == INVALID_OID {
        return Refused, used, d;
      }
      if !ShortName(args.name) {
        return LongName, used, d;
      }
      CompletedTyped(x, d, ops, used);
      ghost var db0 := db;
      r := InsertNewIndex(idxid, args, decl);
      if r.Added? {
        AskedIndexRows(db0, idxid, x, d, ops, used);
      }
    }

    method InsertNewIndex(id: nat, x: IndexArgs, d: Declared) returns (r: AddResult)
      requires Stores() && Describing() && Indexed() && Integrity(db, id) && FIRST_OID <= id <= MAX_OID && nextOid == id + 1
      requires IndexArgsTyped(x) && ShortName(x.name) && |x.colids| <= I16_MAX && IndexArgsFit(x, d)
      requires Describes(db, x.tabid, d) && forall i :: 0 <= i < |x.colids| ==> x.eqs[i] <= U32_MAX && x.lts[i] <= U32_MAX
      modifies this`systables, this`recidLookupTable, this`tableDesc, this`db
      ensures r == if IndexInsertable(old(db), id, x, d) then Added(id) else Aborted
      ensures r.Added? ==> Valid() && db == WithIndex(old(db), id, x, d)
    {
      ghost var db0 := db;
      DescribedTyped(systables, db, fids, id, x.tabid, d);
      IndexWritable(id, x, d);
      var ok := InsertIndex(id, x, d);
      if !ok {
        return Aborted;
      }
      AddIndexKeepsIntegrity(db0, id, id, x, d);
      IndexDescsExtend(indexDesc, db0, id, db);
      r := Added(id);
    }
  }

  /** The catalog has the rows of the new table. */
  ghost predicate TableAdded(db: Db, id: nat, a: TableArgs, db': Db)
    requires !BadTable(a) && |a.typids| <= I16_MAX
  {
    FilledFits(a);
    db' == WithTable(db, id, Filled(a, I16(|a.typids|)), I16(|a.typids|))
  }

  /** All rows of the table that `AddTable` makes can be appended. */
  ghost predicate TableFits(db: Db, id: nat, a: TableArgs)
    requires !BadTable(a) && |a.typids| <= I16_MAX
  {
    FilledFits(a);
    TableInsertable(db, id, Filled(a, I16(|a.typids|)), I16(|a.typids|))
  }

  // ---------------------------------------------------------------- from initialization to the catalog

  /** The systable `Table` for the initialization rewrite: `tabid` is column 0 and `tabfid` column 4. */
  function TableJob(tabid2fid: Fids): InitCatalog.Job {
    InitCatalog.Job(SysCols(TAB_TABLE), 0, 4, tabid2fid)
  }

  function CreateAll(t: nat, rows: seq<Row>): (r: seq<Entry>)
    requires forall i :: 0 <= i < |rows| ==> |rows[i]| == |SysCols(t)|
    ensures |r| == |rows| && forall i {:trigger r[i]} :: 0 <= i < |rows| ==> r[i] == Create(t, rows[i])
  {
    seq(|rows|, i requires 0 <= i < |rows| => Create(t, rows[i]))
  }

  /**
   The file that a completed initialization rewrite leaves is a file of `Table` entries as the catalog needs it,
   and each entry has the file id that the map gives for its table.
   */
  lemma InitializedTables(tabid2fid: Fids, f0: File, rows: seq<Row>, f: File)
    requires InitCatalog.Progress(TableJob(tabid2fid), f0, rows, f, |rows|) && forall i :: 0 <= i < |f0.valid| ==> f0.valid[i]
    ensures var after := InitCatalog.AllottedRows(TableJob(tabid2fid), f0.valid, rows);
      && (forall i :: 0 <= i < |after| ==> |after[i]| == |SysCols(TAB_TABLE)|)
      && FileHolds(TAB_TABLE, f, CreateAll(TAB_TABLE, after))
      && forall i {:trigger after[i]} :: 0 <= i < |after| ==>
           var e := Create(TAB_TABLE, after[i]); e.tabid in tabid2fid && e.tabfid == tabid2fid[e.tabid]
  {
    var J := TableJob(tabid2fid);
    InitCatalog.RewriteComplete(J, f0, rows, f);
    var after := InitCatalog.AllottedRows(J, f0.valid, rows);
    forall i | 0 <= i < |after|
      ensures f.valid[i] && Reads(SysCols(TAB_TABLE), Slot(f, i), after[i])
      ensures |after[i]| == |SysCols(TAB_TABLE)| && InitCatalog.FidStored(J, after[i])
    {
      assert InitCatalog.SlotReads(J.cols, f, after, i);
    }
    forall i | 0 <= i < |after|
      ensures SlotHolds(TAB_TABLE, f, CreateAll(TAB_TABLE, after), i)
    {
      assert Reads(SysCols(TAB_TABLE), Slot(f, i), after[i]);
    }
  }
}
