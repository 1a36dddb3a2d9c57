/**
 A smallest catalog that describes itself, as files and as a cache. It shows that the cache invariant can be met, and
 gives the findings about `AddTable` and `AddIndex` a database in which they happen.
 */
module Seed {
  import opened Base
  import opened Layout
  import opened SlotFile
  import opened Entries
  import opened EntryCodec
  import opened OidAllocation
  import opened Asked
  import opened Catalog
  import opened Agreement
  import opened RecordLimits

  // ---------------------------------------------------------------- the entries

  function ValueType(len: nat): Entry {
    Type(len, len, false, false, len, [], 0, 0, 0)
  }

  const VARCHAR := 16
  const CHAR := 32
  const CHAR_LENGTH_FUNCTION := 892

  /** The by-value types, numbered by their lengths, `VARCHAR`, and `CHAR` with its length function. */
  const TYPES := [ValueType(1), ValueType(2), ValueType(4), ValueType(8), Type(VARCHAR, -1, true, true, 1, [], 0, 0, 0),
                  Type(CHAR, 0, false, true, 1, [], 0, 0, CHAR_LENGTH_FUNCTION)]

  function TypeNumber(c: Col): nat {
    if c.len == -1 then VARCHAR else c.len
  }

  /** The number of types in front of a type. */
  function TypeAt(id: nat): (i: nat)
    requires id == 1 || id == 2 || id == 4 || id == 8 || id == VARCHAR || id == CHAR
    ensures i < |TYPES| && IdOf(TYPES[i]) == id && forall j :: 0 <= j < i ==> IdOf(TYPES[j]) != id
  {
    if id == 1 then 0 else if id == 2 then 1 else if id == 4 then 2 else if id == 8 then 3 else if id == VARCHAR then 4 else 5
  }

  lemma TypeIsFound(id: nat)
    requires id == 1 || id == 2 || id == 4 || id == 8 || id == VARCHAR || id == CHAR
    ensures First(TYPES, id) == Some(TypeAt(id))
  {
    assert First(TYPES[..TypeAt(id)], id).None?;
    FirstStops(TYPES, id, TypeAt(id));
  }

  lemma SysColFound(c: Col)
    requires SysCol(c)
    ensures First(TYPES, TypeNumber(c)).Some? && FindCol(TYPES, TypeNumber(c), 0, false) == Some(c)
  {
    TypeIsFound(TypeNumber(c));
  }

  const FIDS: map<nat, nat> := map[TAB_TABLE := 2, TAB_TYPE := 3, TAB_COLUMN := 4, TAB_INDEX := 5, TAB_INDEXCOLUMN := 6]

  /** The arguments that make the rows of a systable. */
  function SysArgs(t: nat): (a: TableArgs)
    ensures ArgsFit(a, |SysCols(t)|) && |a.typids| == |SysCols(t)|
  {
    var n := |SysCols(t)|;
    TableArgs([], seq(n, i requires 0 <= i < n => TypeNumber(SysCols(t)[i])), seq(n, i => 0), seq(n, i => []),
              seq(n, i => false), seq(n, i => false), if t in FIDS then FIDS[t] else 0)
  }

  const TABS := [TAB_TABLE, TAB_TYPE, TAB_COLUMN, TAB_INDEX, TAB_INDEXCOLUMN]

  /** The types, and the rows that describe the systables. */
  function SeedDb(tabs: seq<nat>): Db {
    if tabs == [] then Db([], TYPES, [], [], [])
    else
      var t := tabs[|tabs| - 1];
      WithTable(SeedDb(tabs[..|tabs| - 1]), t, SysArgs(t), |SysCols(t)|)
  }

  function NextOf(tabs: seq<nat>): nat {
    if tabs == [] then 1 else tabs[|tabs| - 1] + 1
  }

  /** Systables in increasing order. */
  ghost predicate Rising(tabs: seq<nat>) {
    && (forall i {:trigger tabs[i]} :: 0 <= i < |tabs| ==> IsSystab(tabs[i]))
    && forall i, j :: 0 <= i < j < |tabs| ==> tabs[i] < tabs[j]
  }

  /** The rows of the systable are there, and nothing else has its id. */
  ghost predicate Seeded(db: Db, t: nat) {
    && First(db.tables, t).Some? && db.tables[First(db.tables, t).value] == NewTable(t, SysArgs(t), |SysCols(t)|)
    && Matches(db.columns, t) == NewColumns(t, SysArgs(t), |SysCols(t)|)
  }

  lemma SysTypesExist(db: Db, t: nat)
    requires db.types == TYPES
    ensures TypesExist(db, SysArgs(t).typids, |SysCols(t)|)
  {
    forall i | 0 <= i < |SysCols(t)|
      ensures First(db.types, SysArgs(t).typids[i]).Some?
    {
      SysColFound(SysCols(t)[i]);
    }
  }

  lemma SeededStays(db: Db, next: nat, db': Db, t: nat)
    requires Seeded(db, t) && Extends(db, next, db') && t < next
    ensures Seeded(db', t)
  {
    assert First(db'.tables, t) == First(db.tables, t) && Matches(db'.columns, t) == Matches(db.columns, t);
  }

  ghost predicate AllSeeded(db: Db, tabs: seq<nat>) {
    forall i {:trigger tabs[i]} :: 0 <= i < |tabs| ==> Seeded(db, tabs[i])
  }

  lemma SeedStep(db: Db, tabs: seq<nat>, t: nat, a: TableArgs, n: nat)
    requires Rising(tabs + [t]) && Integrity(db, NextOf(tabs)) && db.types == TYPES && AllSeeded(db, tabs)
    requires a == SysArgs(t) && n == |SysCols(t)|
    ensures Integrity(WithTable(db, t, a, n), t + 1) && AllSeeded(WithTable(db, t, a, n), tabs + [t])
  {
    var db', next := WithTable(db, t, a, n), NextOf(tabs);
    assert (tabs + [t])[|tabs|] == t && forall i :: 0 <= i < |tabs| ==> (tabs + [t])[i] == tabs[i];
    SysTypesExist(db, t);
    AddTableKeepsIntegrity(db, next, t, a, n);
    NewTableScans(db, t, a, n);
    forall i | 0 <= i < |tabs|
      ensures Seeded(db', tabs[i])
    {
      SeededStays(db, next, db', tabs[i]);
    }
  }

  lemma {:induction false} SeedHolds(tabs: seq<nat>)
    requires Rising(tabs)
    ensures Integrity(SeedDb(tabs), NextOf(tabs)) && AllSeeded(SeedDb(tabs), tabs)
    ensures SeedDb(tabs).types == TYPES && SeedDb(tabs).indexes == SeedDb(tabs).idxcols == []
  {
    if tabs != [] {
      var front, t := tabs[..|tabs| - 1], tabs[|tabs| - 1];
      assert front + [t] == tabs;
      SeedHolds(front);
      SeedStep(SeedDb(front), front, t, SysArgs(t), |SysCols(t)|);
    }
  }

  // ---------------------------------------------------------------- the descriptors

  lemma SeededSysOk(db: Db, t: nat)
    requires IsSystab(t) && Seeded(db, t) && db.types == TYPES
    ensures SysOk(db, FIDS, t)
  {
    forall k | 0 <= k < |SysCols(t)|
      ensures ColumnIs(db.types, t, Matches(db.columns, t)[k])
    {
      assert Matches(db.columns, t)[k] == NewColumn(t, SysArgs(t), k);
      SysColFound(SysCols(t)[k]);
    }
  }

  function SysDeclared(t: nat): (d: Declared)
    ensures Lengths(d, |SysCols(t)|)
  {
    var a := SysArgs(t);
    Declared(NewTable(t, a, |SysCols(t)|), a.typids, a.typparams, a.nullables, a.names)
  }

  function SysBoot(t: nat): Desc {
    Desc(SysDeclared(t), SysCols(t), LayoutOf(SysCols(t)))
  }

  /** The bootstrap descriptors. */
  function Boot(tabs: set<nat>): map<nat, Desc> {
    map t | t in tabs :: SysBoot(t)
  }

  lemma SysColsTyped(types: seq<Entry>, t: nat, d: Declared, cols: seq<Col>)
    requires types == TYPES && cols == SysCols(t) && d == SysDeclared(t)
    ensures ColsAre(types, d, cols) && |cols| == |d.typids|
  {
    forall i | 0 <= i < |cols|
      ensures ColIs(types, d, cols, i)
    {
      SysColFound(cols[i]);
    }
  }

  lemma RowsDescribe(db: Db, t: nat, a: TableArgs, n: nat, d: Declared)
    requires 1 <= n <= I16_MAX && ArgsFit(a, n)
    requires First(db.tables, t).Some? && db.tables[First(db.tables, t).value] == NewTable(t, a, n)
    requires Matches(db.columns, t) == NewColumns(t, a, n)
    requires |a.typids| == |a.typparams| == |a.nullables| == |a.names| == n
    requires d == Declared(NewTable(t, a, n), a.typids, a.typparams, a.nullables, a.names)
    ensures Describes(db, t, d)
  {
    assert a.typids == a.typids[..n] && a.typparams == a.typparams[..n] && a.nullables == a.nullables[..n] && a.names == a.names[..n];
    NewColumnsDescribed(t, a, n, d);
  }

  lemma SeededDescribed(db: Db, t: nat)
    requires IsSystab(t) && Seeded(db, t) && db.types == TYPES
    ensures DescOk(db, t, SysBoot(t))
  {
    SysColsTyped(db.types, t, SysDeclared(t), SysCols(t));
    RowsDescribe(db, t, SysArgs(t), |SysCols(t)|, SysDeclared(t));
  }

  lemma SeedDescribesItself(db: Db)
    requires db.types == TYPES && forall t {:trigger Seeded(db, t)} :: IsSystab(t) ==> Seeded(db, t)
    ensures SystablesDescribed(db, FIDS) && Booted(db, Boot({TAB_TABLE, TAB_TYPE, TAB_COLUMN}))
  {
    var boot := Boot({TAB_TABLE, TAB_TYPE, TAB_COLUMN});
    forall t | IsSystab(t)
      ensures SysOk(db, FIDS, t)
    {
      SeededSysOk(db, t);
    }
    forall t | Minimal(t)
      ensures BootOk(db, boot, t)
    {
      SeededDescribed(db, t);
    }
  }

  // ---------------------------------------------------------------- the files

  ghost predicate Storable(t: nat, es: seq<Entry>) {
    |es| <= MAX_SLOTS && forall k {:trigger es[k]} :: 0 <= k < |es| ==> Writable(es[k]) && TabOf(es[k]) == t && Fits(es[k])
  }

  /** A file with a record for each entry. */
  method WriteFile(t: nat, es: seq<Entry>) returns (f: File)
    requires Storable(t, es)
    ensures FileHolds(t, f, es)
  {
    f := EMPTY;
    for k := 0 to |es|
      invariant FileHolds(t, f, es[..k])
    {
      assert es[..k + 1] == es[..k] + [es[k]];
      EncodeExact(es[k]);
      assert Key(0, es[k]);
      EncodedHeld(es[k]);
      var rec := Encode(es[k]).payload;
      AppendHolds(t, f, es[..k], es[k], rec);
      f := Append(f, rec).value;
    }
    assert es[..|es|] == es;
  }

  lemma SysRowsStorable(t: nat, a: TableArgs, n: nat)
    requires IsSystab(t) && a == SysArgs(t) && n == |SysCols(t)|
    ensures Storable(TAB_TABLE, [NewTable(t, a, n)]) && Storable(TAB_COLUMN, NewColumns(t, a, n))
  {
    ShortFits(NewTable(t, a, n));
    forall k | 0 <= k < n
      ensures Writable(NewColumns(t, a, n)[k]) && Fits(NewColumns(t, a, n)[k])
    {
      assert NewColumns(t, a, n)[k] == NewColumn(t, a, k);
      assert SysCol(SysCols(t)[k]);
      ShortFits(NewColumn(t, a, k));
    }
  }

  lemma StorableMore(t: nat, es: seq<Entry>, fs: seq<Entry>)
    requires Storable(t, es) && Storable(t, fs) && |es| + |fs| <= MAX_SLOTS
    ensures Storable(t, es + fs)
  {
    forall k | 0 <= k < |es + fs|
      ensures Writable((es + fs)[k]) && TabOf((es + fs)[k]) == t && Fits((es + fs)[k])
    {
      assert (es + fs)[k] == if k < |es| then es[k] else fs[k - |es|];
    }
  }

  lemma TypesStorable()
    ensures Storable(TAB_TYPE, TYPES)
  {
    forall i | 0 <= i < |TYPES|
      ensures Writable(TYPES[i]) && Fits(TYPES[i])
    {
      ShortFits(TYPES[i]);
    }
  }

  lemma {:induction false} SeedStorable(tabs: seq<nat>)
    requires Rising(tabs) && |tabs| <= 5
    ensures Storable(TAB_TABLE, SeedDb(tabs).tables) && Storable(TAB_COLUMN, SeedDb(tabs).columns)
    ensures |SeedDb(tabs).tables| == |tabs| && |SeedDb(tabs).columns| <= 9 * |tabs|
  {
    if tabs != [] {
      var front, t := tabs[..|tabs| - 1], tabs[|tabs| - 1];
      var a, n := SysArgs(t), |SysCols(t)|;
      SeedStorable(front);
      SysRowsStorable(t, a, n);
      StorableMore(TAB_TABLE, SeedDb(front).tables, [NewTable(t, a, n)]);
      StorableMore(TAB_COLUMN, SeedDb(front).columns, NewColumns(t, a, n));
    }
  }

  /** The catalog describes itself and fits into files. */
  ghost predicate Complete(db: Db) {
    && Integrity(db, FIRST_OID) && db.types == TYPES && db.indexes == db.idxcols == []
    && (forall t {:trigger Seeded(db, t)} :: IsSystab(t) ==> Seeded(db, t))
    && Storable(TAB_TABLE, db.tables) && Storable(TAB_TYPE, db.types) && Storable(TAB_COLUMN, db.columns)
    && |db.tables| < 1000 && |db.columns| < 1000
  }

  method Rows() returns (db: Db)
    ensures Complete(db)
  {
    var tabs := TABS;
    SeedHolds(tabs);
    SeedStorable(tabs);
    TypesStorable();
    db := SeedDb(tabs);
    assert forall t :: IsSystab(t) ==> t in tabs;
  }

  lemma FilesHold(db: Db, files: seq<File>)
    requires |files| == 5 && db.indexes == db.idxcols == [] && files[3] == files[4] == EMPTY
    requires FileHolds(TAB_TABLE, files[0], db.tables) && FileHolds(TAB_TYPE, files[1], db.types)
    requires FileHolds(TAB_COLUMN, files[2], db.columns)
    ensures FilesOk(files, db, FIDS)
  {
    forall t: nat | IsSystab(t)
      ensures FileOk(files, db, FIDS, t)
    {
    }
  }

  method WriteFiles(db: Db) returns (files: seq<File>)
    requires Complete(db)
    ensures FilesOk(files, db, FIDS)
  {
    var tables := WriteFile(TAB_TABLE, db.tables);
    var types := WriteFile(TAB_TYPE, db.types);
    var columns := WriteFile(TAB_COLUMN, db.columns);
    files := [tables, types, columns, EMPTY, EMPTY];
    FilesHold(db, files);
  }

  /** The catalog, opened over its files. */
  method Open(db: Db) returns (c: CatCache)
    requires Complete(db)
    ensures fresh(c) && c.Valid() && c.db == db && c.fids == FIDS && c.nextOid == FIRST_OID
  {
    SeedDescribesItself(db);
    var files := WriteFiles(db);
    c := new CatCache(files, FIRST_OID, db, FIDS);
    c.LoadMinCache(2, Boot({TAB_TABLE, TAB_TYPE, TAB_COLUMN}));
  }

  // ---------------------------------------------------------------- what happens in it

  /** A table with a `CHAR` column of 40000 bytes is added, and cannot be described. */
  method LongCharHappens() returns (r: AddResult, found: Lookup)
    ensures r == Added(FIRST_OID) && found == NoLayout
  {
    var db := Rows();
    var c := Open(db);
    TypeIsFound(CHAR);
    r, found := LongCharAdded(c, [], CHAR, 7);
  }

  lemma SeedTableKnown(db: Db)
    requires Complete(db)
    ensures First(db.tables, TAB_TABLE).Some? && LengthsKnown(db, TAB_TABLE)
  {
    assert Seeded(db, TAB_TABLE);
    SeededSysOk(db, TAB_TABLE);
    forall k | 0 <= k < |Matches(db.columns, TAB_TABLE)|
      ensures LengthKnown(db.types, Matches(db.columns, TAB_TABLE)[k])
    {
      assert ColumnIs(db.types, TAB_TABLE, Matches(db.columns, TAB_TABLE)[k]);
    }
  }

  /** An index without key columns on the systable `Table` is added, and finding it uses a null key schema. */
  method NoKeyIndexHappens(ops: Operators) returns (r: AddResult, found: KeyLookup)
    ensures r == Added(FIRST_OID) && found == NoKeys
  {
    var db := Rows();
    var c := Open(db);
    SeedTableKnown(db);
    var x := IndexArgs([65], TAB_TABLE, IDXTYP_BTREE, false, [], 7, [], []);
    r, found := NoKeyIndexAdded(c, x, ops);
  }

  /** A call with 32768 columns is not refused: it takes an id and throws. */
  method WideCallHappens() returns (r: AddResult)
    ensures r.TooWide?
  {
    var db := Rows();
    var c := Open(db);
    var types := seq(32768, i => 1);
    WideCallTakesId(c.db, c.nextOid, [], types, 7);
    r := c.AddTable(WideCall([], types, 7));
  }
}
