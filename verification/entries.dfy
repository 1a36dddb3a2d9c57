/**
 The contents of the catalog as lists of entries (the SysTable_xxx structs), in the order of their slots, and
 the relations between the systables that src/catalog/CatCacheBase_private.inc keeps.
 */
module Entries {
  import opened Base

  type Str = seq<Byte>

  /** The catalog structs, fields in column order. */
  datatype Entry =
    | Table(tabid: nat, tabissys: bool, tabisvarlen: bool, tabncols: int, tabfid: nat, tabname: Str)
    | Type(typid: nat, typlen: int, typisvarlen: bool, typbyref: bool, typalign: nat, typname: Str,
           typinfunc: nat, typoutfunc: nat, typlenfunc: nat)
    | Column(coltabid: nat, colid: int, colisarray: bool, colisnullable: bool, coltypid: nat, coltypparam: nat, colname: Str)
    | Index(idxid: nat, idxtabid: nat, idxtyp: nat, idxunique: bool, idxncols: int, idxfid: nat, idxname: Str)
    | IndexColumn(idxcolidxid: nat, idxcolid: int, idxcoltabcolid: int, idxcoltypid: nat, idxcolisnullable: bool,
                  idxcoltypparam: nat, idxcoleqfuncid: nat, idxcolltfuncid: nat)

  /** The first column of a systable, by which it is searched. */
  function IdOf(e: Entry): nat {
    match e
    case Table(id, _, _, _, _, _) => id
    case Type(id, _, _, _, _, _, _, _, _) => id
    case Column(id, _, _, _, _, _, _) => id
    case Index(id, _, _, _, _, _, _) => id
    case IndexColumn(id, _, _, _, _, _, _, _) => id
  }

  const TAB_TABLE := 1
  const TAB_TYPE := 2
  const TAB_COLUMN := 3
  const TAB_INDEX := 7
  const TAB_INDEXCOLUMN := 8

  /** The entries of each systable. */
  datatype Db = Db(tables: seq<Entry>, types: seq<Entry>, columns: seq<Entry>, indexes: seq<Entry>, idxcols: seq<Entry>)

  // ---------------------------------------------------------------- scans

  /** The first entry with the id: what a search for a unique entry finds. */
  function First(es: seq<Entry>, id: nat): (r: Option<nat>)
    ensures r.Some? ==> r.value < |es| && IdOf(es[r.value]) == id
    ensures r.None? ==> forall i :: 0 <= i < |es| ==> IdOf(es[i]) != id
  {
    if es == [] then None
    else match First(es[..|es| - 1], id)
      case Some(i) => Some(i)
      case None => if IdOf(es[|es| - 1]) == id then Some(|es| - 1) else None
  }

  lemma {:induction false} FirstIsFirst(es: seq<Entry>, id: nat)
    ensures First(es, id).Some? ==> forall j :: 0 <= j < First(es, id).value ==> IdOf(es[j]) != id
  {
    if es != [] {
      FirstIsFirst(es[..|es| - 1], id);
      assert forall j :: 0 <= j < |es| - 1 ==> es[..|es| - 1][j] == es[j];
    }
  }

  /** The entries with the id, in order. */
  function Matches(es: seq<Entry>, id: nat): (r: seq<Entry>)
    ensures |r| <= |es|
    ensures forall k :: 0 <= k < |r| ==> IdOf(r[k]) == id
  {
    if es == [] then [] else Matches(es[..|es| - 1], id) + if IdOf(es[|es| - 1]) == id then [es[|es| - 1]] else []
  }

  lemma {:induction false} FirstAppend(es: seq<Entry>, fs: seq<Entry>, id: nat)
    ensures First(es, id).Some? ==> First(es + fs, id) == First(es, id)
    ensures First(es, id).None? && First(fs, id).Some? ==> First(es + fs, id) == Some(|es| + First(fs, id).value)
    ensures First(es, id).None? && First(fs, id).None? ==> First(es + fs, id) == None
  {
    if fs == [] {
      assert es + fs == es;
    } else {
      FirstAppend(es, fs[..|fs| - 1], id);
      assert (es + fs)[..|es + fs| - 1] == es + fs[..|fs| - 1];
    }
  }

  lemma {:induction false} MatchesAppend(es: seq<Entry>, fs: seq<Entry>, id: nat)
    ensures Matches(es + fs, id) == Matches(es, id) + Matches(fs, id)
  {
    if fs == [] {
      assert es + fs == es;
    } else {
      MatchesAppend(es, fs[..|fs| - 1], id);
      assert (es + fs)[..|es + fs| - 1] == es + fs[..|fs| - 1];
    }
  }

  /** All entries have the id. */
  ghost predicate AllOf(es: seq<Entry>, id: nat) {
    forall k {:trigger es[k]} :: 0 <= k < |es| ==> IdOf(es[k]) == id
  }

  lemma {:induction false} MatchesAll(es: seq<Entry>, id: nat)
    requires AllOf(es, id)
    ensures Matches(es, id) == es
  {
    if es != [] {
      MatchesAll(es[..|es| - 1], id);
    }
  }

  lemma {:induction false} MatchesNone(es: seq<Entry>, id: nat)
    requires forall k {:trigger es[k]} :: 0 <= k < |es| ==> IdOf(es[k]) != id
    ensures Matches(es, id) == []
  {
    if es != [] {
      MatchesNone(es[..|es| - 1], id);
    }
  }

  lemma {:induction false} MatchesFind(es: seq<Entry>, id: nat, i: nat)
    requires i < |es| && IdOf(es[i]) == id
    ensures es[i] in Matches(es, id)
  {
    if i < |es| - 1 {
      MatchesFind(es[..|es| - 1], id, i);
    }
  }

  lemma {:induction false} MatchesFrom(es: seq<Entry>, id: nat, k: nat) returns (i: nat)
    requires k < |Matches(es, id)|
    ensures i < |es| && es[i] == Matches(es, id)[k]
  {
    if k < |Matches(es[..|es| - 1], id)| {
      i := MatchesFrom(es[..|es| - 1], id, k);
    } else {
      i := |es| - 1;
    }
  }

  // ---------------------------------------------------------------- integrity

  /** The number of a column in its table, or of a key column in its index. */
  function NumberOf(e: Entry): int {
    if e.Column? then e.colid else if e.IndexColumn? then e.idxcolid else 0
  }

  /** The list has exactly `n` entries, with numbers in `[0, n)` and no number twice. */
  ghost predicate Numbered(es: seq<Entry>, n: int) {
    && |es| == n
    && (forall k {:trigger es[k]} :: 0 <= k < n ==> 0 <= NumberOf(es[k]) < n)
    && (forall j, k :: 0 <= j < k < n ==> NumberOf(es[j]) != NumberOf(es[k]))
  }

  ghost predicate TableOk(db: Db, i: nat)
    requires i < |db.tables|
  {
    var t := db.tables[i];
    && t.Table? && 1 <= t.tabncols <= I16_MAX
    && First(db.tables, t.tabid) == Some(i)
    && Numbered(Matches(db.columns, t.tabid), t.tabncols)
  }

  ghost predicate ColumnOk(db: Db, i: nat)
    requires i < |db.columns|
  {
    var c := db.columns[i];
    c.Column? && First(db.tables, c.coltabid).Some? && First(db.types, c.coltypid).Some?
  }

  ghost predicate TypeRowOk(db: Db, i: nat)
    requires i < |db.types|
  {
    db.types[i].Type?
  }

  /** Column `c` is what key column `x` says it is. */
  predicate KeyMatches(x: Entry, c: Entry) {
    && x.IndexColumn? && c.Column? && c.colid == x.idxcoltabcolid && c.coltypid == x.idxcoltypid
    && c.colisnullable == x.idxcolisnullable && c.coltypparam == x.idxcoltypparam
  }

  ghost predicate KeyOk(db: Db, tabid: nat, x: Entry) {
    exists c {:trigger KeyMatches(x, c)} :: c in Matches(db.columns, tabid) && KeyMatches(x, c)
  }

  ghost predicate IndexOk(db: Db, i: nat)
    requires i < |db.indexes|
  {
    var x := db.indexes[i];
    && x.Index? && First(db.indexes, x.idxid) == Some(i) && First(db.tables, x.idxtabid).Some?
    && Numbered(Matches(db.idxcols, x.idxid), x.idxncols)
    && forall k {:trigger Matches(db.idxcols, x.idxid)[k]} :: 0 <= k < |Matches(db.idxcols, x.idxid)| ==>
         KeyOk(db, x.idxtabid, Matches(db.idxcols, x.idxid)[k])
  }

  ghost predicate IndexColumnOk(db: Db, i: nat)
    requires i < |db.idxcols|
  {
    db.idxcols[i].IndexColumn? && First(db.indexes, db.idxcols[i].idxcolidxid).Some?
  }

  ghost predicate TablesOk(db: Db) {
    forall i {:trigger TableOk(db, i)} :: 0 <= i < |db.tables| ==> TableOk(db, i)
  }

  ghost predicate ColumnsOk(db: Db) {
    && (forall i {:trigger ColumnOk(db, i)} :: 0 <= i < |db.columns| ==> ColumnOk(db, i))
    && (forall i {:trigger TypeRowOk(db, i)} :: 0 <= i < |db.types| ==> TypeRowOk(db, i))
  }

  ghost predicate IndexesOk(db: Db) {
    && (forall i {:trigger IndexOk(db, i)} :: 0 <= i < |db.indexes| ==> IndexOk(db, i))
    && (forall i {:trigger IndexColumnOk(db, i)} :: 0 <= i < |db.idxcols| ==> IndexColumnOk(db, i))
  }

  ghost predicate Below(es: seq<Entry>, next: nat) {
    forall i {:trigger es[i]} :: 0 <= i < |es| ==> IdOf(es[i]) < next
  }

  /**
   Referential integrity: every table has exactly its number of columns, numbered from 0, every column a table
   and a type, every index exactly its number of key columns, each naming a column of its table with the same
   type, parameter and nullability; table ids are distinct, index ids are distinct, and all are below the counter.
   */
  ghost predicate Integrity(db: Db, next: nat) {
    && TablesOk(db) && ColumnsOk(db) && IndexesOk(db)
    && Below(db.tables, next) && Below(db.columns, next) && Below(db.indexes, next) && Below(db.idxcols, next)
  }

  function Numbers(es: seq<Entry>): set<int> {
    if es == [] then {} else Numbers(es[..|es| - 1]) + {NumberOf(es[|es| - 1])}
  }

  lemma {:induction false} NumbersFrom(es: seq<Entry>, x: int) returns (k: nat)
    requires x in Numbers(es)
    ensures k < |es| && NumberOf(es[k]) == x
  {
    if NumberOf(es[|es| - 1]) == x {
      k := |es| - 1;
    } else {
      k := NumbersFrom(es[..|es| - 1], x);
    }
  }

  lemma {:induction false} DistinctNumbers(es: seq<Entry>, n: nat)
    requires forall k {:trigger es[k]} :: 0 <= k < |es| ==> 0 <= NumberOf(es[k]) < n
    requires forall j, k :: 0 <= j < k < |es| ==> NumberOf(es[j]) != NumberOf(es[k])
    ensures |Numbers(es)| == |es| && Numbers(es) <= Range(n)
  {
    if es != [] {
      var front, last := es[..|es| - 1], es[|es| - 1];
      DistinctNumbers(front, n);
      if NumberOf(last) in Numbers(front) {
        var k := NumbersFrom(front, NumberOf(last));
      }
    }
  }

  function Range(n: nat): (r: set<int>)
    ensures |r| == n && forall i {:trigger i in r} :: i in r <==> 0 <= i < n
  {
    if n == 0 then {} else Range(n - 1) + {n - 1}
  }

  lemma SubsetFull(a: set<int>, b: set<int>)
    requires a <= b && |a| == |b|
    ensures a == b
  {
    assert b * a == a;
    assert |b - a| + |b * a| == |b|;
    assert b - a == {};
  }

  /** `n` distinct numbers in `[0, n)`: every number occurs. */
  lemma NumberedFinds(es: seq<Entry>, n: int, x: nat) returns (k: nat)
    requires Numbered(es, n) && x < n
    ensures k < n && NumberOf(es[k]) == x
  {
    DistinctNumbers(es, n);
    SubsetFull(Numbers(es), Range(n));
    k := NumbersFrom(es, x);
  }

  // ---------------------------------------------------------------- new tables

  /** The columns of a new table, with the defaults filled in. */
  datatype TableArgs = TableArgs(name: Str, typids: seq<nat>, typparams: seq<nat>, names: seq<Str>,
                                 nullables: seq<bool>, arrays: seq<bool>, fid: nat)

  /** The vectors have the entries that the column rows are made of. */
  predicate ArgsFit(a: TableArgs, n: nat) {
    n <= |a.typids| && n <= |a.typparams| && n <= |a.names| && n <= |a.nullables| && n <= |a.arrays|
  }

  function NewColumn(id: nat, a: TableArgs, i: nat): Entry
    requires ArgsFit(a, i + 1)
  {
    Column(id, i, a.arrays[i], a.nullables[i], a.typids[i], a.typparams[i], a.names[i])
  }

  function NewColumns(id: nat, a: TableArgs, n: nat): (r: seq<Entry>)
    requires ArgsFit(a, n)
    ensures |r| == n && forall i {:trigger r[i]} :: 0 <= i < n ==> r[i] == NewColumn(id, a, i)
  {
    seq(n, i requires 0 <= i < n => NewColumn(id, a, i))
  }

  function NewTable(id: nat, a: TableArgs, n: nat): Entry {
    Table(id, false, true, n, a.fid, a.name)
  }

  /** The catalog with a new table: a row with column count `n`, and rows for its columns. */
  function WithTable(db: Db, id: nat, a: TableArgs, n: nat): Db
    requires ArgsFit(a, n)
  {
    db.(tables := db.tables + [NewTable(id, a, n)], columns := db.columns + NewColumns(id, a, n))
  }

  /** Every type that the new table uses exists. */
  predicate TypesExist(db: Db, typids: seq<nat>, n: int)
    requires n <= |typids|
  {
    forall i {:trigger typids[i]} :: 0 <= i < n ==> First(db.types, typids[i]).Some?
  }

  /** What `db'` adds to `db` is for ids from `next` on: everything about an older id is as it was. */
  ghost predicate Extends(db: Db, next: nat, db': Db) {
    && (forall id: nat {:trigger First(db'.tables, id)} :: id < next ==> First(db'.tables, id) == First(db.tables, id))
    && (forall id: nat {:trigger Matches(db'.columns, id)} :: id < next ==> Matches(db'.columns, id) == Matches(db.columns, id))
    && (forall id: nat {:trigger First(db'.indexes, id)} :: id < next ==> First(db'.indexes, id) == First(db.indexes, id))
    && (forall id: nat {:trigger Matches(db'.idxcols, id)} :: id < next ==> Matches(db'.idxcols, id) == Matches(db.idxcols, id))
    && db.tables <= db'.tables && db.columns <= db'.columns && db'.types == db.types
    && db.indexes <= db'.indexes && db.idxcols <= db'.idxcols
  }

  lemma {:induction false} ScansExtend(es: seq<Entry>, fs: seq<Entry>, id: nat, newId: nat)
    requires AllOf(fs, newId) && id != newId
    ensures First(es + fs, id) == First(es, id) && Matches(es + fs, id) == Matches(es, id)
  {
    FirstAppend(es, fs, id);
    MatchesAppend(es, fs, id);
    MatchesNone(fs, id);
  }

  lemma {:induction false} ScansNew(es: seq<Entry>, fs: seq<Entry>, newId: nat)
    requires AllOf(fs, newId) && Below(es, newId)
    ensures First(es, newId).None? && Matches(es + fs, newId) == fs
    ensures fs != [] ==> First(es + fs, newId) == Some(|es|)
  {
    FirstAppend(es, fs, newId);
    MatchesAppend(es, fs, newId);
    MatchesAll(fs, newId);
    MatchesNone(es, newId);
    if fs != [] {
      FirstIsZero(fs, newId);
    }
  }

  lemma {:induction false} FirstIsZero(fs: seq<Entry>, id: nat)
    requires fs != [] && AllOf(fs, id)
    ensures First(fs, id) == Some(0)
  {
    if |fs| > 1 {
      FirstIsZero(fs[..|fs| - 1], id);
    }
  }

  lemma AddTableExtends(db: Db, next: nat, id: nat, a: TableArgs, n: nat)
    requires next <= id && ArgsFit(a, n)
    ensures Extends(db, next, WithTable(db, id, a, n))
  {
    forall o: nat | o < next
      ensures First(WithTable(db, id, a, n).tables, o) == First(db.tables, o)
      ensures Matches(WithTable(db, id, a, n).columns, o) == Matches(db.columns, o)
    {
      ScansExtend(db.tables, [NewTable(id, a, n)], o, id);
      ScansExtend(db.columns, NewColumns(id, a, n), o, id);
    }
  }

  // ---------------------------------------------------------------- integrity of old entries

  lemma OldIndex(db: Db, next: nat, db': Db, i: nat)
    requires Extends(db, next, db') && i < |db.indexes| && IndexOk(db, i) && IdOf(db.indexes[i]) < next
    requires Below(db.tables, next)
    ensures IndexOk(db', i)
  {
    var x := db.indexes[i];
    assert x.idxtabid < next;
    forall k | 0 <= k < |Matches(db'.idxcols, x.idxid)|
      ensures KeyOk(db', x.idxtabid, Matches(db'.idxcols, x.idxid)[k])
    {
      assert KeyOk(db, x.idxtabid, Matches(db.idxcols, x.idxid)[k]);
    }
  }

  lemma TablesKept(db: Db, next: nat, db': Db)
    requires Integrity(db, next) && Extends(db, next, db')
    ensures forall i {:trigger TableOk(db', i)} :: 0 <= i < |db.tables| ==> TableOk(db', i)
    ensures forall i {:trigger ColumnOk(db', i)} :: 0 <= i < |db.columns| ==> ColumnOk(db', i)
    ensures forall i {:trigger TypeRowOk(db', i)} :: 0 <= i < |db'.types| ==> TypeRowOk(db', i)
  {
    forall i | 0 <= i < |db.tables|
      ensures TableOk(db', i)
    {
      assert TableOk(db, i);
    }
    forall i | 0 <= i < |db.columns|
      ensures ColumnOk(db', i)
    {
      assert ColumnOk(db, i);
    }
    forall i | 0 <= i < |db'.types|
      ensures TypeRowOk(db', i)
    {
      assert TypeRowOk(db, i);
    }
  }

  lemma IndexesKept(db: Db, next: nat, db': Db)
    requires Integrity(db, next) && Extends(db, next, db')
    ensures forall i {:trigger IndexOk(db', i)} :: 0 <= i < |db.indexes| ==> IndexOk(db', i)
    ensures forall i {:trigger IndexColumnOk(db', i)} :: 0 <= i < |db.idxcols| ==> IndexColumnOk(db', i)
  {
    forall i | 0 <= i < |db.indexes|
      ensures IndexOk(db', i)
    {
      assert IndexOk(db, i);
      OldIndex(db, next, db', i);
    }
    forall i | 0 <= i < |db.idxcols|
      ensures IndexColumnOk(db', i)
    {
      assert IndexColumnOk(db, i);
    }
  }

  lemma NewTableOk(db: Db, id: nat, a: TableArgs, n: nat)
    requires Below(db.tables, id) && Below(db.columns, id) && 1 <= n <= I16_MAX && ArgsFit(a, n)
    ensures TableOk(WithTable(db, id, a, n), |db.tables|)
    ensures Matches(WithTable(db, id, a, n).columns, id) == NewColumns(id, a, n)
  {
    ScansNew(db.tables, [NewTable(id, a, n)], id);
    ScansNew(db.columns, NewColumns(id, a, n), id);
  }

  lemma BelowMore(es: seq<Entry>, fs: seq<Entry>, next: nat, id: nat)
    requires Below(es, next) && next <= id && AllOf(fs, id)
    ensures Below(es + fs, id + 1)
  {
  }

  lemma AddTableTables(db: Db, next: nat, id: nat, a: TableArgs, n: nat)
    requires Integrity(db, next) && next <= id && 1 <= n <= I16_MAX && ArgsFit(a, n)
    ensures TablesOk(WithTable(db, id, a, n))
    ensures First(WithTable(db, id, a, n).tables, id) == Some(|db.tables|)
  {
    var db' := WithTable(db, id, a, n);
    AddTableExtends(db, next, id, a, n);
    TablesKept(db, next, db');
    NewTableOk(db, id, a, n);
  }

  lemma AddTableColumns(db: Db, next: nat, id: nat, a: TableArgs, n: nat)
    requires Integrity(db, next) && next <= id && 1 <= n <= I16_MAX && ArgsFit(a, n) && TypesExist(db, a.typids, n)
    ensures ColumnsOk(WithTable(db, id, a, n))
  {
    var db' := WithTable(db, id, a, n);
    AddTableExtends(db, next, id, a, n);
    TablesKept(db, next, db');
    AddTableTables(db, next, id, a, n);
    forall i | |db.columns| <= i < |db'.columns|
      ensures ColumnOk(db', i)
    {
      var k := i - |db.columns|;
      assert db'.columns[i] == NewColumns(id, a, n)[k] == NewColumn(id, a, k);
      assert First(db.types, a.typids[k]).Some?;
    }
  }

  /**
   `AddTable` keeps integrity: the table has exactly the columns given, the ids are new, and nothing about any
   other table or index changes.
   */
  lemma AddTableKeepsIntegrity(db: Db, next: nat, id: nat, a: TableArgs, n: nat)
    requires Integrity(db, next) && next <= id && 1 <= n <= I16_MAX && ArgsFit(a, n) && TypesExist(db, a.typids, n)
    ensures Integrity(WithTable(db, id, a, n), id + 1) && Extends(db, next, WithTable(db, id, a, n))
  {
    var db' := WithTable(db, id, a, n);
    AddTableExtends(db, next, id, a, n);
    AddTableTables(db, next, id, a, n);
    AddTableColumns(db, next, id, a, n);
    IndexesKept(db, next, db');
    BelowMore(db.tables, [NewTable(id, a, n)], next, id);
    BelowMore(db.columns, NewColumns(id, a, n), next, id);
    BelowMore(db.indexes, [], next, id);
    BelowMore(db.idxcols, [], next, id);
    assert db.indexes + [] == db.indexes && db.idxcols + [] == db.idxcols;
  }

  // ---------------------------------------------------------------- descriptors

  /** The declared part of a table descriptor: its `Table` entry and the columns by number. */
  datatype Declared = Declared(table: Entry, typids: seq<nat>, typparams: seq<nat>, nullables: seq<bool>, names: seq<Str>)

  predicate Lengths(d: Declared, n: int) {
    |d.typids| == |d.typparams| == |d.nullables| == |d.names| == n
  }

  /** Column `c` is described under its number. */
  predicate ColumnDescribed(d: Declared, c: Entry) {
    && c.Column? && 0 <= c.colid < |d.typids| && Lengths(d, |d.typids|)
    && d.typids[c.colid] == c.coltypid && d.typparams[c.colid] == c.coltypparam
    && d.nullables[c.colid] == c.colisnullable && d.names[c.colid] == c.colname
  }

  ghost predicate AllDescribed(d: Declared, cs: seq<Entry>) {
    forall k {:trigger cs[k]} :: 0 <= k < |cs| ==> ColumnDescribed(d, cs[k])
  }

  /** `d` is the description of the table that the catalog contains. */
  ghost predicate Describes(db: Db, id: nat, d: Declared) {
    && First(db.tables, id).Some? && d.table == db.tables[First(db.tables, id).value]
    && d.table.Table? && Lengths(d, d.table.tabncols) && AllDescribed(d, Matches(db.columns, id))
  }

  /** Integrity makes the description unique. */
  lemma DescriptionUnique(db: Db, next: nat, id: nat, d: Declared, e: Declared)
    requires Integrity(db, next) && Describes(db, id, d) && Describes(db, id, e)
    ensures d == e
  {
    var i := First(db.tables, id).value;
    assert TableOk(db, i);
    var cs, n := Matches(db.columns, id), d.table.tabncols;
    forall x: nat | x < n
      ensures d.typids[x] == e.typids[x] && d.typparams[x] == e.typparams[x]
      ensures d.nullables[x] == e.nullables[x] && d.names[x] == e.names[x]
    {
      var k := NumberedFinds(cs, n, x);
      assert ColumnDescribed(d, cs[k]) && ColumnDescribed(e, cs[k]);
    }
  }

  /** A description stays right while the catalog grows. */
  lemma DescriptionStays(db: Db, next: nat, db': Db, id: nat, d: Declared)
    requires Extends(db, next, db') && Below(db.tables, next)
    ensures Describes(db, id, d) ==> Describes(db', id, d)
    ensures id < next ==> (Describes(db', id, d) <==> Describes(db, id, d))
  {
    if First(db.tables, id).Some? {
      assert IdOf(db.tables[First(db.tables, id).value]) < next;
    }
    if id < next {
      assert First(db'.tables, id) == First(db.tables, id) && Matches(db'.columns, id) == Matches(db.columns, id);
    }
  }

  lemma NewTableScans(db: Db, id: nat, a: TableArgs, n: nat)
    requires Below(db.tables, id) && Below(db.columns, id) && 1 <= n <= I16_MAX && ArgsFit(a, n)
    ensures First(WithTable(db, id, a, n).tables, id) == Some(|db.tables|)
    ensures WithTable(db, id, a, n).tables[|db.tables|] == NewTable(id, a, n)
    ensures Matches(WithTable(db, id, a, n).columns, id) == NewColumns(id, a, n)
  {
    ScansNew(db.tables, [NewTable(id, a, n)], id);
    NewTableOk(db, id, a, n);
  }

  /** What describes the rows of new columns is the arguments. */
  lemma NewColumnsDescribed(id: nat, a: TableArgs, n: nat, d: Declared)
    requires ArgsFit(a, n) && Lengths(d, n)
    ensures AllDescribed(d, NewColumns(id, a, n)) <==>
            d.typids == a.typids[..n] && d.typparams == a.typparams[..n] && d.nullables == a.nullables[..n] && d.names == a.names[..n]
  {
    var cs := NewColumns(id, a, n);
    if AllDescribed(d, cs) {
      forall x | 0 <= x < n
        ensures d.typids[x] == a.typids[x] && d.typparams[x] == a.typparams[x]
        ensures d.nullables[x] == a.nullables[x] && d.names[x] == a.names[x]
      {
        assert ColumnDescribed(d, cs[x]);
      }
    }
  }

  /** After `AddTable` the description of the new table is the arguments, in order. */
  lemma AddTableDescribed(db: Db, id: nat, a: TableArgs, n: nat, d: Declared)
    requires Below(db.tables, id) && Below(db.columns, id) && 1 <= n <= I16_MAX && ArgsFit(a, n)
    ensures Describes(WithTable(db, id, a, n), id, d) <==>
            d == Declared(NewTable(id, a, n), a.typids[..n], a.typparams[..n], a.nullables[..n], a.names[..n])
  {
    NewTableScans(db, id, a, n);
    if d.table == NewTable(id, a, n) && Lengths(d, n) {
      NewColumnsDescribed(id, a, n, d);
    }
  }

  // ---------------------------------------------------------------- new indexes

  datatype IndexArgs = IndexArgs(name: Str, tabid: nat, typ: nat, unique: bool, colids: seq<int>, fid: nat,
                                 eqs: seq<nat>, lts: seq<nat>)

  /** The key columns name columns of the table. */
  predicate KeysInRange(x: IndexArgs, n: int) {
    forall i :: 0 <= i < |x.colids| ==> 0 <= x.colids[i] < n
  }

  predicate IndexArgsFit(x: IndexArgs, d: Declared) {
    Lengths(d, |d.typids|) && KeysInRange(x, |d.typids|) && |x.eqs| == |x.lts| == |x.colids|
  }

  function NewKey(id: nat, x: IndexArgs, d: Declared, i: nat): Entry
    requires IndexArgsFit(x, d) && i < |x.colids|
  {
    var c := x.colids[i];
    IndexColumn(id, i, c, d.typids[c], d.nullables[c], d.typparams[c], x.eqs[i], x.lts[i])
  }

  function NewKeys(id: nat, x: IndexArgs, d: Declared): (r: seq<Entry>)
    requires IndexArgsFit(x, d)
    ensures |r| == |x.colids| && forall i {:trigger r[i]} :: 0 <= i < |r| ==> r[i] == NewKey(id, x, d, i)
  {
    seq(|x.colids|, i requires 0 <= i < |x.colids| => NewKey(id, x, d, i))
  }

  function NewIndex(id: nat, x: IndexArgs): Entry {
    Index(id, x.tabid, x.typ, x.unique, |x.colids|, x.fid, x.name)
  }

  function WithIndex(db: Db, id: nat, x: IndexArgs, d: Declared): Db
    requires IndexArgsFit(x, d)
  {
    db.(indexes := db.indexes + [NewIndex(id, x)], idxcols := db.idxcols + NewKeys(id, x, d))
  }

  lemma AddIndexExtends(db: Db, next: nat, id: nat, x: IndexArgs, d: Declared)
    requires next <= id && IndexArgsFit(x, d)
    ensures Extends(db, next, WithIndex(db, id, x, d))
  {
    forall o: nat | o < next
      ensures First(WithIndex(db, id, x, d).indexes, o) == First(db.indexes, o)
      ensures Matches(WithIndex(db, id, x, d).idxcols, o) == Matches(db.idxcols, o)
    {
      ScansExtend(db.indexes, [NewIndex(id, x)], o, id);
      ScansExtend(db.idxcols, NewKeys(id, x, d), o, id);
    }
  }

  /** A key column made from the table's description matches the column row it names. */
  lemma NewKeyOk(db: Db, next: nat, id: nat, x: IndexArgs, d: Declared, i: nat)
    requires Integrity(db, next) && Describes(db, x.tabid, d) && IndexArgsFit(x, d) && i < |x.colids|
    ensures KeyOk(db, x.tabid, NewKey(id, x, d, i))
  {
    assert TableOk(db, First(db.tables, x.tabid).value);
    var cs := Matches(db.columns, x.tabid);
    var k := NumberedFinds(cs, d.table.tabncols, x.colids[i]);
    var j := MatchesFrom(db.columns, x.tabid, k);
    assert ColumnOk(db, j) && ColumnDescribed(d, cs[k]);
    assert KeyMatches(NewKey(id, x, d, i), cs[k]);
  }

  lemma NewIndexScans(db: Db, next: nat, id: nat, x: IndexArgs, d: Declared)
    requires Integrity(db, next) && next <= id && IndexArgsFit(x, d)
    ensures First(WithIndex(db, id, x, d).indexes, id) == Some(|db.indexes|)
    ensures Matches(WithIndex(db, id, x, d).idxcols, id) == NewKeys(id, x, d)
  {
    ScansNew(db.indexes, [NewIndex(id, x)], id);
    ScansNew(db.idxcols, NewKeys(id, x, d), id);
  }

  lemma NewIndexOk(db: Db, next: nat, id: nat, x: IndexArgs, d: Declared)
    requires Integrity(db, next) && next <= id && Describes(db, x.tabid, d) && IndexArgsFit(x, d)
    ensures IndexOk(WithIndex(db, id, x, d), |db.indexes|)
  {
    NewIndexScans(db, next, id, x, d);
    var db' := WithIndex(db, id, x, d);
    forall k | 0 <= k < |Matches(db'.idxcols, id)|
      ensures KeyOk(db', x.tabid, Matches(db'.idxcols, id)[k])
    {
      NewKeyOk(db, next, id, x, d, k);
    }
  }

  lemma NewIndexColumns(db: Db, next: nat, id: nat, x: IndexArgs, d: Declared)
    requires Integrity(db, next) && next <= id && Describes(db, x.tabid, d) && IndexArgsFit(x, d)
    ensures forall i {:trigger IndexColumnOk(WithIndex(db, id, x, d), i)} ::
              |db.idxcols| <= i < |WithIndex(db, id, x, d).idxcols| ==> IndexColumnOk(WithIndex(db, id, x, d), i)
  {
    var db' := WithIndex(db, id, x, d);
    NewIndexScans(db, next, id, x, d);
    forall i | |db.idxcols| <= i < |db'.idxcols|
      ensures IndexColumnOk(db', i)
    {
      var k := i - |db.idxcols|;
      assert db'.idxcols[i] == NewKeys(id, x, d)[k] == NewKey(id, x, d, k);
    }
  }

  lemma AddIndexIndexes(db: Db, next: nat, id: nat, x: IndexArgs, d: Declared)
    requires Integrity(db, next) && next <= id && Describes(db, x.tabid, d) && IndexArgsFit(x, d)
    ensures IndexesOk(WithIndex(db, id, x, d))
  {
    AddIndexExtends(db, next, id, x, d);
    IndexesKept(db, next, WithIndex(db, id, x, d));
    NewIndexOk(db, next, id, x, d);
    NewIndexColumns(db, next, id, x, d);
  }

  /**
   `AddIndex` keeps integrity: the key columns are taken from the description of the table, so they match its
   column rows.
   */
  lemma AddIndexKeepsIntegrity(db: Db, next: nat, id: nat, x: IndexArgs, d: Declared)
    requires Integrity(db, next) && next <= id && Describes(db, x.tabid, d) && IndexArgsFit(x, d)
    ensures Integrity(WithIndex(db, id, x, d), id + 1) && Extends(db, next, WithIndex(db, id, x, d))
  {
    AddIndexExtends(db, next, id, x, d);
    TablesKept(db, next, WithIndex(db, id, x, d));
    AddIndexIndexes(db, next, id, x, d);
    BelowMore(db.tables, [], next, id);
    BelowMore(db.columns, [], next, id);
    BelowMore(db.indexes, [NewIndex(id, x)], next, id);
    BelowMore(db.idxcols, NewKeys(id, x, d), next, id);
    assert db.tables + [] == db.tables && db.columns + [] == db.columns;
  }

  // ---------------------------------------------------------------- index descriptors

  /** The key schema of an index descriptor: the `Index` entry, and the key columns by number. */
  datatype KeySchema = KeySchema(index: Entry, colids: seq<int>, typids: seq<nat>, typparams: seq<nat>, nullables: seq<bool>)

  predicate KeyLengths(s: KeySchema, n: int) {
    |s.colids| == |s.typids| == |s.typparams| == |s.nullables| == n
  }

  /** Key column `c` is in the schema under its number. */
  predicate KeyDescribed(s: KeySchema, c: Entry) {
    && c.IndexColumn? && 0 <= c.idxcolid < |s.colids| && KeyLengths(s, |s.colids|)
    && s.colids[c.idxcolid] == c.idxcoltabcolid && s.typids[c.idxcolid] == c.idxcoltypid
    && s.typparams[c.idxcolid] == c.idxcoltypparam && s.nullables[c.idxcolid] == c.idxcolisnullable
  }

  ghost predicate AllKeysDescribed(s: KeySchema, cs: seq<Entry>) {
    forall k {:trigger cs[k]} :: 0 <= k < |cs| ==> KeyDescribed(s, cs[k])
  }

  /** `s` is the key schema of the index: its key column rows, sorted by number. Without key columns there is none. */
  ghost predicate KeysOf(db: Db, id: nat, s: KeySchema) {
    && First(db.indexes, id).Some? && Matches(db.idxcols, id) != [] && s.index == db.indexes[First(db.indexes, id).value]
    && s.index.Index? && KeyLengths(s, s.index.idxncols) && AllKeysDescribed(s, Matches(db.idxcols, id))
  }

  /** The key schema that the arguments of `AddIndex` and the description of the table make. */
  function NewKeySchema(id: nat, x: IndexArgs, d: Declared): (s: KeySchema)
    requires IndexArgsFit(x, d)
    ensures s.index == NewIndex(id, x) && s.colids == x.colids && KeyLengths(s, |x.colids|)
    ensures forall i {:trigger s.typids[i]} :: 0 <= i < |x.colids| ==> (
              && s.typids[i] == d.typids[x.colids[i]] && s.typparams[i] == d.typparams[x.colids[i]]
              && s.nullables[i] == d.nullables[x.colids[i]])
  {
    var n := |x.colids|;
    KeySchema(NewIndex(id, x), x.colids, seq(n, i requires 0 <= i < n => d.typids[x.colids[i]]),
              seq(n, i requires 0 <= i < n => d.typparams[x.colids[i]]), seq(n, i requires 0 <= i < n => d.nullables[x.colids[i]]))
  }

  /**
   After `AddIndex` the key schema of the new index is that of the columns asked for, as the table describes them, and
   if none were asked for it has no key schema.
   */
  lemma AddIndexDescribed(db: Db, next: nat, id: nat, x: IndexArgs, d: Declared, s: KeySchema)
    requires Integrity(db, next) && next <= id && IndexArgsFit(x, d)
    ensures KeysOf(WithIndex(db, id, x, d), id, s) <==> x.colids != [] && s == NewKeySchema(id, x, d)
  {
    NewIndexScans(db, next, id, x, d);
    var cs, e := NewKeys(id, x, d), NewKeySchema(id, x, d);
    if s == e {
      forall k | 0 <= k < |cs|
        ensures KeyDescribed(s, cs[k])
      {
        assert cs[k] == NewKey(id, x, d, k) && e.typids[k] == d.typids[x.colids[k]];
      }
    }
    if KeysOf(WithIndex(db, id, x, d), id, s) {
      forall k | 0 <= k < |cs|
        ensures s.colids[k] == e.colids[k] && s.typids[k] == e.typids[k]
        ensures s.typparams[k] == e.typparams[k] && s.nullables[k] == e.nullables[k]
      {
        assert KeyDescribed(s, cs[k]) && cs[k] == NewKey(id, x, d, k) && e.typids[k] == d.typids[x.colids[k]];
      }
      assert s == e;
    }
  }

  /** A key schema stays right while the catalog grows. */
  lemma KeysStay(db: Db, next: nat, db': Db, id: nat, s: KeySchema)
    requires Extends(db, next, db') && id < next
    ensures KeysOf(db', id, s) <==> KeysOf(db, id, s)
  {
    assert First(db'.indexes, id) == First(db.indexes, id) && Matches(db'.idxcols, id) == Matches(db.idxcols, id);
  }

  // ---------------------------------------------------------------- whole runs

  /** A successful `AddTable` with `n` columns, a successful `AddIndex` on a described table, or a call that loses its id. */
  datatype Op = NewTableOp(a: TableArgs, n: nat) | NewIndexOp(x: IndexArgs, d: Declared) | LostIdOp

  ghost predicate OpOk(db: Db, op: Op) {
    match op
    case NewTableOp(a, n) => 1 <= n <= I16_MAX && ArgsFit(a, n) && TypesExist(db, a.typids, n)
    case NewIndexOp(x, d) => Describes(db, x.tabid, d) && IndexArgsFit(x, d)
    case LostIdOp => true
  }

  ghost function Apply(db: Db, id: nat, op: Op): Db
    requires OpOk(db, op)
  {
    match op
    case NewTableOp(a, n) => WithTable(db, id, a, n)
    case NewIndexOp(x, d) => WithIndex(db, id, x, d)
    case LostIdOp => db
  }

  ghost predicate OpsOk(db: Db, next: nat, ops: seq<Op>)
    decreases |ops|
  {
    ops == [] || (OpOk(db, ops[0]) && OpsOk(Apply(db, next, ops[0]), next + 1, ops[1..]))
  }

  /** The catalog after a run, each operation taking the next id. */
  ghost function RunOps(db: Db, next: nat, ops: seq<Op>): Db
    requires OpsOk(db, next, ops)
    decreases |ops|
  {
    if ops == [] then db else RunOps(Apply(db, next, ops[0]), next + 1, ops[1..])
  }

  lemma ExtendsTwice(db: Db, next: nat, mid: Db, next': nat, end: Db)
    requires Extends(db, next, mid) && Extends(mid, next', end) && next <= next'
    ensures Extends(db, next, end)
  {
    forall id: nat | id < next
      ensures First(end.tables, id) == First(db.tables, id) && Matches(end.columns, id) == Matches(db.columns, id)
      ensures First(end.indexes, id) == First(db.indexes, id) && Matches(end.idxcols, id) == Matches(db.idxcols, id)
    {
      assert First(mid.tables, id) == First(db.tables, id) && Matches(mid.columns, id) == Matches(db.columns, id);
      assert First(mid.indexes, id) == First(db.indexes, id) && Matches(mid.idxcols, id) == Matches(db.idxcols, id);
    }
  }

  /** Integrity, stated behind a key. */
  ghost predicate Intact(db: Db, next: nat) {
    forall k {:trigger Key(k, db)} :: Key(k, db) ==> Integrity(db, next)
  }

  lemma ApplyIntact(db: Db, next: nat, op: Op)
    requires Intact(db, next) && OpOk(db, op)
    ensures Intact(Apply(db, next, op), next + 1) && Extends(db, next, Apply(db, next, op))
  {
    assert Key(0, db);
    match op
    case NewTableOp(a, n) => AddTableKeepsIntegrity(db, next, next, a, n);
    case NewIndexOp(x, d) => AddIndexKeepsIntegrity(db, next, next, x, d);
    case LostIdOp =>
  }

  lemma {:induction false} RunIntact(db: Db, next: nat, ops: seq<Op>)
    requires Intact(db, next) && OpsOk(db, next, ops)
    ensures Intact(RunOps(db, next, ops), next + |ops|) && Extends(db, next, RunOps(db, next, ops))
    decreases |ops|
  {
    if ops == [] {
      assert Extends(db, next, db);
    } else {
      var mid := Apply(db, next, ops[0]);
      ApplyIntact(db, next, ops[0]);
      RunIntact(mid, next + 1, ops[1..]);
      ExtendsTwice(db, next, mid, next + 1, RunOps(mid, next + 1, ops[1..]));
    }
  }

  /** Integrity over whole runs, and nothing about an older id ever changes. */
  lemma RunKeepsIntegrity(db: Db, next: nat, ops: seq<Op>)
    requires Integrity(db, next) && OpsOk(db, next, ops)
    ensures Integrity(RunOps(db, next, ops), next + |ops|) && Extends(db, next, RunOps(db, next, ops))
  {
    RunIntact(db, next, ops);
    assert Key(0, RunOps(db, next, ops));
  }

  /**
   Right after the table was added and after any later operations, what the catalog describes it by is the arguments
   of the call, in order.
   */
  lemma DescribedEverAfter(db: Db, next: nat, a: TableArgs, n: nat, ops: seq<Op>, d: Declared)
    requires Integrity(db, next) && OpOk(db, NewTableOp(a, n)) && OpsOk(WithTable(db, next, a, n), next + 1, ops)
    ensures Describes(RunOps(WithTable(db, next, a, n), next + 1, ops), next, d) <==>
            d == Declared(NewTable(next, a, n), a.typids[..n], a.typparams[..n], a.nullables[..n], a.names[..n])
  {
    var mid := WithTable(db, next, a, n);
    AddTableKeepsIntegrity(db, next, next, a, n);
    RunKeepsIntegrity(mid, next + 1, ops);
    DescriptionStays(mid, next + 1, RunOps(mid, next + 1, ops), next, d);
    AddTableDescribed(db, next, a, n, d);
  }

  lemma KeysEverAfter(db: Db, next: nat, x: IndexArgs, d: Declared, end: Db, s: KeySchema)
    requires Integrity(db, next) && IndexArgsFit(x, d) && Extends(WithIndex(db, next, x, d), next + 1, end)
    ensures KeysOf(end, next, s) <==> x.colids != [] && s == NewKeySchema(next, x, d)
    ensures Matches(end.idxcols, next) == [] <==> x.colids == []
  {
    NewIndexScans(db, next, next, x, d);
    AddIndexDescribed(db, next, next, x, d, s);
    KeysStay(WithIndex(db, next, x, d), next + 1, end, next, s);
  }

  lemma IndexRunExtends(db: Db, next: nat, x: IndexArgs, d: Declared, ops: seq<Op>)
    requires Intact(db, next) && OpOk(db, NewIndexOp(x, d)) && OpsOk(WithIndex(db, next, x, d), next + 1, ops)
    ensures Extends(WithIndex(db, next, x, d), next + 1, RunOps(WithIndex(db, next, x, d), next + 1, ops))
    ensures Extends(db, next, RunOps(WithIndex(db, next, x, d), next + 1, ops))
  {
    var mid := WithIndex(db, next, x, d);
    ApplyIntact(db, next, NewIndexOp(x, d));
    RunIntact(mid, next + 1, ops);
    ExtendsTwice(db, next, mid, next + 1, RunOps(mid, next + 1, ops));
  }

  lemma IndexDescribedLater(db: Db, next: nat, x: IndexArgs, d: Declared, end: Db, s: KeySchema)
    requires Integrity(db, next) && IndexArgsFit(x, d) && Describes(db, x.tabid, d)
    requires Extends(WithIndex(db, next, x, d), next + 1, end) && Extends(db, next, end)
    ensures Describes(end, x.tabid, d) && (KeysOf(end, next, s) <==> x.colids != [] && s == NewKeySchema(next, x, d))
    ensures First(end.indexes, next).Some? && (Matches(end.idxcols, next) == [] <==> x.colids == [])
  {
    DescriptionStays(db, next, end, x.tabid, d);
    KeysEverAfter(db, next, x, d, end, s);
    NewIndexScans(db, next, next, x, d);
  }

  /**
   Agreement of `AddIndex`, `FindIndexDesc` and `FindTableDesc`: right after the index was added and after any later
   operations, its key columns have the types, parameters and nullability of the table's columns that were asked for,
   and the table still has the description they were taken from. An index for which none were asked has no key schema.
   */
  lemma IndexDescribedEverAfter(db: Db, next: nat, x: IndexArgs, d: Declared, ops: seq<Op>, s: KeySchema)
    requires Integrity(db, next) && OpOk(db, NewIndexOp(x, d)) && OpsOk(WithIndex(db, next, x, d), next + 1, ops)
    ensures var end := RunOps(WithIndex(db, next, x, d), next + 1, ops);
      && Describes(end, x.tabid, d) && (KeysOf(end, next, s) <==> x.colids != [] && s == NewKeySchema(next, x, d))
      && First(end.indexes, next).Some? && (Matches(end.idxcols, next) == [] <==> x.colids == [])
  {
    IndexRunExtends(db, next, x, d, ops);
    IndexDescribedLater(db, next, x, d, RunOps(WithIndex(db, next, x, d), next + 1, ops), s);
  }
}
