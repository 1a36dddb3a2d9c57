/**
 What the callers of `AddTable` and `AddIndex` ask for, in terms of the arguments alone, and the rows that this means
 (src/catalog/CatCacheBase_private.inc:580-864).
 */
module Asked {
  import opened Base
  import opened Entries
  import opened OidAllocation

  // ---------------------------------------------------------------- tables

  /** The number that decimal digits stand for. */
  function Value(digits: Str): int {
    if digits == [] then 0 else 10 * Value(digits[..|digits| - 1]) + (digits[|digits| - 1] as int - 48)
  }

  /** The decimal digits of a number, without leading zeros. */
  ghost predicate DigitsOf(s: Str, n: nat) {
    && s != [] && (forall k :: 0 <= k < |s| ==> 48 <= s[k] <= 57) && Value(s) == n
    && (|s| > 1 ==> s[0] != 48)
  }

  /** The default name of column `i`: `col_` and the digits of `i`. */
  ghost predicate DefaultName(name: Str, i: nat) {
    |name| > 4 && name[0] == 'c' as int && name[1] == 'o' as int && name[2] == 'l' as int && name[3] == '_' as int
    && DigitsOf(name[4..], i)
  }

  /** The row of column `i`, with a default where no vector is given. */
  ghost predicate ColumnAsked(a: TableArgs, id: nat, i: nat, c: Entry) {
    && c.Column? && c.coltabid == id && c.colid == i && i < |a.typids| && c.coltypid == a.typids[i]
    && (if a.typparams == [] then c.coltypparam == 0 else i < |a.typparams| && c.coltypparam == a.typparams[i])
    && (if a.nullables == [] then c.colisnullable else i < |a.nullables| && c.colisnullable == a.nullables[i])
    && (if a.arrays == [] then !c.colisarray else i < |a.arrays| && c.colisarray == a.arrays[i])
    && (if a.names == [] then DefaultName(c.colname, i) else i < |a.names| && c.colname == a.names[i])
  }

  /** The row of the table. It is no systable, and every table counts as one of variable length. */
  predicate TableAsked(a: TableArgs, id: nat, t: Entry) {
    && t.Table? && t.tabid == id && !t.tabissys && t.tabisvarlen && t.tabncols == |a.typids|
    && t.tabfid == a.fid && t.tabname == a.name
  }

  /** One row for each column, in order. */
  ghost predicate ColumnsAsked(a: TableArgs, id: nat, cs: seq<Entry>) {
    |cs| == |a.typids| && forall i {:trigger cs[i]} :: 0 <= i < |cs| ==> ColumnAsked(a, id, i, cs[i])
  }

  /** The table's row and one for each column are appended, and nothing else has changed. */
  ghost predicate TableRowsAdded(db: Db, id: nat, a: TableArgs, db': Db) {
    && db'.types == db.types && db'.indexes == db.indexes && db'.idxcols == db.idxcols
    && db.tables <= db'.tables && |db'.tables| == |db.tables| + 1 && TableAsked(a, id, db'.tables[|db.tables|])
    && db.columns <= db'.columns && ColumnsAsked(a, id, db'.columns[|db.columns|..])
  }

  // ---------------------------------------------------------------- indexes

  type Oid = x: nat | x <= U32_MAX

  const IDXTYP_VOLATILETREE := 1
  const IDXTYP_BTREE := 2

  /** A `Function` row and its two argument rows, as far as the check of operator functions looks at them. */
  datatype Fn = Fn(nargs: int, returnsBool: bool, arg0: Option<nat>, arg1: Option<nat>)

  /** What the systables of operators and functions say: the `=` and `<` functions of a type, 0 for none, and function rows. */
  datatype Operators = Operators(equal: nat -> Oid, less: nat -> Oid, rows: nat -> Option<Fn>)

  /** Why a key column stops `AddIndex`: an ordinary error, a read outside the columns, or the use of a null function row. */
  datatype Fault = Refusal | OutsideColumns | NullRow

  /** The `=` function for key column `i` of a type: the one asked for, or else the one of the type. 0 if there is none. */
  function EqFunction(x: IndexArgs, ops: Operators, i: nat, typ: nat): nat {
    if i < |x.eqs| && x.eqs[i] != INVALID_OID then x.eqs[i] else if typ == INVALID_OID then INVALID_OID else ops.equal(typ)
  }

  /** The same for `<`. */
  function LtFunction(x: IndexArgs, ops: Operators, i: nat, typ: nat): nat {
    if i < |x.lts| && x.lts[i] != INVALID_OID then x.lts[i] else if typ == INVALID_OID then INVALID_OID else ops.less(typ)
  }

  /** The function takes two values of the type and returns whether they are related. */
  predicate Compares(ops: Operators, f: nat, typ: nat) {
    && ops.rows(f).Some? && ops.rows(f).value.nargs == 2 && ops.rows(f).value.returnsBool
    && ops.rows(f).value.arg0 == Some(typ) && ops.rows(f).value.arg1 == Some(typ)
  }

  predicate InTable(x: IndexArgs, d: Declared, i: nat) {
    i < |x.colids| && 0 <= x.colids[i] < |d.typids|
  }

  /** Key column `i` is a column of the table, and there are comparison functions for its type. */
  predicate KeyAccepted(x: IndexArgs, d: Declared, ops: Operators, i: nat) {
    InTable(x, d, i) &&
    var typ := d.typids[x.colids[i]];
    && EqFunction(x, ops, i, typ) != INVALID_OID && Compares(ops, EqFunction(x, ops, i, typ), typ)
    && LtFunction(x, ops, i, typ) != INVALID_OID && Compares(ops, LtFunction(x, ops, i, typ), typ)
  }

  /** The check of the functions of key column `i` comes to one that has no row. */
  predicate UsesNullRow(x: IndexArgs, d: Declared, ops: Operators, i: nat) {
    InTable(x, d, i) &&
    var typ := d.typids[x.colids[i]];
    var eq, lt := EqFunction(x, ops, i, typ), LtFunction(x, ops, i, typ);
    eq != INVALID_OID && lt != INVALID_OID && (ops.rows(eq).None? || (Compares(ops, eq, typ) && ops.rows(lt).None?))
  }

  /** What is wrong with key column `i`. A negative number is not refused, but outside the columns. */
  predicate KeyFault(x: IndexArgs, d: Declared, ops: Operators, i: nat, fault: Fault) {
    i < |x.colids| &&
    match fault
    case OutsideColumns => x.colids[i] < 0
    case NullRow => UsesNullRow(x, d, ops, i)
    case Refusal => x.colids[i] >= 0 && !UsesNullRow(x, d, ops, i) && !KeyAccepted(x, d, ops, i)
  }

  /** The row of key column `i`: the column of the table, its type, parameter and nullability, and the two functions. */
  predicate KeyAsked(x: IndexArgs, d: Declared, ops: Operators, id: nat, i: nat, c: Entry)
    requires Lengths(d, |d.typids|)
  {
    InTable(x, d, i) &&
    var col := x.colids[i];
    && c.IndexColumn? && c.idxcolidxid == id && c.idxcolid == i && c.idxcoltabcolid == col
    && c.idxcoltypid == d.typids[col] && c.idxcoltypparam == d.typparams[col] && c.idxcolisnullable == d.nullables[col]
    && c.idxcoleqfuncid == EqFunction(x, ops, i, d.typids[col]) && c.idxcolltfuncid == LtFunction(x, ops, i, d.typids[col])
  }

  /** The length of the table name and the names of the first `n` columns with an underscore in front of each. */
  function NamesEnd(name: Str, names: seq<Str>, n: nat): nat
    requires n <= |names|
  {
    if n == 0 then |name| else NamesEnd(name, names, n - 1) + 1 + |names[n - 1]|
  }

  /** Column name `i` stands in its place, behind an underscore. */
  predicate NameInPlace(s: Str, name: Str, names: seq<Str>, i: nat)
    requires i < |names|
  {
    var at := NamesEnd(name, names, i);
    at + 1 + |names[i]| <= |s| && s[at] == '_' as int && s[at + 1..at + 1 + |names[i]|] == names[i]
  }

  /** The default name of an index: the name of the table and those of all its columns, joined by underscores. */
  predicate NamesJoined(s: Str, name: Str, names: seq<Str>) {
    && |s| == NamesEnd(name, names, |names|) && name <= s
    && forall i {:trigger NameInPlace(s, name, names, i)} :: 0 <= i < |names| ==> NameInPlace(s, name, names, i)
  }

  /** The row of the index. */
  predicate IndexAsked(x: IndexArgs, d: Declared, id: nat, e: Entry) {
    && e.Index? && e.idxid == id && e.idxtabid == x.tabid && e.idxtyp == x.typ && e.idxunique == x.unique
    && e.idxncols == |x.colids| && e.idxfid == x.fid && d.table.Table?
    && if x.name == [] then NamesJoined(e.idxname, d.table.tabname, d.names) else e.idxname == x.name
  }

  /** One row for each key column, in order. */
  predicate KeysAsked(x: IndexArgs, d: Declared, ops: Operators, id: nat, cs: seq<Entry>)
    requires Lengths(d, |d.typids|)
  {
    |cs| == |x.colids| && forall i {:trigger cs[i]} :: 0 <= i < |cs| ==> KeyAsked(x, d, ops, id, i, cs[i])
  }

  /** The index's row and one for each key column are appended, and nothing else has changed. */
  ghost predicate IndexRowsAdded(db: Db, id: nat, x: IndexArgs, d: Declared, ops: Operators, db': Db)
    requires Lengths(d, |d.typids|)
  {
    && db'.tables == db.tables && db'.types == db.types && db'.columns == db.columns
    && db.indexes <= db'.indexes && |db'.indexes| == |db.indexes| + 1 && IndexAsked(x, d, id, db'.indexes[|db.indexes|])
    && db.idxcols <= db'.idxcols && KeysAsked(x, d, ops, id, db'.idxcols[|db.idxcols|..])
  }
}
