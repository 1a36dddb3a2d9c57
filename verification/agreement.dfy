/**
 What was added is found again: `AddTable` and `FindTableDesc`, `AddIndex` and `FindIndexDesc`, right after the addition
 and after any later operations (src/catalog/CatCacheBase_private.inc:405-864).
 */
module Agreement {
  import opened Base
  import opened SlotFile
  import opened Entries
  import opened OidAllocation
  import opened Asked
  import opened Catalog
  import opened RecordLimits

  // ---------------------------------------------------------------- tables

  /** The length function of the type raises an error for the parameter: only a `CHAR` longer than 32767 does that. */
  predicate ParamRaises(types: seq<Entry>, typid: nat, param: nat) {
    match First(types, typid)
    case None => false
    case Some(i) => types[i].Type? && !types[i].typisvarlen && types[i].typlenfunc != INVALID_OID && param > 32767
  }

  /** No column asked for has a type parameter that is too large for its type. `AddTable` does not look at this. */
  ghost predicate ParamsFit(types: seq<Entry>, a: TableArgs, n: nat)
    requires ArgsFit(a, n)
  {
    forall i {:trigger a.typids[i]} :: 0 <= i < n ==> !ParamRaises(types, a.typids[i], a.typparams[i])
  }

  lemma ColumnFound(types: seq<Entry>, typid: nat, param: nat, nullable: bool)
    requires TypesFit(types) && First(types, typid).Some?
    ensures FindCol(types, typid, param, nullable).Some? <==> !ParamRaises(types, typid, param)
  {
  }

  /** The columns of a new table have known lengths if and only if the parameters fit. */
  lemma NewLengths(types: seq<Entry>, id: nat, a: TableArgs, n: nat)
    requires TypesFit(types) && ArgsFit(a, n) && forall i {:trigger a.typids[i]} :: 0 <= i < n ==> First(types, a.typids[i]).Some?
    ensures (forall k {:trigger NewColumns(id, a, n)[k]} :: 0 <= k < n ==> LengthKnown(types, NewColumns(id, a, n)[k])) <==>
            ParamsFit(types, a, n)
  {
    forall k | 0 <= k < n
      ensures LengthKnown(types, NewColumns(id, a, n)[k]) <==> !ParamRaises(types, a.typids[k], a.typparams[k])
    {
      ColumnFound(types, a.typids[k], a.typparams[k], a.nullables[k]);
    }
    if !ParamsFit(types, a, n) {
      var i :| 0 <= i < n && ParamRaises(types, a.typids[i], a.typparams[i]);
      assert !LengthKnown(types, NewColumns(id, a, n)[i]);
    }
  }

  /** The catalog after `AddTable` with these arguments and later operations. */
  ghost predicate AddedTable(db: Db, next: nat, a: TableArgs, n: nat, ops: seq<Op>, end: Db) {
    && Integrity(db, next) && OpOk(db, NewTableOp(a, n)) && OpsOk(WithTable(db, next, a, n), next + 1, ops)
    && end == RunOps(WithTable(db, next, a, n), next + 1, ops)
  }

  lemma AddedTableStays(db: Db, next: nat, a: TableArgs, n: nat, ops: seq<Op>, end: Db)
    requires AddedTable(db, next, a, n, ops, end)
    ensures end.types == db.types && First(end.tables, next).Some? && Matches(end.columns, next) == NewColumns(next, a, n)
  {
    var mid := WithTable(db, next, a, n);
    AddTableKeepsIntegrity(db, next, next, a, n);
    RunKeepsIntegrity(mid, next + 1, ops);
    NewTableScans(db, next, a, n);
    assert First(end.tables, next) == First(mid.tables, next) && Matches(end.columns, next) == Matches(mid.columns, next);
  }

  /**
   Whether the descriptor of an added table can be built is decided by the arguments of `AddTable`, now and for ever:
   it can if and only if no parameter is too large for its type.
   */
  lemma LengthsKnownEverAfter(db: Db, next: nat, a: TableArgs, n: nat, ops: seq<Op>, end: Db)
    requires AddedTable(db, next, a, n, ops, end) && TypesFit(db.types)
    ensures LengthsKnown(end, next) <==> ParamsFit(db.types, a, n)
  {
    AddedTableStays(db, next, a, n, ops, end);
    NewLengths(db.types, next, a, n);
  }

  /** `FindTableDesc` right after `AddTable`, or after any later operations: exactly the arguments, or the layout error. */
  method FindAddedTable(c: CatCache, tabid: nat, ghost db: Db, ghost a: TableArgs, ghost n: nat, ghost ops: seq<Op>)
    returns (r: Lookup)
    requires c.Valid() && AddedTable(db, tabid, a, n, ops, c.db)
    modifies c`recidLookupTable, c`tableDesc
    ensures c.Valid()
    ensures r.Found? <==> ParamsFit(db.types, a, n)
    ensures !r.Found? ==> r.NoLayout?
    ensures r.Found? ==> r.desc.decl == Declared(NewTable(tabid, a, n), a.typids[..n], a.typparams[..n], a.nullables[..n], a.names[..n])
    ensures r.Found? ==> ColumnsStored(db.types, r.desc.decl, r.desc.cols)
  {
    AddedTableStays(db, tabid, a, n, ops, c.db);
    LengthsKnownEverAfter(db, tabid, a, n, ops, c.db);
    r := c.FindTableDesc(tabid);
    if r.Found? {
      DescribedEverAfter(db, tabid, a, n, ops, r.desc.decl);
      DescStored(c.db, tabid, r.desc);
    }
  }

  /** The number of columns, for arguments that `AddTable` accepts. */
  function Width(a: TableArgs): (n: nat)
    requires !BadTable(a) && |a.typids| <= I16_MAX
    ensures n == |a.typids| == I16(|a.typids|) && ArgsFit(Filled(a, n), n)
  {
    FilledFits(a);
    |a.typids|
  }

  /** The type parameter of column `i`, 0 if none are given. */
  function ParamAsked(a: TableArgs, i: nat): nat {
    if i < |a.typparams| then a.typparams[i] else 0
  }

  /** The description is that of the table asked for: its row, and each column with the defaults for what is not given. */
  ghost predicate DescribedAsAsked(a: TableArgs, id: nat, d: Declared) {
    TableAsked(a, id, d.table) && Lengths(d, |a.typids|) &&
    forall i {:trigger d.typids[i]} :: 0 <= i < |a.typids| ==>
      && d.typids[i] == a.typids[i] && d.typparams[i] == ParamAsked(a, i)
      && (if a.nullables == [] then d.nullables[i] else i < |a.nullables| && d.nullables[i] == a.nullables[i])
      && (if a.names == [] then DefaultName(d.names[i], i) else i < |a.names| && d.names[i] == a.names[i])
  }

  /** No type parameter asked for is too large for its type. */
  ghost predicate Describable(types: seq<Entry>, a: TableArgs) {
    forall i {:trigger a.typids[i]} :: 0 <= i < |a.typids| ==> !ParamRaises(types, a.typids[i], ParamAsked(a, i))
  }

  lemma DescribableExactly(types: seq<Entry>, a: TableArgs, n: nat)
    requires !BadTable(a) && n == |a.typids| <= I16_MAX && ArgsFit(Filled(a, n), n)
    ensures Describable(types, a) <==> ParamsFit(types, Filled(a, n), n)
  {
    assert forall i :: 0 <= i < n ==> Filled(a, n).typparams[i] == ParamAsked(a, i);
  }

  lemma AskedDescription(a: TableArgs, id: nat, n: nat, d: Declared)
    requires !BadTable(a) && n == |a.typids| <= I16_MAX && ArgsFit(Filled(a, n), n)
    requires var f := Filled(a, n); d == Declared(NewTable(id, f, n), f.typids[..n], f.typparams[..n], f.nullables[..n], f.names[..n])
    ensures DescribedAsAsked(a, id, d)
  {
    forall i | 0 <= i < n && a.names == []
      ensures DefaultName(d.names[i], i)
    {
      NameIsDefault(i);
    }
  }

  lemma RightAfter(db: Db, next: nat, a: TableArgs, n: nat)
    requires Integrity(db, next) && OpOk(db, NewTableOp(a, n))
    ensures AddedTable(db, next, a, n, [], WithTable(db, next, a, n))
  {
  }

  /** No name that is given is longer than this. */
  predicate NamesUpTo(a: TableArgs, bound: nat) {
    |a.name| <= bound && forall i {:trigger a.names[i]} :: 0 <= i < |a.names| ==> |a.names[i]| <= bound
  }

  /** `AddTable`, and `FindTableDesc` of the new table. */
  method AddTableThenFind(c: CatCache, a: TableArgs) returns (r: AddResult, found: Lookup)
    requires c.Valid() && TableArgsTyped(a)
    modifies c
    ensures r.Refused? <==> RefusesTable(old(c.db), old(c.nextOid), a)
    ensures r.Added? || r.Aborted? <==> !r.Refused? && |a.typids| <= 32767 && NamesUpTo(a, 32761)
    ensures r.Added? <==> (r.Added? || r.Aborted?) && RoomAsked(old(c.db), a)
    ensures r.Added? ==> c.Valid() && r.id == old(c.nextOid) && TableRowsAdded(old(c.db), r.id, a, c.db)
    ensures r.Added? ==> (found.Found? <==> Describable(old(c.db.types), a)) && (!found.Found? ==> found.NoLayout?)
    ensures r.Added? && found.Found? ==> DescribedAsAsked(a, r.id, found.desc.decl)
    ensures r.Added? && found.Found? ==> ColumnsStored(old(c.db.types), found.desc.decl, found.desc.cols)
  {
    ghost var db0, n := c.db, I16(|a.typids|);
    found := Missing;
    r := c.AddTable(a);
    if r.Added? || r.Aborted? {
      assert n == Width(a);
      RoomDecides(db0, old(c.nextOid), a, n);
    }
    if r.Added? {
      found := FindAsked(c, r.id, db0, a, n);
    }
  }

  lemma RoomDecides(db: Db, id: nat, a: TableArgs, n: nat)
    requires !BadTable(a) && n == |a.typids| == I16(n) && ArgsFit(Filled(a, n), n) && id <= MAX_OID
    requires TableArgsTyped(a) && ShortNames(a)
    ensures TableFits(db, id, a) <==> RoomAsked(db, a)
  {
    FilledShort(a, n);
    TableInsertableExactly(db, id, Filled(a, n), n);
    RoomAskedExactly(db, a, n);
  }

  /** `FindTableDesc` of the table that was asked for. */
  method FindAsked(c: CatCache, tabid: nat, ghost db: Db, ghost a: TableArgs, ghost n: nat) returns (found: Lookup)
    requires !BadTable(a) && n == |a.typids| == I16(n) && ArgsFit(Filled(a, n), n) && 1 <= n <= I16_MAX
    requires c.Valid() && Integrity(db, tabid) && TypesExist(db, Filled(a, n).typids, n) && c.db == WithTable(db, tabid, Filled(a, n), n)
    requires TypesFit(db.types)
    modifies c`recidLookupTable, c`tableDesc
    ensures c.Valid() && (found.Found? <==> Describable(db.types, a)) && (!found.Found? ==> found.NoLayout?)
    ensures found.Found? ==> DescribedAsAsked(a, tabid, found.desc.decl) && ColumnsStored(db.types, found.desc.decl, found.desc.cols)
  {
    RightAfter(db, tabid, Filled(a, n), n);
    found := FindAddedTable(c, tabid, db, Filled(a, n), n, []);
    DescribableExactly(db.types, a, n);
    if found.Found? {
      AskedDescription(a, tabid, n, found.desc.decl);
    }
  }

  /** One `CHAR` column of 40000 bytes. */
  function LongChar(name: Str, typid: nat, fid: nat): TableArgs {
    TableArgs(name, [typid], [40000], [], [], [], fid)
  }

  /** A fixed-length type with a length function. */
  predicate CharType(types: seq<Entry>, typid: nat) {
    match First(types, typid)
    case None => false
    case Some(i) => TypeFits(types[i]) && !types[i].typisvarlen && types[i].typlenfunc != INVALID_OID
  }

  /** It is not refused. If its rows can be appended it is added, and from then on the table cannot be described. */
  method LongCharAdded(c: CatCache, name: Str, typid: nat, fid: nat) returns (r: AddResult, found: Lookup)
    requires c.Valid() && c.nextOid <= MAX_OID && CharType(c.db.types, typid) && typid <= U32_MAX
    requires 0 < fid <= U32_MAX && ShortName(name)
    modifies c
    ensures r.Aborted? || (r == Added(old(c.nextOid)) && c.Valid() && found == NoLayout)
    ensures r.Added? <==> |old(c.db.tables)| < MAX_SLOTS && |old(c.db.columns)| < MAX_SLOTS && |name| <= 32746
  {
    var a := LongChar(name, typid, fid);
    assert !RefusesTable(c.db, c.nextOid, a);
    assert ParamRaises(c.db.types, a.typids[0], a.typparams[0]);
    r, found := AddTableThenFind(c, a);
  }

  // ---------------------------------------------------------------- indexes

  /** The catalog after `AddIndex` with these arguments and later operations. */
  ghost predicate AddedIndex(db: Db, next: nat, x: IndexArgs, d: Declared, ops: seq<Op>, end: Db) {
    && Integrity(db, next) && OpOk(db, NewIndexOp(x, d)) && OpsOk(WithIndex(db, next, x, d), next + 1, ops)
    && end == RunOps(WithIndex(db, next, x, d), next + 1, ops)
  }

  lemma AddedIndexStays(db: Db, next: nat, x: IndexArgs, d: Declared, ops: seq<Op>, end: Db)
    requires AddedIndex(db, next, x, d, ops, end)
    ensures end.types == db.types && First(end.indexes, next).Some? && Matches(end.idxcols, next) == NewKeys(next, x, d)
  {
    var mid := WithIndex(db, next, x, d);
    IndexRunExtends(db, next, x, d, ops);
    NewIndexScans(db, next, next, x, d);
    assert First(end.indexes, next) == First(mid.indexes, next) && Matches(end.idxcols, next) == Matches(mid.idxcols, next);
  }

  /** The key columns of an index on a table that can be described have known lengths, now and for ever. */
  lemma KeyLengthsKnownEverAfter(db: Db, next: nat, x: IndexArgs, d: Declared, ops: seq<Op>, end: Db)
    requires AddedIndex(db, next, x, d, ops, end) && LengthsKnown(db, x.tabid)
    ensures KeyLengthsKnown(end, next)
  {
    AddedIndexStays(db, next, x, d, ops, end);
    forall k | 0 <= k < |Matches(end.idxcols, next)|
      ensures KeyLengthKnown(end.types, Matches(end.idxcols, next)[k])
    {
      var c := x.colids[k];
      assert Matches(end.idxcols, next)[k] == NewKey(next, x, d, k);
      if FindCol(db.types, d.typids[c], d.typparams[c], d.nullables[c]).None? {
        LengthUnknown(db, x.tabid, d, c);
      }
    }
  }

  /**
   `FindIndexDesc` right after `AddIndex`, or after any later operations: exactly the columns asked for, as the table
   describes them; but if none were asked for, the use of a null key schema.
   */
  method FindAddedIndex(c: CatCache, idxid: nat, ghost db: Db, ghost x: IndexArgs, ghost d: Declared, ghost ops: seq<Op>)
    returns (r: KeyLookup)
    requires c.Valid() && AddedIndex(db, idxid, x, d, ops, c.db) && LengthsKnown(db, x.tabid)
    modifies c`recidLookupTable, c`tableDesc, c`indexDesc
    ensures c.Valid()
    ensures r.NoKeys? <==> x.colids == []
    ensures r.KeysAre? <==> x.colids != []
    ensures r.KeysAre? ==> r.desc.keys == NewKeySchema(idxid, x, d)
  {
    AddedIndexStays(db, idxid, x, d, ops, c.db);
    KeyLengthsKnownEverAfter(db, idxid, x, d, ops, c.db);
    r := c.FindIndexDesc(idxid);
    if r.KeysAre? {
      IndexDescribedEverAfter(db, idxid, x, d, ops, r.desc.keys);
    }
  }

  lemma IndexRightAfter(db: Db, next: nat, x: IndexArgs, d: Declared)
    requires Integrity(db, next) && OpOk(db, NewIndexOp(x, d))
    ensures AddedIndex(db, next, x, d, [], WithIndex(db, next, x, d))
  {
  }

  /** `AddIndex`, and `FindIndexDesc` of the new index. */
  method AddIndexThenFind(c: CatCache, x: IndexArgs, ops: Operators)
    returns (r: AddResult, found: KeyLookup, ghost used: IndexArgs, ghost d: Declared)
    requires c.Valid() && IndexArgsTyped(x)
    modifies c
    ensures r.Refused? <==>
              || !Indexable(old(c.db), x) || BadKey(x, d, ops, Refusal)
              || (old(c.nextOid) > MAX_OID && !r.OutOfBounds? && !r.NullFunction?)
    ensures r.OutOfBounds? <==> Indexable(old(c.db), x) && BadKey(x, d, ops, OutsideColumns)
    ensures r.NullFunction? <==> Indexable(old(c.db), x) && BadKey(x, d, ops, NullRow)
    ensures CatCache.IdTaken(r) ==> Completed(x, d, ops, used)
    ensures r.LongName? <==> CatCache.IdTaken(r) && !ShortName(used.name)
    ensures r.Added? <==> CatCache.IdTaken(r) && !r.LongName? && RoomForIndex(old(c.db), used)
    ensures r.Added? ==> c.Valid() && r.id == old(c.nextOid) && Describes(old(c.db), x.tabid, d)
    ensures r.Added? ==> Lengths(d, |d.typids|) && IndexRowsAdded(old(c.db), r.id, x, d, ops, c.db)
    ensures r.Added? ==> (found.NoKeys? <==> x.colids == []) && (found.KeysAre? <==> x.colids != [])
    ensures r.Added? && found.KeysAre? ==> found.desc.keys == NewKeySchema(r.id, used, d)
  {
    ghost var db0, files, next := c.db, c.systables, c.nextOid;
    found := NoIndex;
    r, used, d := c.AddIndex(x, ops);
    if CatCache.IdTaken(r) && !r.LongName? {
      CompletedTyped(x, d, ops, used);
      DescribedTyped(files, db0, c.fids, next, x.tabid, d);
      IndexInsertableExactly(db0, next, used, d);
    }
    if r.Added? {
      IndexRightAfter(db0, r.id, used, d);
      found := FindAddedIndex(c, r.id, db0, used, d, []);
    }
  }

  /**
   An index without key columns is not refused. If it has a name and its row can be appended it is added. If it is
   added, finding it uses a null key schema.
   */
  method NoKeyIndexAdded(c: CatCache, x: IndexArgs, ops: Operators) returns (r: AddResult, found: KeyLookup)
    requires c.Valid() && c.nextOid <= MAX_OID && IndexArgsTyped(x) && x.colids == [] && Indexable(c.db, x)
    modifies c
    ensures !r.Refused? && !r.OutOfBounds? && !r.NullFunction?
    ensures r.Added? ==> c.Valid() && r.id == old(c.nextOid) && found == NoKeys
    ensures x.name != [] && ShortName(x.name) ==>
              (r.Added? <==> |old(c.db.indexes)| < MAX_SLOTS && |x.name| <= 32742 && |old(c.db.idxcols)| <= MAX_SLOTS)
  {
    ghost var used, d;
    r, found, used, d := AddIndexThenFind(c, x, ops);
  }
}
