/**
 Init files that are written: a file written from the entries of a catalog is read as the sections that hold them, and
 starting up from it gives that catalog (src/catalog/InitDataFileReader.cpp:20-141, src/catalog/CatCacheBase_private.inc:364-385).
 */
module WrittenInit {
  import opened Base
  import opened Codec
  import opened Schemas
  import opened SlotFile
  import opened Entries
  import opened EntryCodec
  import opened Catalog
  import opened Startup
  import Tokenizer

  // ---------------------------------------------------------------- lines

  /** The text of a file: every line with its end. */
  function Text(lines: seq<string>): string {
    if lines == [] then "" else lines[0] + "\n" + Text(lines[1..])
  }

  predicate OneLine(line: string) {
    line != "" && forall k :: 0 <= k < |line| ==> line[k] != '\n'
  }

  /** What the reader makes of lines. */
  function LinesRead(env: InitFile.Env, schema: seq<InitFile.FieldType>, lines: seq<string>): seq<InitFile.Line>
    decreases |lines|
  {
    if lines == [] then []
    else
      var l := InitFile.LineOf(env, schema, lines[0]);
      if Stops(l) then [l] else [l] + LinesRead(env, SchemaAfter(schema, l), lines[1..])
  }

  lemma {:induction false} LineEndAt(s: string, i: nat, end: nat)
    requires i <= end < |s| && s[end] == '\n' && forall k :: i <= k < end ==> s[k] != '\n'
    ensures InitFile.LineEnd(s, i) == end
    decreases end - i
  {
    if i < end {
      LineEndAt(s, i + 1, end);
    }
  }

  /** The first of the lines is where the reader looks for it. */
  lemma FirstLine(s: string, pos: nat, line: string, rest: string)
    requires pos <= |s| && s[pos..] == line + "\n" + rest && OneLine(line)
    ensures var end := pos + |line|; end < |s| && InitFile.LineEnd(s, pos) == end && s[pos..end] == line && s[end + 1..] == rest
  {
    var end := pos + |line|;
    assert s[pos..] == line + ("\n" + rest);
    assert |s| - pos == |line| + 1 + |rest|;
    forall k | pos <= k < end
      ensures s[k] == line[k - pos]
    {
      assert s[k] == s[pos..][k - pos];
    }
    assert s[end] == s[pos..][|line|] == '\n';
    LineEndAt(s, pos, end);
    assert s[end + 1..] == s[pos..][|line| + 1..] == rest;
  }

  function SchemaAfter(schema: seq<InitFile.FieldType>, l: InitFile.Line): seq<InitFile.FieldType> {
    if l.TableLine? then l.schema else schema
  }

  /** From the position on, the text consists of the lines, each where the reader finds it. */
  predicate Holds(s: string, pos: nat, lines: seq<string>)
    decreases |lines|
  {
    if lines == [] then pos == |s|
    else
      var end := pos + |lines[0]|;
      pos < end < |s| && InitFile.LineEnd(s, pos) == end && s[pos..end] == lines[0] && Holds(s, end + 1, lines[1..])
  }

  lemma {:induction false} TextHolds(s: string, pos: nat, lines: seq<string>)
    requires pos <= |s| && s[pos..] == Text(lines) && forall i {:trigger lines[i]} :: 0 <= i < |lines| ==> OneLine(lines[i])
    ensures Holds(s, pos, lines)
    decreases |lines|
  {
    if lines != [] {
      FirstLine(s, pos, lines[0], Text(lines[1..]));
      TextHolds(s, pos + |lines[0]| + 1, lines[1..]);
    }
  }

  lemma FirstHeld(env: InitFile.Env, schema: seq<InitFile.FieldType>, s: string, pos: nat, lines: seq<string>)
    requires Holds(s, pos, lines) && lines != []
    ensures pos <= |s| && LineAt(env, schema, s, pos) == (Some(InitFile.LineOf(env, schema, lines[0])), pos + |lines[0]| + 1)
    ensures Holds(s, pos + |lines[0]| + 1, lines[1..])
  {
  }

  /** From here on the reader makes of the text what it makes of the lines. */
  ghost predicate SameLines(env: InitFile.Env, schema: seq<InitFile.FieldType>, s: string, pos: nat, lines: seq<string>) {
    pos <= |s| && forall k {:trigger Key(k, s)} :: Key(k, s) ==> LinesOf(env, schema, s, pos) == LinesRead(env, schema, lines)
  }

  ghost predicate SameForAll(env: InitFile.Env, s: string, pos: nat, lines: seq<string>) {
    forall schema {:trigger SameLines(env, schema, s, pos, lines)} :: SameLines(env, schema, s, pos, lines)
  }

  lemma LinesNext(env: InitFile.Env, schema: seq<InitFile.FieldType>, s: string, pos: nat, lines: seq<string>,
                  l: InitFile.Line, next: nat)
    requires lines != [] && pos <= |s| && LineAt(env, schema, s, pos) == (Some(l), next)
    requires l == InitFile.LineOf(env, schema, lines[0])
    requires !Stops(l) ==> SameLines(env, SchemaAfter(schema, l), s, next, lines[1..])
    ensures SameLines(env, schema, s, pos, lines)
  {
    assert Key(0, s);
  }

  lemma HeldNext(env: InitFile.Env, schema: seq<InitFile.FieldType>, s: string, pos: nat, lines: seq<string>)
    requires Holds(s, pos, lines) && lines != [] && SameForAll(env, s, pos + |lines[0]| + 1, lines[1..])
    ensures SameLines(env, schema, s, pos, lines)
  {
    FirstHeld(env, schema, s, pos, lines);
    var l, next := InitFile.LineOf(env, schema, lines[0]), pos + |lines[0]| + 1;
    LinesNext(env, schema, s, pos, lines, l, next);
  }

  lemma {:induction false} HeldReads(env: InitFile.Env, s: string, pos: nat, lines: seq<string>)
    requires Holds(s, pos, lines)
    ensures SameForAll(env, s, pos, lines)
    decreases |lines|
  {
    if lines != [] {
      HeldReads(env, s, pos + |lines[0]| + 1, lines[1..]);
    }
    forall schema
      ensures SameLines(env, schema, s, pos, lines)
    {
      if lines == [] {
        NoneHeld(env, schema, s);
      } else {
        HeldNext(env, schema, s, pos, lines);
      }
    }
  }

  lemma NoneHeld(env: InitFile.Env, schema: seq<InitFile.FieldType>, s: string)
    ensures SameLines(env, schema, s, |s|, [])
  {
  }

  /** A file written from lines is read as those lines. */
  lemma TextReadsBack(env: InitFile.Env, schema: seq<InitFile.FieldType>, s: string, pos: nat, lines: seq<string>)
    requires pos <= |s| && s[pos..] == Text(lines) && forall i {:trigger lines[i]} :: 0 <= i < |lines| ==> OneLine(lines[i])
    ensures LinesOf(env, schema, s, pos) == LinesRead(env, schema, lines)
  {
    TextHolds(s, pos, lines);
    HeldReads(env, s, pos, lines);
    assert SameLines(env, schema, s, pos, lines) && Key(0, s);
  }

  // ---------------------------------------------------------------- sections

  /** A table line and its data lines, as tokens. */
  datatype Page = Page(id: Tokenizer.Written, header: seq<Tokenizer.Written>, rows: seq<seq<Tokenizer.Written>>)

  function TableText(p: Page): string {
    Tokenizer.JoinAll([Tokenizer.Plain("table")] + ([p.id] + p.header))
  }

  function RowText(row: seq<Tokenizer.Written>): string {
    Tokenizer.JoinAll([Tokenizer.Plain("data")] + row)
  }

  function RowTexts(rows: seq<seq<Tokenizer.Written>>): (r: seq<string>)
    ensures |r| == |rows| && forall i {:trigger r[i]} :: 0 <= i < |rows| ==> r[i] == RowText(rows[i])
  {
    seq(|rows|, i requires 0 <= i < |rows| => RowText(rows[i]))
  }

  function AllLines(ps: seq<Page>): seq<string> {
    if ps == [] then [] else [TableText(ps[0])] + (RowTexts(ps[0].rows) + AllLines(ps[1..]))
  }

  ghost predicate RowReadsAs(env: InitFile.Env, p: Page, c: Section, i: nat)
    requires i < |p.rows| == |c.recs|
  {
    OneLine(RowText(p.rows[i])) && InitFile.LineOf(env, c.types, RowText(p.rows[i])) == InitFile.DataLine(c.recs[i])
  }

  /** The lines are read as the section, whatever the section in front of it is. */
  ghost predicate ReadsAs(env: InitFile.Env, p: Page, c: Section) {
    && OneLine(TableText(p)) && |p.rows| == |c.recs|
    && (forall s {:trigger InitFile.LineOf(env, s, TableText(p))} ::
          InitFile.LineOf(env, s, TableText(p)) == InitFile.TableLine(c.tabid, c.types))
    && forall i {:trigger RowReadsAs(env, p, c, i)} :: 0 <= i < |p.rows| ==> RowReadsAs(env, p, c, i)
  }

  lemma DataLineFirst(env: InitFile.Env, schema: seq<InitFile.FieldType>, line: string, rec: seq<Byte>, rest: seq<string>)
    requires InitFile.LineOf(env, schema, line) == InitFile.DataLine(rec)
    ensures LinesRead(env, schema, [line] + rest) == [InitFile.DataLine(rec)] + LinesRead(env, schema, rest)
  {
    assert ([line] + rest)[1..] == rest;
  }

  lemma RowTextsFrom(rows: seq<seq<Tokenizer.Written>>, i: nat, rest: seq<string>)
    requires i < |rows|
    ensures RowTexts(rows[i..]) + rest == [RowText(rows[i])] + (RowTexts(rows[i + 1..]) + rest)
  {
    assert RowTexts(rows[i..]) == [RowText(rows[i])] + RowTexts(rows[i + 1..]);
  }

  lemma DataLinesFrom(recs: seq<seq<Byte>>, i: nat, rest: seq<InitFile.Line>)
    requires i < |recs|
    ensures DataLines(recs[i..]) + rest == [InitFile.DataLine(recs[i])] + (DataLines(recs[i + 1..]) + rest)
  {
    assert DataLines(recs[i..]) == [InitFile.DataLine(recs[i])] + DataLines(recs[i + 1..]);
  }

  lemma {:induction false} RowsRead(env: InitFile.Env, p: Page, c: Section, i: nat, rest: seq<string>)
    requires ReadsAs(env, p, c) && i <= |p.rows|
    ensures LinesRead(env, c.types, RowTexts(p.rows[i..]) + rest) == DataLines(c.recs[i..]) + LinesRead(env, c.types, rest)
    decreases |p.rows| - i
  {
    if i == |p.rows| {
      assert RowTexts(p.rows[i..]) + rest == rest;
    } else {
      assert RowReadsAs(env, p, c, i);
      RowsRead(env, p, c, i + 1, rest);
      RowTextsFrom(p.rows, i, rest);
      DataLineFirst(env, c.types, RowText(p.rows[i]), c.recs[i], RowTexts(p.rows[i + 1..]) + rest);
      DataLinesFrom(c.recs, i, LinesRead(env, c.types, rest));
    }
  }

  ghost predicate AllReadAs(env: InitFile.Env, ps: seq<Page>, secs: seq<Section>) {
    |ps| == |secs| && forall i {:trigger ps[i]} :: 0 <= i < |ps| ==> ReadsAs(env, ps[i], secs[i])
  }

  lemma {:induction false} PagesRead(env: InitFile.Env, schema: seq<InitFile.FieldType>, ps: seq<Page>, secs: seq<Section>)
    requires AllReadAs(env, ps, secs)
    ensures LinesRead(env, schema, AllLines(ps)) == SectionLines(secs)
    decreases |ps|
  {
    if ps != [] {
      var p, c, rest := ps[0], secs[0], AllLines(ps[1..]);
      assert ReadsAs(env, p, c);
      assert p.rows[0..] == p.rows && c.recs[0..] == c.recs;
      RowsRead(env, p, c, 0, rest);
      PagesRead(env, c.types, ps[1..], secs[1..]);
      assert AllLines(ps)[1..] == RowTexts(p.rows) + rest;
      assert InitFile.LineOf(env, schema, TableText(p)) == InitFile.TableLine(c.tabid, c.types);
    }
  }

  lemma {:induction false} PagesAreLines(env: InitFile.Env, ps: seq<Page>, secs: seq<Section>, i: nat)
    requires AllReadAs(env, ps, secs) && i < |AllLines(ps)|
    ensures OneLine(AllLines(ps)[i])
    decreases |ps|
  {
    var p := ps[0];
    assert ReadsAs(env, p, secs[0]);
    if 0 < i <= |p.rows| {
      assert RowReadsAs(env, p, secs[0], i - 1);
    } else if i > |p.rows| {
      PagesAreLines(env, ps[1..], secs[1..], i - 1 - |p.rows|);
    }
  }

  // ---------------------------------------------------------------- catalogs

  /** The tokens of a table line: the id of the table, and the columns of its schema. */
  ghost predicate TableWritten(env: InitFile.Env, p: Page, c: Section) {
    && Tokenizer.AllWritable([p.id] + p.header) && OneLine(TableText(p))
    && InitFile.TableTaken(env, p.id.text, Tokenizer.Texts(p.header), c.tabid, c.types)
  }

  /** The tokens of a data line: the fields of an entry, as the input functions of their types take them. */
  ghost predicate RowWritten(env: InitFile.Env, schema: seq<InitFile.FieldType>, row: seq<Tokenizer.Written>, e: Entry) {
    && Tokenizer.AllWritable(row) && OneLine(RowText(row)) && |row| == |schema| && Writable(e) && Fits(e)
    && InitFile.RowTaken(env, schema, Tokenizer.Texts(row), DatumVector(e))
  }

  ghost predicate EntryWritten(env: InitFile.Env, p: Page, c: Section, es: seq<Entry>, i: nat)
    requires i < |p.rows| == |c.recs| == |es|
  {
    RowWritten(env, c.types, p.rows[i], es[i]) && TabOf(es[i]) == c.tabid && Encode(es[i]) == Wrote(|c.recs[i]|, c.recs[i])
  }

  /** The lines are written from the entries of a systable. */
  ghost predicate EntriesWritten(env: InitFile.Env, p: Page, c: Section, es: seq<Entry>) {
    && TableWritten(env, p, c) && c.types != [] && InitFile.SchemaCols(env, c.types) == SysCols(c.tabid)
    && |p.rows| == |c.recs| == |es|
    && forall i {:trigger EntryWritten(env, p, c, es, i)} :: 0 <= i < |es| ==> EntryWritten(env, p, c, es, i)
  }

  lemma TableWrittenReads(env: InitFile.Env, p: Page, c: Section, s: seq<InitFile.FieldType>)
    requires TableWritten(env, p, c)
    ensures InitFile.LineOf(env, s, TableText(p)) == InitFile.TableLine(c.tabid, c.types)
  {
    InitFile.TableLineReadsBack(env, s, p.id, p.header);
    assert InitFile.TableTaken(env, p.id.text, Tokenizer.Texts(p.header), c.tabid, c.types);
    assert InitFile.TableLine(c.tabid, c.types).TableLine?;
  }

  lemma EntryWrittenReads(env: InitFile.Env, p: Page, c: Section, es: seq<Entry>, i: nat)
    requires i < |p.rows| == |c.recs| == |es| && EntryWritten(env, p, c, es, i) && c.types != []
    requires InitFile.SchemaCols(env, c.types) == SysCols(c.tabid)
    ensures RowReadsAs(env, p, c, i) && EntryHeld(c.tabid, Padded(c.recs[i]), es[i])
  {
    InitFile.DataLineReadsBack(env, c.types, p.rows[i]);
    EncodeExact(es[i]);
    EncodedHeld(es[i]);
  }

  /** Such lines are read as records that hold the entries. */
  lemma EntriesWrittenRead(env: InitFile.Env, p: Page, c: Section, es: seq<Entry>)
    requires EntriesWritten(env, p, c, es)
    ensures ReadsAs(env, p, c) && RecordsHold(c.tabid, c.recs, es)
  {
    forall s: seq<InitFile.FieldType>
      ensures InitFile.LineOf(env, s, TableText(p)) == InitFile.TableLine(c.tabid, c.types)
    {
      TableWrittenReads(env, p, c, s);
    }
    forall i | 0 <= i < |es|
      ensures RowReadsAs(env, p, c, i) && EntryHeld(c.tabid, Padded(c.recs[i]), es[i])
    {
      assert EntryWritten(env, p, c, es, i);
      EntryWrittenReads(env, p, c, es, i);
    }
  }

  ghost predicate PageWritten(env: InitFile.Env, ps: seq<Page>, secs: seq<Section>, db: Db, i: nat)
    requires i < |ps| == |secs|
  {
    if IsSystab(secs[i].tabid) then EntriesWritten(env, ps[i], secs[i], Of(db, secs[i].tabid)) else ReadsAs(env, ps[i], secs[i])
  }

  /** The file is written from a catalog whose file ids are open. Tables that are not part of the catalog may follow their own rules. */
  ghost predicate CatalogWritten(env: InitFile.Env, ps: seq<Page>, secs: seq<Section>, db: Db) {
    && |ps| == |secs| && SectionsOk(secs) && |secs| + 2 <= U32_MAX && OpenTables(db, FidsOf(secs))
    && (forall t {:trigger IsSystab(t)} :: IsSystab(t) ==> t in FidsOf(secs))
    && forall i {:trigger PageWritten(env, ps, secs, db, i)} :: 0 <= i < |ps| ==> PageWritten(env, ps, secs, db, i)
  }

  /** A file written from a catalog is read as sections that hold the catalog. */
  lemma WrittenIsInitData(env: InitFile.Env, ps: seq<Page>, secs: seq<Section>, db: Db)
    requires CatalogWritten(env, ps, secs, db)
    ensures LinesOf(env, [], Text(AllLines(ps)), 0) == SectionLines(secs) && InitData(secs, db)
  {
    forall i | 0 <= i < |ps|
      ensures ReadsAs(env, ps[i], secs[i])
      ensures IsSystab(secs[i].tabid) ==> RecordsHold(secs[i].tabid, secs[i].recs, Of(db, secs[i].tabid))
    {
      assert PageWritten(env, ps, secs, db, i);
      if IsSystab(secs[i].tabid) {
        EntriesWrittenRead(env, ps[i], secs[i], Of(db, secs[i].tabid));
      }
    }
    forall t: nat | IsSystab(t)
      ensures InitSection(secs, db, t)
    {
      FidsOfSection(secs, t);
    }
    PagesRead(env, [], ps, secs);
    WrittenText(env, ps, secs);
  }

  lemma WrittenText(env: InitFile.Env, ps: seq<Page>, secs: seq<Section>)
    requires AllReadAs(env, ps, secs)
    ensures LinesOf(env, [], Text(AllLines(ps)), 0) == LinesRead(env, [], AllLines(ps))
  {
    forall i | 0 <= i < |AllLines(ps)|
      ensures OneLine(AllLines(ps)[i])
    {
      PagesAreLines(env, ps, secs, i);
    }
    var s := Text(AllLines(ps));
    assert s[0..] == s;
    TextReadsBack(env, [], s, 0, AllLines(ps));
  }

  /** From a written file to the cache invariant, over the catalog it was written from. */
  method InitializeFromWritten(reader: InitFile.InitDataFileReader, schema: Schema, boot: map<nat, Desc>,
                               ghost ps: seq<Page>, ghost secs: seq<Section>, ghost db: Db) returns (c: CatCache)
    requires reader.Ready() && reader.pos == 0 && reader.lastState == InitFile.Table && reader.schema == []
    requires reader.input == Text(AllLines(ps)) && CatalogWritten(reader.env, ps, secs, db)
    requires InitCatalog.Serves(schema, SysCols(TAB_TABLE)) && Complete(secs, db, boot)
    modifies reader, reader.tokens.parseBuf
    ensures fresh(c) && c.Valid() && c.db == WithFileIds(db, FidsOf(secs)) && c.fids == FidsOf(secs)
  {
    WrittenIsInitData(reader.env, ps, secs, db);
    c := InitializeFromInitData(reader, schema, boot, secs, db);
  }
}
