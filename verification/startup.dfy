/**
 Starting up: `LoadInitFile` distributes the records of the init file over one file per systable, the rewrite stores
 the file ids in `Table`, and the minimal cache is loaded (src/catalog/CatCacheBase_private.inc:84-296).
 */
module Startup {
  import opened Base
  import opened Codec
  import opened Records
  import opened Schemas
  import opened SlotFile
  import opened Entries
  import opened EntryCodec
  import opened Catalog
  import InitFile

  // ---------------------------------------------------------------- the lines of a file

  predicate Stops(l: InitFile.Line) { l.BadLine? || l.NoReturn? }

  /** The line at a position, unless the file ends there, and where the next one begins. */
  function LineAt(env: InitFile.Env, schema: seq<InitFile.FieldType>, s: string, pos: nat): (r: (Option<InitFile.Line>, nat))
    requires pos <= |s|
    ensures r.1 <= |s| && (r.0.Some? && !Stops(r.0.value) ==> r.1 > pos)
  {
    var end := InitFile.LineEnd(s, pos);
    var line := s[pos..end];
    (if line == "" then if end == |s| then None else Some(InitFile.BadLine) else Some(InitFile.LineOf(env, schema, line)),
     if end < |s| then end + 1 else end)
  }

  /** The lines up to the end of the file, an error or a failure. */
  function LinesOf(env: InitFile.Env, schema: seq<InitFile.FieldType>, s: string, pos: nat): seq<InitFile.Line>
    requires pos <= |s|
    decreases |s| - pos
  {
    var (l, next) := LineAt(env, schema, s, pos);
    if l.None? then [] else if Stops(l.value) then [l.value]
    else [l.value] + LinesOf(env, if l.value.TableLine? then l.value.schema else schema, s, next)
  }

  // ---------------------------------------------------------------- LoadInitFile

  /** The table and the file that the loader is at, 0 for none; the files so far; and the file id of each table. */
  datatype Loader = Loader(tabid: nat, fid: nat, files: seq<File>, fids: map<nat, nat>)

  /** How loading goes on, or the error that ends it. */
  datatype LoadResult = Loading(s: Loader) | EmptyTable | ParseError | ReaderFails(failure: InitFile.Failure) | FileFull

  predicate LoadOk(s: Loader) {
    s.fid == 0 || 2 <= s.fid < |s.files| + 2
  }

  /** The first record of a table creates its file. Only the first file of a table gets into the map. */
  function WithFile(s: Loader): (r: Loader)
    requires LoadOk(s)
    ensures LoadOk(r) && r.fid != 0
  {
    if s.fid != 0 then s else
      var fid := |s.files| + 2;
      s.(fid := fid, files := s.files + [EMPTY], fids := if s.tabid in s.fids then s.fids else s.fids[s.tabid := fid])
  }

  function LoadLine(s: Loader, l: InitFile.Line): (r: LoadResult)
    requires LoadOk(s)
    ensures r.Loading? ==> LoadOk(r.s)
  {
    match l
    case TableLine(id, _) =>
      if s.tabid != 0 && s.fid == 0 then EmptyTable
      else Loading(s.(tabid := id, fid := if s.tabid != 0 then 0 else s.fid))
    case DataLine(rec) =>
      var w := WithFile(s);
      (match Append(w.files[w.fid - 2], rec)
       case None => FileFull
       case Some(f) => Loading(w.(files := w.files[w.fid - 2 := f])))
    case BadLine => ParseError
    case NoReturn(failure) => ReaderFails(failure)
  }

  function LoadLines(s: Loader, ls: seq<InitFile.Line>): (r: LoadResult)
    requires LoadOk(s)
    ensures r.Loading? ==> LoadOk(r.s)
    decreases |ls|
  {
    if ls == [] then Loading(s)
    else match LoadLine(s, ls[0])
      case Loading(s') => LoadLines(s', ls[1..])
      case stop => stop
  }

  const NOTHING := Loader(0, 0, [], map[])

  lemma LoadHead(s: Loader, l: InitFile.Line, ls: seq<InitFile.Line>)
    requires LoadOk(s)
    ensures var r := LoadLine(s, l); LoadLines(s, [l] + ls) == if r.Loading? then LoadLines(r.s, ls) else r
  {
    assert ([l] + ls)[1..] == ls;
  }

  /** The line that the reader has taken in, from what it returned and the state it is in. */
  method TakenIn(reader: InitFile.InitDataFileReader, t: InitFile.LineType, ghost l: InitFile.Line, ghost before: seq<InitFile.FieldType>)
    returns (r: InitFile.Line)
    requires if l.BadLine? then t == InitFile.Error else reader.Understood(l, t, before)
    ensures r == l && (InitFile.Final(t) <==> Stops(l))
    ensures !Stops(l) ==> reader.schema == if l.TableLine? then l.schema else before
  {
    match t
    case Eof => r := InitFile.BadLine;
    case Error => r := InitFile.BadLine;
    case Failed(failure) => r := InitFile.NoReturn(failure);
    case Table => r := InitFile.TableLine(reader.tabid, reader.schema);
    case Data => r := InitFile.DataLine(reader.buf);
  }

  /** One line of the reader; nothing at the end of the file. */
  method NextLine(reader: InitFile.InitDataFileReader) returns (l: Option<InitFile.Line>)
    requires reader.Ready() && !InitFile.Final(reader.lastState)
    modifies reader, reader.tokens.parseBuf
    ensures reader.Ready() && (InitFile.Final(reader.lastState) <==> l.None? || Stops(l.value))
    ensures (l, reader.pos) == LineAt(reader.env, old(reader.schema), reader.input, old(reader.pos))
    ensures l.Some? && !Stops(l.value) ==> reader.schema == if l.value.TableLine? then l.value.schema else old(reader.schema)
  {
    ghost var before, at := reader.schema, LineAt(reader.env, reader.schema, reader.input, reader.pos);
    var t := reader.Next();
    if t.Eof? {
      return None;
    }
    var taken := TakenIn(reader, t, at.0.value, before);
    l := Some(taken);
  }

  /** `LoadInitFile`. */
  method LoadInitFile(reader: InitFile.InitDataFileReader) returns (r: LoadResult)
    requires reader.Ready() && reader.pos == 0 && reader.lastState == InitFile.Table && reader.schema == []
    modifies reader, reader.tokens.parseBuf
    ensures r == LoadLines(NOTHING, LinesOf(reader.env, [], reader.input, 0))
  {
    var s := NOTHING;
    while true
      invariant reader.Ready() && LoadOk(s) && !InitFile.Final(reader.lastState)
      invariant LoadLines(s, LinesOf(reader.env, reader.schema, reader.input, reader.pos)) ==
                LoadLines(NOTHING, LinesOf(reader.env, [], reader.input, 0))
      decreases |reader.input| - reader.pos
    {
      var l := NextLine(reader);
      if l.None? {
        return Loading(s);
      }
      LoadHead(s, l.value, LinesOf(reader.env, reader.schema, reader.input, reader.pos));
      var next := LoadLine(s, l.value);
      if !next.Loading? {
        return next;
      }
      s := next.s;
    }
  }

  // ---------------------------------------------------------------- sections

  /** A table line and the records of its data lines. */
  datatype Section = Section(tabid: nat, types: seq<InitFile.FieldType>, recs: seq<seq<Byte>>)

  function DataLines(recs: seq<seq<Byte>>): (r: seq<InitFile.Line>)
    ensures |r| == |recs| && forall i {:trigger r[i]} :: 0 <= i < |r| ==> r[i] == InitFile.DataLine(recs[i])
  {
    seq(|recs|, i requires 0 <= i < |recs| => InitFile.DataLine(recs[i]))
  }

  function SectionLines(secs: seq<Section>): seq<InitFile.Line> {
    if secs == [] then []
    else [InitFile.TableLine(secs[0].tabid, secs[0].types)] + (DataLines(secs[0].recs) + SectionLines(secs[1..]))
  }

  predicate SectionOk(c: Section) {
    c.tabid != 0 && c.recs != [] && |c.recs| <= MAX_SLOTS
  }

  /** Sections of different tables, none empty and none too large. */
  ghost predicate SectionsOk(secs: seq<Section>) {
    && (forall i {:trigger secs[i]} :: 0 <= i < |secs| ==> SectionOk(secs[i]))
    && (forall i, j :: 0 <= i < j < |secs| ==> secs[i].tabid != secs[j].tabid)
  }

  /** The file has one live slot for each record. */
  ghost predicate HasRecords(f: File, recs: seq<seq<Byte>>) {
    WellFormed(f) && |f.offsets| == |recs| &&
    forall i {:trigger recs[i]} :: 0 <= i < |recs| ==> f.valid[i] && Slot(f, i) == Padded(recs[i])
  }

  lemma HasOneMore(f: File, recs: seq<seq<Byte>>, rec: seq<Byte>)
    requires HasRecords(f, recs) && |recs| < MAX_SLOTS
    ensures Append(f, rec).Some? && HasRecords(Append(f, rec).value, recs + [rec])
  {
    AppendSlots(f, rec);
    var more, g := recs + [rec], Append(f, rec).value;
    forall i | 0 <= i < |more|
      ensures g.valid[i] && Slot(g, i) == Padded(more[i])
    {
      if i < |recs| {
        assert more[i] == recs[i];
      }
    }
  }

  lemma {:induction false} LoadBoth(s: Loader, ls: seq<InitFile.Line>, ms: seq<InitFile.Line>)
    requires LoadOk(s)
    ensures var r := LoadLines(s, ls); LoadLines(s, ls + ms) == if r.Loading? then LoadLines(r.s, ms) else r
    decreases |ls|
  {
    if ls == [] {
      assert ls + ms == ms;
    } else {
      assert (ls + ms)[1..] == ls[1..] + ms;
      var r := LoadLine(s, ls[0]);
      if r.Loading? {
        LoadBoth(r.s, ls[1..], ms);
      }
    }
  }

  /** The state after the first `k` records of a section. */
  ghost predicate InSection(s0: Loader, c: Section, k: nat, s: Loader)
    requires k <= |c.recs|
  {
    && s.tabid == c.tabid && LoadOk(s)
    && if k == 0 then s.fid == 0 && s.files == s0.files && s.fids == s0.fids
       else s.fid == |s0.files| + 2 == |s.files| + 1 && s.files[..|s0.files|] == s0.files &&
            HasRecords(s.files[|s0.files|], c.recs[..k]) &&
            s.fids == if c.tabid in s0.fids then s0.fids else s0.fids[c.tabid := |s0.files| + 2]
  }

  lemma SectionStep(s0: Loader, c: Section, k: nat, s: Loader)
    requires SectionOk(c) && k < |c.recs| && InSection(s0, c, k, s)
    ensures var r := LoadLine(s, InitFile.DataLine(c.recs[k])); r.Loading? && InSection(s0, c, k + 1, r.s)
  {
    assert c.recs[..k + 1] == c.recs[..k] + [c.recs[k]];
    var w := WithFile(s);
    HasOneMore(w.files[w.fid - 2], c.recs[..k], c.recs[k]);
  }

  lemma {:induction false} SectionRecords(s0: Loader, c: Section, k: nat, s: Loader)
    requires SectionOk(c) && k <= |c.recs| && InSection(s0, c, k, s)
    ensures var r := LoadLines(s, DataLines(c.recs[k..])); r.Loading? && InSection(s0, c, |c.recs|, r.s)
    decreases |c.recs| - k
  {
    if k < |c.recs| {
      SectionStep(s0, c, k, s);
      assert c.recs[k..][1..] == c.recs[k + 1..];
      assert DataLines(c.recs[k..]) == [InitFile.DataLine(c.recs[k])] + DataLines(c.recs[k + 1..]);
      LoadHead(s, InitFile.DataLine(c.recs[k]), DataLines(c.recs[k + 1..]));
      SectionRecords(s0, c, k + 1, LoadLine(s, InitFile.DataLine(c.recs[k])).s);
    }
  }

  /** The loader is between sections: the current table, if there is one, has a file. */
  predicate Between(s: Loader) {
    LoadOk(s) && (s.tabid == 0 <==> s.fid == 0)
  }

  ghost predicate SectionLoaded(s0: Loader, secs: seq<Section>, s: Loader, i: nat)
    requires i < |secs|
  {
    var at := |s0.files| + i;
    at < |s.files| && HasRecords(s.files[at], secs[i].recs) && secs[i].tabid in s.fids && s.fids[secs[i].tabid] == at + 2
  }

  /** The files of the sections have been added, in order, and nothing else. */
  ghost predicate Loaded(s0: Loader, secs: seq<Section>, s: Loader) {
    && Between(s) && |s.files| == |s0.files| + |secs| && s.files[..|s0.files|] == s0.files
    && (forall i {:trigger SectionLoaded(s0, secs, s, i)} :: 0 <= i < |secs| ==> SectionLoaded(s0, secs, s, i))
    && (forall t {:trigger FromSection(s0, secs, s, t)} :: FromSection(s0, secs, s, t))
    && (forall t {:trigger FidKept(s0, s, t)} :: FidKept(s0, s, t))
  }

  /** A table in the map was there or has a section. */
  ghost predicate FromSection(s0: Loader, secs: seq<Section>, s: Loader, t: nat) {
    t in s.fids ==> t in s0.fids || exists i {:trigger secs[i]} :: 0 <= i < |secs| && secs[i].tabid == t
  }

  predicate FidKept(s0: Loader, s: Loader, t: nat) {
    t in s0.fids ==> t in s.fids && s.fids[t] == s0.fids[t]
  }

  ghost predicate NewIds(s0: Loader, secs: seq<Section>) {
    forall i {:trigger secs[i]} :: 0 <= i < |secs| ==> secs[i].tabid !in s0.fids
  }

  /** One section adds one file. */
  lemma OneSection(s0: Loader, c: Section)
    requires SectionOk(c) && Between(s0) && c.tabid !in s0.fids
    ensures var r := LoadLines(s0, [InitFile.TableLine(c.tabid, c.types)] + DataLines(c.recs));
      r.Loading? && Loaded(s0, [c], r.s) && r.s.fids == s0.fids[c.tabid := |s0.files| + 2]
  {
    LoadHead(s0, InitFile.TableLine(c.tabid, c.types), DataLines(c.recs));
    var s := LoadLine(s0, InitFile.TableLine(c.tabid, c.types)).s;
    assert c.recs[0..] == c.recs;
    SectionRecords(s0, c, 0, s);
    SectionDone(s0, c, LoadLines(s, DataLines(c.recs)).s);
  }

  lemma SectionDone(s0: Loader, c: Section, s: Loader)
    requires SectionOk(c) && InSection(s0, c, |c.recs|, s) && c.tabid !in s0.fids
    ensures Loaded(s0, [c], s) && s.fids == s0.fids[c.tabid := |s0.files| + 2]
  {
    assert c.recs[..|c.recs|] == c.recs;
    assert SectionLoaded(s0, [c], s, 0);
    assert [c][0].tabid == c.tabid;
  }

  /** A second section of a table makes a file that is not in the map. */
  lemma SecondSectionUnmapped(s0: Loader, c: Section)
    requires SectionOk(c) && Between(s0) && c.tabid in s0.fids
    ensures var r := LoadLines(s0, [InitFile.TableLine(c.tabid, c.types)] + DataLines(c.recs));
      r.Loading? && r.s.fids == s0.fids && |r.s.files| == |s0.files| + 1 && HasRecords(r.s.files[|s0.files|], c.recs)
  {
    LoadHead(s0, InitFile.TableLine(c.tabid, c.types), DataLines(c.recs));
    var s := LoadLine(s0, InitFile.TableLine(c.tabid, c.types)).s;
    assert c.recs[0..] == c.recs && c.recs[..|c.recs|] == c.recs;
    SectionRecords(s0, c, 0, s);
  }

  lemma SectionsChain(s0: Loader, c: Section, mid: Loader, rest: seq<Section>, s: Loader)
    requires Loaded(s0, [c], mid) && Loaded(mid, rest, s) && mid.fids == s0.fids[c.tabid := |s0.files| + 2]
    requires c.tabid !in s0.fids
    ensures Loaded(s0, [c] + rest, s)
  {
    var secs := [c] + rest;
    assert SectionLoaded(s0, [c], mid, 0) && FidKept(mid, s, c.tabid);
    assert s.files[|s0.files|] == s.files[..|mid.files|][|s0.files|] == mid.files[|s0.files|];
    forall i | 0 <= i < |secs|
      ensures SectionLoaded(s0, secs, s, i)
    {
      if i == 0 {
        assert s.fids[c.tabid] == mid.fids[c.tabid];
      } else {
        assert SectionLoaded(mid, rest, s, i - 1);
      }
    }
    assert s.files[..|s0.files|] == s.files[..|mid.files|][..|s0.files|] == s0.files;
    forall t: nat
      ensures FromSection(s0, secs, s, t) && FidKept(s0, s, t)
    {
      assert FromSection(mid, rest, s, t) && FidKept(mid, s, t) && FidKept(s0, mid, t);
      assert secs[0].tabid == c.tabid;
      if t in s.fids && t !in mid.fids {
        var j :| 0 <= j < |rest| && rest[j].tabid == t;
        assert secs[j + 1].tabid == t;
      }
    }
  }

  /** Loading: one file for each section, with its records in order; the map takes each table to its file. */
  lemma {:induction false} SectionsLoaded(s0: Loader, secs: seq<Section>)
    requires SectionsOk(secs) && Between(s0) && NewIds(s0, secs)
    ensures var r := LoadLines(s0, SectionLines(secs)); r.Loading? && Loaded(s0, secs, r.s)
    decreases |secs|
  {
    if secs != [] {
      var c, rest := secs[0], secs[1..];
      var head := [InitFile.TableLine(c.tabid, c.types)] + DataLines(c.recs);
      assert SectionLines(secs) == head + SectionLines(rest);
      OneSection(s0, c);
      LoadBoth(s0, head, SectionLines(rest));
      var mid := LoadLines(s0, head).s;
      forall i | 0 <= i < |rest|
        ensures rest[i].tabid !in mid.fids && SectionOk(rest[i])
      {
        assert rest[i] == secs[i + 1];
      }
      SectionsLoaded(mid, rest);
      SectionsChain(s0, c, mid, rest, LoadLines(mid, SectionLines(rest)).s);
      assert [c] + rest == secs;
    }
  }

  /** Loading stops at a bad line and at one that does not return, whatever sections are in front of it. */
  lemma StopsAt(s0: Loader, secs: seq<Section>, l: InitFile.Line)
    requires SectionsOk(secs) && Between(s0) && NewIds(s0, secs) && Stops(l)
    ensures LoadLines(s0, SectionLines(secs) + [l]) == if l.BadLine? then ParseError else ReaderFails(l.failure)
  {
    SectionsLoaded(s0, secs);
    LoadBoth(s0, SectionLines(secs), [l]);
  }

  /** A section without records is an error if another one follows, and nothing at the end of the file. */
  lemma EmptySection(s0: Loader, id: nat, types: seq<InitFile.FieldType>, l: InitFile.Line)
    requires Between(s0) && id != 0 && l.TableLine?
    ensures LoadLines(s0, [InitFile.TableLine(id, types)]) == Loading(s0.(tabid := id, fid := 0))
    ensures LoadLines(s0, [InitFile.TableLine(id, types)] + [l]) == EmptyTable
  {
    LoadHead(s0, InitFile.TableLine(id, types), []);
    LoadHead(s0, InitFile.TableLine(id, types), [l]);
    LoadHead(s0.(tabid := id, fid := 0), l, []);
  }

  /** A section with more than 65534 records does not fit into a file. */
  lemma TooManyRecords(s0: Loader, c: Section)
    requires Between(s0) && c.tabid != 0 && |c.recs| > 65534
    ensures LoadLines(s0, [InitFile.TableLine(c.tabid, c.types)] + DataLines(c.recs)) == FileFull
  {
    var front, n := c.(recs := c.recs[..MAX_SLOTS]), MAX_SLOTS;
    LoadHead(s0, InitFile.TableLine(c.tabid, c.types), DataLines(c.recs));
    var s := LoadLine(s0, InitFile.TableLine(c.tabid, c.types)).s;
    assert front.recs[0..] == front.recs && front.recs[..n] == front.recs;
    SectionRecords(s0, front, 0, s);
    assert DataLines(c.recs) == DataLines(front.recs) + ([InitFile.DataLine(c.recs[n])] + DataLines(c.recs[n + 1..]));
    LoadBoth(s, DataLines(front.recs), [InitFile.DataLine(c.recs[n])] + DataLines(c.recs[n + 1..]));
    var full := LoadLines(s, DataLines(front.recs)).s;
    LoadHead(full, InitFile.DataLine(c.recs[n]), DataLines(c.recs[n + 1..]));
  }

  /** The loader is at its only file. */
  ghost predicate AtOnlyFile(s: Loader, recs: seq<seq<Byte>>) {
    s.fid == 2 && |s.files| == 1 && HasRecords(s.files[0], recs)
  }

  lemma {:induction false} MoreRecords(s: Loader, had: seq<seq<Byte>>, recs: seq<seq<Byte>>)
    requires AtOnlyFile(s, had) && |had| + |recs| <= MAX_SLOTS
    ensures var r := LoadLines(s, DataLines(recs));
      r.Loading? && AtOnlyFile(r.s, had + recs) && r.s.fids == s.fids && r.s.tabid == s.tabid
    decreases |recs|
  {
    if recs == [] {
      assert had + recs == had;
    } else {
      assert DataLines(recs) == [InitFile.DataLine(recs[0])] + DataLines(recs[1..]);
      LoadHead(s, InitFile.DataLine(recs[0]), DataLines(recs[1..]));
      HasOneMore(s.files[0], had, recs[0]);
      MoreRecords(LoadLine(s, InitFile.DataLine(recs[0])).s, had + [recs[0]], recs[1..]);
      assert had + [recs[0]] + recs[1..] == had + recs;
    }
  }

  /**
   The table id 0 stands for no table: the section behind one with that id does not get a file of its own. Its records
   go to the file of the first, and its table is not in the map.
   */
  lemma ZeroTakesNext(c: Section, next: Section)
    requires c.tabid == 0 && c.recs != [] && |c.recs| + |next.recs| <= MAX_SLOTS
    ensures var r := LoadLines(NOTHING, SectionLines([c, next]));
      r.Loading? && AtOnlyFile(r.s, c.recs + next.recs) && r.s.fids == map[0 := 2]
  {
    var first, second := InitFile.TableLine(0, c.types), InitFile.TableLine(next.tabid, next.types);
    var rest := [second] + DataLines(next.recs);
    assert SectionLines([c, next]) == [first] + (DataLines(c.recs) + rest) by {
      assert [c, next][1..] == [next] && [next][1..] == [];
      assert SectionLines([next]) == rest + SectionLines([]);
    }
    LoadHead(NOTHING, first, DataLines(c.recs) + rest);
    LoadBoth(NOTHING, DataLines(c.recs), rest);
    FirstRecords(c.recs);
    var s := LoadLines(NOTHING, DataLines(c.recs)).s;
    LoadHead(s, second, DataLines(next.recs));
    MoreRecords(s.(tabid := next.tabid), c.recs, next.recs);
  }

  lemma FirstRecords(recs: seq<seq<Byte>>)
    requires 1 <= |recs| <= MAX_SLOTS
    ensures var r := LoadLines(NOTHING, DataLines(recs));
      r.Loading? && AtOnlyFile(r.s, recs) && r.s.fids == map[0 := 2] && r.s.tabid == 0
  {
    var one := LoadLine(NOTHING, InitFile.DataLine(recs[0])).s;
    assert DataLines(recs) == [InitFile.DataLine(recs[0])] + DataLines(recs[1..]);
    LoadHead(NOTHING, InitFile.DataLine(recs[0]), DataLines(recs[1..]));
    HasOneMore(EMPTY, [], recs[0]);
    assert [] + [recs[0]] == [recs[0]];
    MoreRecords(one, [recs[0]], recs[1..]);
    assert [recs[0]] + recs[1..] == recs;
  }

  // ---------------------------------------------------------------- the catalog in the init file

  /** The map that loading makes. */
  function FidsOf(secs: seq<Section>): map<nat, nat>
    decreases |secs|
  {
    if secs == [] then map[] else FidsOf(secs[..|secs| - 1])[secs[|secs| - 1].tabid := |secs| + 1]
  }

  lemma {:induction false} FidsOfSection(secs: seq<Section>, t: nat)
    requires SectionsOk(secs)
    ensures t in FidsOf(secs) ==> 2 <= FidsOf(secs)[t] < |secs| + 2 && secs[FidsOf(secs)[t] - 2].tabid == t
    ensures t !in FidsOf(secs) ==> forall i {:trigger secs[i]} :: 0 <= i < |secs| ==> secs[i].tabid != t
    decreases |secs|
  {
    if secs != [] {
      FidsOfSection(secs[..|secs| - 1], t);
    }
  }

  lemma LoadedFids(secs: seq<Section>, s: Loader)
    requires SectionsOk(secs) && Loaded(NOTHING, secs, s)
    ensures s.fids == FidsOf(secs)
  {
    forall t: nat
      ensures t in s.fids <==> t in FidsOf(secs)
      ensures t in s.fids ==> s.fids[t] == FidsOf(secs)[t]
    {
      FidsOfSection(secs, t);
      assert FromSection(NOTHING, secs, s, t);
      if t in FidsOf(secs) {
        assert SectionLoaded(NOTHING, secs, s, FidsOf(secs)[t] - 2);
      }
    }
  }

  /** Each record, in a slot of its own, holds the entry. */
  ghost predicate RecordsHold(t: nat, recs: seq<seq<Byte>>, es: seq<Entry>) {
    |recs| == |es| && forall i {:trigger recs[i]} :: 0 <= i < |recs| ==> EntryHeld(t, Padded(recs[i]), es[i])
  }

  /** A systable has a section with records of its entries. */
  ghost predicate InitSection(secs: seq<Section>, db: Db, t: nat) {
    t in FidsOf(secs) && 2 <= FidsOf(secs)[t] < |secs| + 2 && RecordsHold(t, secs[FidsOf(secs)[t] - 2].recs, Of(db, t))
  }

  /** The table of the entry has a section, and its file id is still open. */
  predicate OpenEntry(e: Entry, fids: map<nat, nat>) {
    e.Table? && e.tabfid == 0 && e.tabid in fids
  }

  /** The sections hold the systables of `db`, with the file ids of all tables open. */
  ghost predicate InitData(secs: seq<Section>, db: Db) {
    && SectionsOk(secs) && |secs| + 2 <= U32_MAX
    && (forall t {:trigger InitSection(secs, db, t)} :: IsSystab(t) ==> InitSection(secs, db, t))
    && (forall i {:trigger db.tables[i]} :: 0 <= i < |db.tables| ==> OpenEntry(db.tables[i], FidsOf(secs)))
  }

  lemma RecordsFile(t: nat, f: File, recs: seq<seq<Byte>>, es: seq<Entry>)
    requires HasRecords(f, recs) && RecordsHold(t, recs, es)
    ensures FileHolds(t, f, es)
  {
    forall i | 0 <= i < |es|
      ensures SlotHolds(t, f, es, i)
    {
      assert EntryHeld(t, Padded(recs[i]), es[i]);
    }
  }

  /** After loading every systable has its file. */
  lemma FilesLoaded(secs: seq<Section>, db: Db, s: Loader)
    requires InitData(secs, db) && Loaded(NOTHING, secs, s)
    ensures s.fids == FidsOf(secs) && FilesOk(s.files, db, s.fids)
  {
    LoadedFids(secs, s);
    forall t: nat | IsSystab(t)
      ensures t in s.fids && 2 <= s.fids[t] <= U32_MAX && FileOk(s.files, db, s.fids, t)
      ensures forall u {:trigger IsSystab(u)} :: IsSystab(u) && u in s.fids && s.fids[u] == s.fids[t] ==> u == t
    {
      assert InitSection(secs, db, t);
      FidsOfSection(secs, t);
      var i := s.fids[t] - 2;
      assert SectionLoaded(NOTHING, secs, s, i);
      RecordsFile(t, s.files[i], secs[i].recs, Of(db, t));
      forall u: nat | IsSystab(u) && u in s.fids && s.fids[u] == s.fids[t]
        ensures u == t
      {
        FidsOfSection(secs, u);
      }
    }
  }

  // ---------------------------------------------------------------- the rewrite of Table

  function Allot(e: Entry, fids: map<nat, nat>): Entry {
    if e.Table? && e.tabid in fids then e.(tabfid := fids[e.tabid]) else e
  }

  /** The catalog with the file ids of all tables. */
  function WithFileIds(db: Db, fids: map<nat, nat>): (r: Db)
    ensures |r.tables| == |db.tables| && forall i {:trigger r.tables[i]} :: 0 <= i < |db.tables| ==> r.tables[i] == Allot(db.tables[i], fids)
  {
    db.(tables := seq(|db.tables|, i requires 0 <= i < |db.tables| => Allot(db.tables[i], fids)))
  }

  ghost predicate RowHolds(t: nat, f: File, es: seq<Entry>, rows: seq<Row>, i: nat)
    requires WellFormed(f) && i < |rows| <= |es| == |f.offsets|
  {
    |rows[i]| == |SysCols(t)| && Reads(SysCols(t), Slot(f, i), rows[i]) && Create(t, rows[i]) == es[i]
  }

  lemma {:induction false} RowsOfFile(t: nat, f: File, es: seq<Entry>, n: nat) returns (rows: seq<Row>)
    requires FileHolds(t, f, es) && n <= |es|
    ensures |rows| == n && forall i {:trigger RowHolds(t, f, es, rows, i)} :: 0 <= i < n ==> RowHolds(t, f, es, rows, i)
  {
    if n == 0 {
      rows := [];
    } else {
      var front := RowsOfFile(t, f, es, n - 1);
      assert SlotHolds(t, f, es, n - 1);
      var row :| Reads(SysCols(t), Slot(f, n - 1), row) && Create(t, row) == es[n - 1];
      rows := front + [row];
      forall i | 0 <= i < n
        ensures RowHolds(t, f, es, rows, i)
      {
        if i < n - 1 {
          assert RowHolds(t, f, es, front, i);
        }
      }
    }
  }

  predicate FidsFit(fids: map<nat, nat>) {
    forall t {:trigger fids[t]} :: t in fids ==> 0 < fids[t] <= U32_MAX
  }

  lemma TableJobOk(fids: map<nat, nat>)
    requires FidsFit(fids)
    ensures InitCatalog.JobOk(TableJob(fids))
  {
  }

  /** Storing the file id in the row stores it in the entry. */
  lemma AllottedEntry(fids: map<nat, nat>, row: Row)
    requires FidsFit(fids) && |row| == |SysCols(TAB_TABLE)| && OpenEntry(Create(TAB_TABLE, row), fids)
    ensures InitCatalog.Pending(TableJob(fids), row)
    ensures Create(TAB_TABLE, InitCatalog.Allotted(TableJob(fids), row)) == Allot(Create(TAB_TABLE, row), fids)
  {
    TableJobOk(fids);
  }

  ghost predicate OpenTables(db: Db, fids: map<nat, nat>) {
    forall i {:trigger db.tables[i]} :: 0 <= i < |db.tables| ==> OpenEntry(db.tables[i], fids)
  }

  /** Before the rewrite all records of `Table` are pending. */
  lemma TablesPending(fids: map<nat, nat>, f: File, db: Db, rows: seq<Row>)
    requires FidsFit(fids) && OpenTables(db, fids) && FileHolds(TAB_TABLE, f, db.tables) && |rows| == |db.tables|
    requires forall i {:trigger RowHolds(TAB_TABLE, f, db.tables, rows, i)} :: 0 <= i < |rows| ==> RowHolds(TAB_TABLE, f, db.tables, rows, i)
    ensures InitCatalog.FileReads(TableJob(fids).cols, f, rows) && InitCatalog.AllPending(TableJob(fids), f, rows)
  {
    forall i | 0 <= i < |rows|
      ensures InitCatalog.SlotReads(TableJob(fids).cols, f, rows, i) && InitCatalog.PendingAt(TableJob(fids), f, rows, i)
    {
      assert RowHolds(TAB_TABLE, f, db.tables, rows, i) && OpenEntry(db.tables[i], fids);
      AllottedEntry(fids, rows[i]);
    }
  }

  /** After the rewrite the file holds the entries with their file ids. */
  lemma TablesAllotted(fids: map<nat, nat>, f0: File, db: Db, rows: seq<Row>, f: File)
    requires FidsFit(fids) && OpenTables(db, fids) && FileHolds(TAB_TABLE, f0, db.tables) && |rows| == |db.tables|
    requires forall i {:trigger RowHolds(TAB_TABLE, f0, db.tables, rows, i)} :: 0 <= i < |rows| ==> RowHolds(TAB_TABLE, f0, db.tables, rows, i)
    requires InitCatalog.Progress(TableJob(fids), f0, rows, f, |rows|)
    ensures FileHolds(TAB_TABLE, f, WithFileIds(db, fids).tables)
  {
    forall i | 0 <= i < |f0.valid|
      ensures f0.valid[i]
    {
      assert SlotHolds(TAB_TABLE, f0, db.tables, i);
    }
    InitializedTables(fids, f0, rows, f);
    var after := InitCatalog.AllottedRows(TableJob(fids), f0.valid, rows);
    forall i | 0 <= i < |rows|
      ensures CreateAll(TAB_TABLE, after)[i] == WithFileIds(db, fids).tables[i]
    {
      assert RowHolds(TAB_TABLE, f0, db.tables, rows, i) && OpenEntry(db.tables[i], fids);
      AllottedEntry(fids, rows[i]);
    }
    assert CreateAll(TAB_TABLE, after) == WithFileIds(db, fids).tables;
  }

  /** `FinishInitCatalog`: the rewrite, and the file id of `Table` for the meta page. */
  method FinishInit(schema: Schema, fids: map<nat, nat>, files: seq<File>, ghost db: Db) returns (after: seq<File>, tableFid: nat)
    requires FilesOk(files, db, fids) && FidsFit(fids) && OpenTables(db, fids) && InitCatalog.Serves(schema, SysCols(TAB_TABLE))
    ensures TAB_TABLE in fids && tableFid == fids[TAB_TABLE] && FilesOk(after, WithFileIds(db, fids), fids)
  {
    assert FileOk(files, db, fids, TAB_TABLE);
    tableFid := fids[TAB_TABLE];
    var file := new InmemFile();
    var f := files[tableFid - 2];
    file.valid, file.offsets, file.bytes := f.valid, f.offsets, f.bytes;
    assert file.State() == f;
    ghost var rows := RowsOfFile(TAB_TABLE, f, db.tables, |db.tables|);
    TableJobOk(fids);
    TablesPending(fids, f, db, rows);
    var outcome;
    ghost var visited, stop;
    outcome, visited, stop := InitCatalog.FinishInitCatalog(schema, file, 0, 4, fids, TableJob(fids), rows);
    TablesAllotted(fids, f, db, rows, file.State());
    after := files[tableFid - 2 := file.State()];
    FilesAllotted(files, db, fids, file.State());
  }

  lemma FilesAllotted(files: seq<File>, db: Db, fids: map<nat, nat>, f: File)
    requires FilesOk(files, db, fids) && TAB_TABLE in fids && 2 <= fids[TAB_TABLE] < |files| + 2
    requires FileHolds(TAB_TABLE, f, WithFileIds(db, fids).tables)
    ensures FilesOk(files[fids[TAB_TABLE] - 2 := f], WithFileIds(db, fids), fids)
  {
    forall t: nat | IsSystab(t)
      ensures FileOk(files[fids[TAB_TABLE] - 2 := f], WithFileIds(db, fids), fids, t)
    {
      assert FileOk(files, db, fids, t);
    }
  }

  // ---------------------------------------------------------------- from the init file to the catalog

  /** The catalog of the init file, with the file ids filled in, has integrity and describes itself. */
  ghost predicate Complete(secs: seq<Section>, db: Db, boot: map<nat, Desc>) {
    var end := WithFileIds(db, FidsOf(secs));
    Integrity(end, OidAllocation.FIRST_OID) && SystablesDescribed(end, FidsOf(secs)) && Booted(end, boot)
  }

  method LoadFiles(reader: InitFile.InitDataFileReader, ghost secs: seq<Section>, ghost db: Db)
    returns (files: seq<File>, fids: map<nat, nat>)
    requires reader.Ready() && reader.pos == 0 && reader.lastState == InitFile.Table && reader.schema == []
    requires LinesOf(reader.env, [], reader.input, 0) == SectionLines(secs) && InitData(secs, db)
    modifies reader, reader.tokens.parseBuf
    ensures fids == FidsOf(secs) && FilesOk(files, db, fids) && FidsFit(fids) && OpenTables(db, fids)
  {
    var loaded := LoadInitFile(reader);
    SectionsLoaded(NOTHING, secs);
    fids, files := loaded.s.fids, loaded.s.files;
    FilesLoaded(secs, db, loaded.s);
    forall t | t in fids
      ensures 0 < fids[t] <= U32_MAX
    {
      FidsOfSection(secs, t);
    }
  }

  method OpenCatalog(files: seq<File>, tableFid: nat, boot: map<nat, Desc>, ghost secs: seq<Section>, ghost db: Db) returns (c: CatCache)
    requires FilesOk(files, WithFileIds(db, FidsOf(secs)), FidsOf(secs)) && Complete(secs, db, boot)
    requires TAB_TABLE in FidsOf(secs) && tableFid == FidsOf(secs)[TAB_TABLE]
    ensures fresh(c) && c.Valid() && c.nextOid == OidAllocation.FIRST_OID
    ensures c.db == WithFileIds(db, FidsOf(secs)) && c.fids == FidsOf(secs)
  {
    c := new CatCache(files, OidAllocation.FIRST_OID, WithFileIds(db, FidsOf(secs)), FidsOf(secs));
    c.LoadMinCache(tableFid, boot);
  }

  /**
   A new database: the init file is loaded, the file ids are stored, and the minimal cache is read. If the init file
   holds the systables of a catalog that has integrity and describes itself, the cache invariant holds afterwards,
   over files that hold this catalog with the file ids filled in.
   */
  method InitializeFromInitData(reader: InitFile.InitDataFileReader, schema: Schema, boot: map<nat, Desc>,
                       ghost secs: seq<Section>, ghost db: Db) returns (c: CatCache)
    requires reader.Ready() && reader.pos == 0 && reader.lastState == InitFile.Table && reader.schema == []
    requires LinesOf(reader.env, [], reader.input, 0) == SectionLines(secs) && InitData(secs, db)
    requires InitCatalog.Serves(schema, SysCols(TAB_TABLE)) && Complete(secs, db, boot)
    modifies reader, reader.tokens.parseBuf
    ensures fresh(c) && c.Valid() && c.nextOid == OidAllocation.FIRST_OID
    ensures c.db == WithFileIds(db, FidsOf(secs)) && c.fids == FidsOf(secs)
  {
    var files, fids := LoadFiles(reader, secs, db);
    var after, tableFid := FinishInit(schema, fids, files, db);
    c := OpenCatalog(after, tableFid, boot, secs, db);
  }
}
