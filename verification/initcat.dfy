/**
 The initialization rewrite of src/catalog/CatCacheBase_private.inc:141-217: the scan of the systable `Table`
 that stores in every record the file id allotted to its table.
 */
module InitCatalog {
  import opened Base
  import opened Digits
  import opened Codec
  import opened Layout
  import opened Records
  import opened Schemas
  import opened SlotFile

  /** The columns of the systable, which of them are `tabid` and `tabfid`, and the map from table id to file id. */
  datatype Job = Job(cols: seq<Col>, idCol: nat, fidCol: nat, fids: map<nat, nat>)

  predicate FourBytes(c: Col) {
    Is(c, Fixed) && c.len == 4 && !c.byref
  }

  predicate JobOk(J: Job) {
    && J.idCol < |J.cols| && J.fidCol < |J.cols| && J.idCol != J.fidCol
    && FourBytes(J.cols[J.idCol]) && FourBytes(J.cols[J.fidCol])
    && forall t :: t in J.fids ==> 0 < J.fids[t] < 0x1_0000_0000
  }

  /** The record has no file id yet and its table has one in the map. */
  predicate Pending(J: Job, row: Row) {
    JobOk(J) && |row| == |J.cols| && U32(row[J.fidCol]) == 0 && U32(row[J.idCol]) in J.fids
  }

  /** The row with the file id of its table. */
  function Allotted(J: Job, row: Row): Row
    requires Pending(J, row)
  {
    row[J.fidCol := Val(J.fids[U32(row[J.idCol])])]
  }

  lemma FourByteValue(x: nat)
    requires x < 0x1_0000_0000
    ensures FromBytes(LowBytes(x, 4)) == x
  {
    LowBytesRead(x, 4);
    assert Pow256(2) == 0x1_0000;
    assert Pow256(4) == 0x1_0000_0000;
  }

  lemma AllottedStored(J: Job, row: Row)
    requires Pending(J, row) && StoredIn(J.cols, row) == row
    ensures StoredIn(J.cols, Allotted(J, row)) == Allotted(J, row)
  {
    FourByteValue(J.fids[U32(row[J.idCol])]);
  }

  lemma OverwriteDiffers(p: seq<Byte>, q: seq<Byte>, slot: seq<Byte>, at: int, len: int)
    requires p <= slot && DifferIn(p, q, at, len)
    ensures q <= Overwritten(slot, q) && DifferIn(slot, Overwritten(slot, q), at, len)
  {
  }

  /** Where the file id is stored in every record. */
  function FidAt(J: Job): int
    requires JobOk(J)
  {
    FieldOf(J.cols, J.fidCol).offset
  }

  /** Writing the changed row succeeds, and the payload overwrites the record in place. */
  lemma RewriteRecord(J: Job, slot: seq<Byte>, row: Row) returns (q: seq<Byte>)
    requires Reads(J.cols, slot, row) && Pending(J, row)
    ensures LayoutOf(J.cols).Some? && WriteRow(J.cols, Allotted(J, row)) == Wrote(|q|, q) && |q| <= |slot|
    ensures Reads(J.cols, Overwritten(slot, q), Allotted(J, row))
    ensures DifferIn(slot, Overwritten(slot, q), FidAt(J), 4)
  {
    var p := ReadsPayload(J.cols, slot, row);
    AllottedStored(J, row);
    q := ReplaceFixed(J.cols, row, J.fidCol, Val(J.fids[U32(row[J.idCol])]), p);
    OverwriteDiffers(p, q, slot, FidAt(J), 4);
    PayloadReads(J.cols, Allotted(J, row), q, Overwritten(slot, q));
  }

  // ---------------------------------------------------------------- the loop

  /** The live slots of the file hold records of the rows, by slot id. */
  ghost predicate FileReads(cols: seq<Col>, f: File, rows: seq<Row>) {
    WellFormed(f) && |rows| == |f.offsets| && forall i {:trigger SlotReads(cols, f, rows, i)} :: 0 <= i < |rows| ==> SlotReads(cols, f, rows, i)
  }

  ghost predicate SlotReads(cols: seq<Col>, f: File, rows: seq<Row>, i: nat)
    requires WellFormed(f) && i < |rows| == |f.offsets|
  {
    f.valid[i] ==> Reads(cols, Slot(f, i), rows[i])
  }

  /** Slot `i` after the live slots below `n` have been rewritten. */
  ghost predicate SlotSo(J: Job, f0: File, rows: seq<Row>, f: File, n: nat, i: nat)
    requires JobOk(J) && WellFormed(f0) && WellFormed(f) && i < |f0.offsets| == |f.offsets| == |rows|
  {
    if i < n && f0.valid[i] then
      && Pending(J, rows[i]) && Reads(J.cols, Slot(f, i), Allotted(J, rows[i]))
      && DifferIn(Slot(f0, i), Slot(f, i), FidAt(J), 4)
    else Slot(f, i) == Slot(f0, i)
  }

  /** The file after the live slots below `n` have been rewritten: same slots, nothing moved. */
  ghost predicate Progress(J: Job, f0: File, rows: seq<Row>, f: File, n: nat) {
    && JobOk(J) && WellFormed(f0) && WellFormed(f) && |rows| == |f0.offsets|
    && f.valid == f0.valid && f.offsets == f0.offsets && |f.bytes| == |f0.bytes|
    && forall k {:trigger Key(k, f)} :: Key(k, f) ==> FileReads(J.cols, f0, rows) && SlotsSo(J, f0, rows, f, n)
  }

  ghost predicate SlotsSo(J: Job, f0: File, rows: seq<Row>, f: File, n: nat)
    requires JobOk(J) && WellFormed(f0) && WellFormed(f) && |f0.offsets| == |f.offsets| == |rows|
  {
    forall i {:trigger SlotSo(J, f0, rows, f, n, i)} :: 0 <= i < |f0.offsets| ==> SlotSo(J, f0, rows, f, n, i)
  }

  lemma ProgressStarts(J: Job, f0: File, rows: seq<Row>)
    requires JobOk(J) && FileReads(J.cols, f0, rows)
    ensures Progress(J, f0, rows, f0, 0)
  {
    forall i | 0 <= i < |f0.offsets|
      ensures SlotSo(J, f0, rows, f0, 0, i)
    {
    }
  }

  lemma ProgressInside(J: Job, f0: File, rows: seq<Row>, f: File, n: nat)
    requires Progress(J, f0, rows, f, n)
    ensures FileReads(J.cols, f0, rows) && SlotsSo(J, f0, rows, f, n)
  {
    assert Key(0, f);
  }

  /** What the iterator finds on the next slot. */
  lemma ProgressAt(J: Job, f0: File, rows: seq<Row>, f: File, n: nat)
    requires Progress(J, f0, rows, f, n) && n < |rows| && f0.valid[n]
    ensures Slot(f, n) == Slot(f0, n) && Reads(J.cols, Slot(f0, n), rows[n])
  {
    assert Key(0, f) && SlotSo(J, f0, rows, f, n, n) && SlotReads(J.cols, f0, rows, n);
  }

  lemma ProgressSkips(J: Job, f0: File, rows: seq<Row>, f: File, m: nat, n: nat)
    requires Progress(J, f0, rows, f, m) && m <= n <= |f0.offsets| && forall i :: m <= i < n ==> !f0.valid[i]
    ensures Progress(J, f0, rows, f, n)
  {
    assert Key(0, f);
    forall i | 0 <= i < |f0.offsets|
      ensures SlotSo(J, f0, rows, f, n, i)
    {
      assert SlotSo(J, f0, rows, f, m, i);
    }
  }

  lemma ProgressStep(J: Job, f0: File, rows: seq<Row>, f: File, n: nat, q: seq<Byte>)
    requires Progress(J, f0, rows, f, n) && n < |f0.offsets| && f0.valid[n] && Pending(J, rows[n])
    requires |q| <= |Slot(f0, n)| && Reads(J.cols, Overwritten(Slot(f0, n), q), Allotted(J, rows[n]))
    requires DifferIn(Slot(f0, n), Overwritten(Slot(f0, n), q), FidAt(J), 4)
    ensures Update(f, n, q).Some? && Progress(J, f0, rows, Update(f, n, q).value, n + 1)
  {
    ProgressAt(J, f0, rows, f, n);
    UpdateSlots(f, n, q);
    var g, m := Update(f, n, q).value, n + 1;
    ProgressInside(J, f0, rows, f, n);
    forall i | 0 <= i < |f0.offsets|
      ensures SlotSo(J, f0, rows, g, m, i)
    {
      assert SlotSo(J, f0, rows, f, n, i);
    }
  }

  /** Where the iterator stands: on slot `n`, or at the end with `n` the number of slots. */
  ghost predicate At(f0: File, it: Iter, n: nat) {
    && |f0.valid| == |f0.offsets| && it.end == |f0.offsets| && n <= it.end
    && if it.on then it.next == n + 1 && n < it.end && f0.valid[n] else n == it.end
  }

  /** Moving on from slot `m` skips only slots that are not in use. */
  lemma NextAt(J: Job, f0: File, rows: seq<Row>, f: File, m: nat, it: Iter) returns (n: nat)
    requires Progress(J, f0, rows, f, m) && m <= |f0.offsets| && it == NextOf(f, Iter(m, |f0.offsets|, false))
    ensures At(f0, it, n) && Progress(J, f0, rows, f, n) && ValidIds(f0, n) == ValidIds(f0, m) && m <= n
  {
    n := FirstValid(f.valid, m, it.end);
    FirstValidSkips(f0, m, it.end);
    ProgressSkips(J, f0, rows, f, m, n);
  }

  /** How the rewrite ends: completed, or with one of the source's fatal errors. */
  datatype Outcome = Finished | SeenAgain | NotMapped | Unwritable | FileFull

  predicate PendingAt(J: Job, f: File, rows: seq<Row>, i: nat)
    requires i < |rows| == |f.valid|
  {
    f.valid[i] ==> Pending(J, rows[i])
  }

  ghost predicate AllPending(J: Job, f: File, rows: seq<Row>)
    requires |f.valid| == |rows|
  {
    forall i {:trigger PendingAt(J, f, rows, i)} :: 0 <= i < |rows| ==> PendingAt(J, f, rows, i)
  }

  lemma AllDone(J: Job, f0: File, rows: seq<Row>, f: File)
    requires Progress(J, f0, rows, f, |f0.offsets|)
    ensures AllPending(J, f0, rows)
  {
    assert Key(0, f);
    forall i | 0 <= i < |f0.offsets|
      ensures PendingAt(J, f0, rows, i)
    {
      assert SlotSo(J, f0, rows, f, |f0.offsets|, i);
    }
  }

  /** The error that stops the rewrite at a record that is not pending. */
  function Refusal(J: Job, row: Row): Outcome
    requires JobOk(J) && |row| == |J.cols|
  {
    if U32(row[J.fidCol]) != 0 then SeenAgain else NotMapped
  }

  /** The schema object has the layout of the columns. */
  ghost predicate Serves(schema: Schema, cols: seq<Col>)
    reads schema, schema.field, schema.order
  {
    forall k {:trigger Key(k, schema)} :: Key(k, schema) ==> schema.Ready() && schema.cols == cols
  }

  /** `DissemblePayload` on a record. */
  method Dissemble(schema: Schema, buf: seq<Byte>, ghost cols: seq<Col>, ghost row: Row) returns (data: Row)
    requires Serves(schema, cols) && Reads(cols, buf, row)
    ensures data == row
  {
    assert Key(0, schema);
    ghost var p := ReadsPayload(cols, buf, row);
    data := schema.DissemblePayload(buf);
  }

  /** `WritePayloadToBuffer` into an empty buffer; nothing if it fails. */
  method Write(schema: Schema, data: Row, ghost cols: seq<Col>, ghost p: seq<Byte>) returns (rec: Option<seq<Byte>>)
    requires Serves(schema, cols) && |data| == |cols| && LayoutOf(cols).Some? && WriteRow(cols, data) == Wrote(|p|, p)
    ensures rec == Some(p)
  {
    assert Key(0, schema);
    var buf := new ByteBuf();
    var length := schema.WritePayloadToBuffer(data, buf);
    assert TypeAlign(8, 0) == 0 && Resize([], 0) + p == p;
    rec := if length == MinusOne then None else Some(buf.bytes);
  }

  /** The decoding, changing and encoding of one record. */
  method RewriteEntry(schema: Schema, tabidField: nat, tabfidField: nat, tabid2fid: map<nat, nat>, buf: seq<Byte>,
                      ghost J: Job, ghost row: Row)
    returns (outcome: Outcome, rec: seq<Byte>)
    requires Serves(schema, J.cols) && JobOk(J) && J.idCol == tabidField && J.fidCol == tabfidField && J.fids == tabid2fid
    requires Reads(J.cols, buf, row)
    ensures outcome.Finished? <==> Pending(J, row)
    ensures outcome.Finished? ==> |rec| <= |buf| && Reads(J.cols, Overwritten(buf, rec), Allotted(J, row))
    ensures outcome.Finished? ==> DifferIn(buf, Overwritten(buf, rec), FidAt(J), 4)
    ensures !outcome.Finished? ==> outcome == Refusal(J, row)
  {
    rec := [];
    var data := Dissemble(schema, buf, J.cols, row);
    var tabid := U32(data[tabidField]);
    var fid := U32(data[tabfidField]);
    if fid != 0 {
      return SeenAgain, rec;
    }
    if tabid !in tabid2fid {
      return NotMapped, rec;
    }
    fid := tabid2fid[tabid];
    data := data[tabfidField := Val(fid)];
    ghost var q := RewriteRecord(J, buf, row);
    var written := Write(schema, data, J.cols, q);
    if written.None? {
      return Unwritable, rec;
    }
    return Finished, written.value;
  }

  /** One round of the loop: the current record is rewritten, and the iterator moves on; or the reason to stop. */
  method RewriteCurrent(schema: Schema, fiter: CatFileIterator, tabidField: nat, tabfidField: nat, tabid2fid: map<nat, nat>,
                        ghost J: Job, ghost f0: File, ghost rows: seq<Row>, ghost n: nat)
    returns (outcome: Outcome)
    requires Serves(schema, J.cols) && JobOk(J) && J.idCol == tabidField && J.fidCol == tabfidField && J.fids == tabid2fid
    requires fiter.Valid() && At(f0, Iter(fiter.nextidx, fiter.endidx, true), n)
    requires Progress(J, f0, rows, fiter.f.State(), n)
    modifies fiter.f
    ensures outcome.Finished? <==> Pending(J, rows[n])
    ensures outcome.Finished? ==> fiter.Valid() && Progress(J, f0, rows, fiter.f.State(), n + 1)
    ensures !outcome.Finished? ==> fiter.f.State() == old(fiter.f.State())
    ensures !outcome.Finished? ==> |rows[n]| == |J.cols| && outcome == Refusal(J, rows[n])
  {
    ghost var f := fiter.f.State();
    ProgressAt(J, f0, rows, f, n);
    var buf := fiter.GetCurrentCatEntry();
    assert buf == Slot(f0, n);
    var rec;
    outcome, rec := RewriteEntry(schema, tabidField, tabfidField, tabid2fid, buf, J, rows[n]);
    if outcome == Finished {
      ProgressStep(J, f0, rows, f, n, rec);
      var sid := fiter.UpdateCurrentCatEntry(rec);
      if sid.None? {
        outcome := FileFull;
      }
    }
  }

  method MoveOn(fiter: CatFileIterator, ghost J: Job, ghost f0: File, ghost rows: seq<Row>, ghost m: nat)
    returns (more: bool, ghost n: nat)
    requires fiter.Valid() && Progress(J, f0, rows, fiter.f.State(), m)
    requires m == fiter.nextidx <= fiter.endidx == |f0.offsets|
    modifies fiter
    ensures fiter.Valid() && At(f0, Iter(fiter.nextidx, fiter.endidx, more), n)
    ensures Progress(J, f0, rows, fiter.f.State(), n) && ValidIds(f0, n) == ValidIds(f0, m) && m <= n
  {
    ghost var f := fiter.f.State();
    more := fiter.NextCatEntry();
    n := NextAt(J, f0, rows, f, m, Iter(fiter.nextidx, fiter.endidx, more));
  }

  /**
   The first part of `FinishInitCatalog`. It completes if and only if every live record has no file id yet and
   a table in the map; then it has visited each live record once, in slot order, and rewritten each in place.
   Otherwise it stops at the first record that is not pending, with everything before it rewritten and
   everything from it on untouched. Writing a row back never fails, and no record ever moves.
   */
  method FinishInitCatalog(schema: Schema, file: InmemFile, tabidField: nat, tabfidField: nat, tabid2fid: map<nat, nat>,
                           ghost J: Job, ghost rows: seq<Row>)
    returns (outcome: Outcome, ghost visited: seq<nat>, ghost stop: nat)
    requires Serves(schema, J.cols) && JobOk(J) && J.idCol == tabidField && J.fidCol == tabfidField && J.fids == tabid2fid
    requires FileReads(J.cols, file.State(), rows)
    modifies file
    ensures Progress(J, old(file.State()), rows, file.State(), stop)
    ensures stop <= |rows| && visited == ValidIds(old(file.State()), stop)
    ensures outcome.Finished? <==> AllPending(J, old(file.State()), rows)
    ensures outcome.Finished? <==> stop == |rows|
    ensures !outcome.Finished? ==> stop < |rows| && old(file.valid)[stop] && |rows[stop]| == |J.cols|
    ensures !outcome.Finished? ==> !Pending(J, rows[stop]) && outcome == Refusal(J, rows[stop])
  {
    ghost var f0 := file.State();
    ProgressStarts(J, f0, rows);
    var fiter := new CatFileIterator(file, 0);
    var more;
    more, stop := MoveOn(fiter, J, f0, rows, 0);
    visited := [];
    while more
      invariant fiter.f == file && fiter.Valid() && fresh(fiter)
      invariant At(f0, Iter(fiter.nextidx, fiter.endidx, more), stop)
      invariant Progress(J, f0, rows, file.State(), stop) && visited == ValidIds(f0, stop)
      decreases |f0.offsets| - stop, more
    {
      outcome := RewriteCurrent(schema, fiter, tabidField, tabfidField, tabid2fid, J, f0, rows, stop);
      if outcome != Finished {
        assert !PendingAt(J, f0, rows, stop);
        return;
      }
      visited := visited + [stop];
      more, stop := MoveOn(fiter, J, f0, rows, stop + 1);
    }
    AllDone(J, f0, rows, file.State());
    outcome := Finished;
  }

  /** The rows a completed rewrite leaves behind. */
  function AllottedRows(J: Job, valid: seq<bool>, rows: seq<Row>): (r: seq<Row>)
    requires |valid| == |rows|
    ensures |r| == |rows|
    ensures forall i {:trigger r[i]} :: 0 <= i < |rows| ==> r[i] == if valid[i] && Pending(J, rows[i]) then Allotted(J, rows[i]) else rows[i]
  {
    seq(|rows|, i requires 0 <= i < |rows| => if valid[i] && Pending(J, rows[i]) then Allotted(J, rows[i]) else rows[i])
  }

  predicate FidStored(J: Job, row: Row) {
    && J.fidCol < |row| && J.idCol < |row| && U32(row[J.idCol]) in J.fids
    && U32(row[J.fidCol]) == J.fids[U32(row[J.idCol])] && !Pending(J, row)
  }

  /** After a completed rewrite the same records are live, and each reads as its row with the file id of its table. */
  lemma RewriteComplete(J: Job, f0: File, rows: seq<Row>, f: File)
    requires Progress(J, f0, rows, f, |rows|)
    ensures FileReads(J.cols, f, AllottedRows(J, f0.valid, rows)) && Live(f).Keys == Live(f0).Keys
    ensures forall i {:trigger rows[i]} :: 0 <= i < |rows| && f0.valid[i] ==> FidStored(J, AllottedRows(J, f0.valid, rows)[i])
  {
    ProgressInside(J, f0, rows, f, |rows|);
    forall i | 0 <= i < |rows|
      ensures SlotReads(J.cols, f, AllottedRows(J, f0.valid, rows), i)
      ensures f0.valid[i] ==> FidStored(J, AllottedRows(J, f0.valid, rows)[i])
    {
      assert SlotSo(J, f0, rows, f, |rows|, i);
    }
  }
}
