/**
 The line reader of src/catalog/InitDataFileReader.cpp:20-141: `table` lines declare the columns of the records
 that follow, `data` lines hold one record each, and the end of the file and errors are final.
 */
module InitFile {
  import opened Base
  import opened Codec
  import opened Layout
  import opened Schemas
  import opened Tokenizer

  /** The line types of the source, and what makes `next` not return. */
  datatype LineType = Eof | Table | Data | Error | Failed(failure: Failure)

  /**
   The use of a null schema: by a data line in front of any table line, or by a table line without columns, for which no
   schema is created. The use of a null type row. The error of a length function. A record of a schema whose layout
   could not be computed, or that the writer does not write and does not refuse.
   */
  datatype Failure = NullSchema | NullType | LengthError | NoRecord

  /** A column of the current table: its type and type parameter. */
  type FieldType = (nat, nat)

  /** What the reader calls: the value of a decimal number, the input function of a type, and the types of the bootstrap catalog. */
  datatype Env = Env(number: string -> Option<nat>, input: (nat, nat, string) -> Datum, types: Types)

  // ---------------------------------------------------------------- what a line means

  /** A line of columns, a record, an error, or no return. The columns are empty while there is no schema. */
  datatype Line = TableLine(tabid: nat, schema: seq<FieldType>) | DataLine(rec: seq<Byte>) | BadLine | NoReturn(failure: Failure)

  /** A number in the range of its C++ type. */
  function Number(env: Env, s: string, max: nat): Option<nat> {
    match env.number(s)
    case None => None
    case Some(n) => if n <= max then Some(n) else None
  }

  /** The columns of a schema, none of them nullable. Unknown types do not occur in a schema that is used. */
  function SchemaCols(env: Env, schema: seq<FieldType>): (r: seq<Col>)
    ensures |r| == |schema|
    ensures forall i {:trigger r[i]} :: 0 <= i < |schema| && schema[i].0 in env.types ==>
              r[i] == ColOf(env.types[schema[i].0], schema[i].1, false)
  {
    seq(|schema|, i requires 0 <= i < |schema| =>
      if schema[i].0 in env.types then ColOf(env.types[schema[i].0], schema[i].1, false) else Col(-1, 1, true, false))
  }

  /** The first failure of a type lookup in the first `n` columns, unless the offsets overflow before it. */
  function LayoutFailure(env: Env, schema: seq<FieldType>, n: nat): Option<Failure>
    requires n <= |schema|
  {
    if n == 0 then None
    else if LayoutFailure(env, schema, n - 1).Some? then LayoutFailure(env, schema, n - 1)
    else if FixedEnd(SchemaCols(env, schema), n - 1) > I16_MAX then None
    else if schema[n - 1].0 !in env.types then Some(NullType)
    else if LengthRaises(env.types[schema[n - 1].0], schema[n - 1].1) then Some(LengthError)
    else None
  }

  /** How laying out a schema and looking up its input functions ends, if not well. */
  function SchemaFailure(env: Env, schema: seq<FieldType>): Option<Failure> {
    if schema == [] then Some(NullSchema)
    else if LayoutFailure(env, schema, |schema|).Some? then LayoutFailure(env, schema, |schema|)
    else if exists i :: 0 <= i < |schema| && schema[i].0 !in env.types then Some(NullType)
    else None
  }

  /** The record that the writer makes of a row, an error if it is too long. */
  function RecordOf(cols: seq<Col>, row: Row): Line
    requires |row| == |cols|
  {
    if LayoutOf(cols).None? then NoReturn(NoRecord)
    else match WriteRow(cols, row)
      case Wrote(_, payload) => DataLine(payload)
      case TooLong => BadLine
      case _ => NoReturn(NoRecord)
  }

  /** The values of the tokens of a data line. */
  function Inputs(env: Env, schema: seq<FieldType>, ts: seq<string>): (r: Option<Row>)
    requires |ts| <= |schema|
    ensures r.Some? ==> |r.value| == |ts|
  {
    if ts == [] then Some([])
    else
      var k := |ts| - 1;
      var v := env.input(schema[k].0, schema[k].1, ts[k]);
      match Inputs(env, schema, ts[..k])
      case Some(vs) => if v.Null? then None else Some(vs + [v])
      case None => None
  }

  /** The tokens are exactly as many as the columns, and each is accepted. */
  function AllInputs(env: Env, schema: seq<FieldType>, tokens: Option<seq<string>>): Option<Row> {
    if tokens.None? || |tokens.value| != |schema| then None else Inputs(env, schema, tokens.value)
  }

  /** The tokens behind `data` make a row, and the row can be written. */
  function DataOf(env: Env, schema: seq<FieldType>, tokens: Option<seq<string>>): Line {
    if schema == [] then NoReturn(NullSchema)
    else match AllInputs(env, schema, tokens)
      case None => BadLine
      case Some(vs) => RecordOf(SchemaCols(env, schema), vs)
  }

  /** Pairs of numbers, the first with 32 bits and the second with 64. */
  function Pairs(env: Env, ts: seq<string>): Option<seq<FieldType>> {
    if ts == [] then Some([])
    else if |ts| == 1 then None
    else
      var k := |ts| - 2;
      match (Pairs(env, ts[..k]), Number(env, ts[k], U32_MAX), Number(env, ts[k + 1], U64 - 1))
      case (Some(ps), Some(t), Some(p)) => Some(ps + [(t, p)])
      case _ => None
  }

  /** The tokens behind `table` are a table id and then pairs of a type id and a type parameter. */
  function TableOf(env: Env, tabid: string, tokens: Option<seq<string>>): Line {
    if tokens.None? then BadLine
    else match (Number(env, tabid, U32_MAX), Pairs(env, tokens.value))
      case (Some(id), Some(ps)) =>
        if SchemaFailure(env, ps).Some? then NoReturn(SchemaFailure(env, ps).value) else TableLine(id, ps)
      case _ => BadLine
  }

  function LineOf(env: Env, schema: seq<FieldType>, line: string): Line {
    match TokenAt(line, 0)
    case None => BadLine
    case Some((word, at)) =>
      if word == "data" then DataOf(env, schema, TokensFrom(line, at))
      else if word == "table" then
        match TokenAt(line, at)
        case None => BadLine
        case Some((tabid, next)) => TableOf(env, tabid, TokensFrom(line, next))
      else BadLine
  }

  // ---------------------------------------------------------------- what the lines mean, token by token

  /** Value `i` is what the input function of column `i` makes of token `i`. */
  predicate Taken(env: Env, schema: seq<FieldType>, ts: seq<string>, vs: Row, i: nat) {
    i < |schema| && i < |ts| && i < |vs| && vs[i] == env.input(schema[i].0, schema[i].1, ts[i]) && !vs[i].Null?
  }

  /** The row has the values of the tokens, in order. */
  ghost predicate RowTaken(env: Env, schema: seq<FieldType>, ts: seq<string>, vs: Row) {
    |vs| == |ts| <= |schema| && forall i {:trigger Taken(env, schema, ts, vs, i)} :: 0 <= i < |ts| ==> Taken(env, schema, ts, vs, i)
  }

  lemma {:induction false} InputsExactly(env: Env, schema: seq<FieldType>, ts: seq<string>, vs: Row)
    requires |ts| <= |schema|
    ensures Inputs(env, schema, ts) == Some(vs) <==> RowTaken(env, schema, ts, vs)
  {
    if ts == [] {
    } else if |vs| == |ts| {
      var k := |ts| - 1;
      InputsExactly(env, schema, ts[..k], vs[..k]);
      assert vs == vs[..k] + [vs[k]];
      TakenFront(env, schema, ts, vs, k);
    }
  }

  lemma TakenFront(env: Env, schema: seq<FieldType>, ts: seq<string>, vs: Row, k: nat)
    requires |vs| == |ts| == k + 1 <= |schema|
    ensures RowTaken(env, schema, ts, vs) <==> RowTaken(env, schema, ts[..k], vs[..k]) && Taken(env, schema, ts, vs, k)
  {
    forall i | 0 <= i < k
      ensures Taken(env, schema, ts[..k], vs[..k], i) <==> Taken(env, schema, ts, vs, i)
    {
    }
    if RowTaken(env, schema, ts[..k], vs[..k]) && Taken(env, schema, ts, vs, k) {
      forall i | 0 <= i < k + 1
        ensures Taken(env, schema, ts, vs, i)
      {
        assert i < k ==> Taken(env, schema, ts[..k], vs[..k], i);
      }
    }
  }

  /** What comes of a row: its payload as a record, an error if it is too long, and otherwise no return. */
  predicate RecordIs(cols: seq<Col>, row: Row, l: Line) {
    |row| == |cols| &&
    if LayoutOf(cols).None? then l == NoReturn(NoRecord)
    else if WriteRow(cols, row).Wrote? then l == DataLine(WriteRow(cols, row).payload)
    else if WriteRow(cols, row).TooLong? then l == BadLine
    else l == NoReturn(NoRecord)
  }

  /** The columns of a schema have the lengths and alignments of their types, and none of them is nullable. */
  lemma SchemaColsExactly(env: Env, schema: seq<FieldType>, i: nat)
    requires i < |schema| && schema[i].0 in env.types && !LengthRaises(env.types[schema[i].0], schema[i].1)
    ensures var t, c := env.types[schema[i].0], SchemaCols(env, schema)[i];
      && !c.nullable && c.align == t.typalign && (c.byref <==> t.isVarlen || t.byref)
      && c.len == if t.isVarlen then -1 else if t.hasLenFunc then schema[i].1 else t.typlen
  {
  }

  /** A data line stores the row of its tokens, or is bad if their number is wrong or one is not accepted. */
  ghost predicate StoresRow(env: Env, schema: seq<FieldType>, tokens: Option<seq<string>>, l: Line) {
    schema != [] ==>
      && (tokens.None? || |tokens.value| != |schema| ==> l == BadLine)
      && (tokens.Some? && |tokens.value| == |schema| ==>
            && (forall vs {:trigger RowTaken(env, schema, tokens.value, vs)} :: RowTaken(env, schema, tokens.value, vs) ==>
                  RecordIs(SchemaCols(env, schema), vs, l))
            && ((forall vs {:trigger RowTaken(env, schema, tokens.value, vs)} :: !RowTaken(env, schema, tokens.value, vs)) ==>
                  l == BadLine))
  }

  lemma DataExactly(env: Env, schema: seq<FieldType>, tokens: Option<seq<string>>)
    ensures StoresRow(env, schema, tokens, DataOf(env, schema, tokens))
  {
    if tokens.Some? && |tokens.value| == |schema| {
      forall vs
        ensures Inputs(env, schema, tokens.value) == Some(vs) <==> RowTaken(env, schema, tokens.value, vs)
      {
        InputsExactly(env, schema, tokens.value, vs);
      }
    }
  }

  /** The two tokens at `2 * i` are a type id of 32 bits and a type parameter of 64 bits. */
  predicate PairTaken(env: Env, ts: seq<string>, ps: seq<FieldType>, i: nat) {
    && 2 * i + 1 < |ts| && i < |ps|
    && env.number(ts[2 * i]) == Some(ps[i].0) && ps[i].0 < 0x1_0000_0000
    && env.number(ts[2 * i + 1]) == Some(ps[i].1) && ps[i].1 < 0x1_0000_0000_0000_0000
  }

  /** The tokens are pairs of a type id and a type parameter, in order. */
  ghost predicate AllPairs(env: Env, ts: seq<string>, ps: seq<FieldType>) {
    |ts| == 2 * |ps| && forall i {:trigger PairTaken(env, ts, ps, i)} :: 0 <= i < |ps| ==> PairTaken(env, ts, ps, i)
  }

  lemma {:induction false} PairsExactly(env: Env, ts: seq<string>, ps: seq<FieldType>)
    ensures Pairs(env, ts) == Some(ps) <==> AllPairs(env, ts, ps)
    decreases |ts|
  {
    if |ts| >= 2 && ps != [] {
      var k, m := |ts| - 2, |ps| - 1;
      PairsExactly(env, ts[..k], ps[..m]);
      assert ps == ps[..m] + [ps[m]];
      if |ts| == 2 * |ps| {
        PairsFront(env, ts, ps, m);
      }
    }
  }

  lemma PairsFront(env: Env, ts: seq<string>, ps: seq<FieldType>, m: nat)
    requires |ts| == 2 * |ps| && |ps| == m + 1
    ensures AllPairs(env, ts, ps) <==> AllPairs(env, ts[..2 * m], ps[..m]) && PairTaken(env, ts, ps, m)
  {
    forall i | 0 <= i < m
      ensures PairTaken(env, ts[..2 * m], ps[..m], i) <==> PairTaken(env, ts, ps, i)
    {
    }
    if AllPairs(env, ts[..2 * m], ps[..m]) && PairTaken(env, ts, ps, m) {
      forall i | 0 <= i < m + 1
        ensures PairTaken(env, ts, ps, i)
      {
        assert i < m ==> PairTaken(env, ts[..2 * m], ps[..m], i);
      }
    }
  }

  /** The tokens are the id of a table and the columns of a schema that can be used. */
  ghost predicate TableTaken(env: Env, tabid: string, ts: seq<string>, n: nat, ps: seq<FieldType>) {
    env.number(tabid) == Some(n) && n < 0x1_0000_0000 && AllPairs(env, ts, ps) && SchemaFailure(env, ps) == None
  }

  lemma TableExactly(env: Env, tabid: string, ts: seq<string>)
    ensures forall n: nat, ps {:trigger TableLine(n, ps)} ::
              TableOf(env, tabid, Some(ts)) == TableLine(n, ps) <==> TableTaken(env, tabid, ts, n, ps)
  {
    forall n: nat, ps
      ensures TableOf(env, tabid, Some(ts)) == TableLine(n, ps) <==> TableTaken(env, tabid, ts, n, ps)
    {
      PairsExactly(env, ts, ps);
    }
  }

  /** What a line of these tokens means: the first one is its kind. */
  ghost predicate Means(env: Env, schema: seq<FieldType>, ts: seq<string>, l: Line) {
    ts != [] &&
    if ts[0] == "data" then StoresRow(env, schema, Some(ts[1..]), l)
    else if ts[0] == "table" && |ts| > 1 then
      forall n: nat, ps {:trigger TableLine(n, ps)} :: l == TableLine(n, ps) <==> TableTaken(env, ts[1], ts[2..], n, ps)
    else l == BadLine
  }

  /** Every line means what its tokens say, and nothing is taken in from one with a bad token. */
  lemma LineExactly(env: Env, schema: seq<FieldType>, line: string)
    requires line != ""
    ensures if TokensFrom(line, 0).Some? then Means(env, schema, TokensFrom(line, 0).value, LineOf(env, schema, line))
            else !LineOf(env, schema, line).DataLine? && !LineOf(env, schema, line).TableLine?
  {
    if TokenAt(line, 0).Some? {
      var (word, at) := TokenAt(line, 0).value;
      DataExactly(env, schema, TokensFrom(line, at));
      if word == "table" && at < |line| && TokenAt(line, at).Some? {
        var (tabid, next) := TokenAt(line, at).value;
        if TokensFrom(line, next).Some? {
          TableExactly(env, tabid, TokensFrom(line, next).value);
          assert TokensFrom(line, 0).value[2..] == TokensFrom(line, next).value;
        }
      }
    }
  }

  // ---------------------------------------------------------------- lines that do not return

  predicate KnownType(env: Env, schema: seq<FieldType>, i: nat) {
    i < |schema| && schema[i].0 in env.types
  }

  /** The length function of column `i` is called, as the offsets have not overflowed before it, and raises an error. */
  predicate RaisesAt(env: Env, schema: seq<FieldType>, i: nat) {
    KnownType(env, schema, i) && FixedEnd(SchemaCols(env, schema), i) <= I16_MAX && LengthRaises(env.types[schema[i].0], schema[i].1)
  }

  lemma {:induction false} LayoutFailsExactly(env: Env, schema: seq<FieldType>, n: nat)
    requires n <= |schema| && forall i {:trigger KnownType(env, schema, i)} :: 0 <= i < n ==> KnownType(env, schema, i)
    ensures LayoutFailure(env, schema, n) == None || LayoutFailure(env, schema, n) == Some(LengthError)
    ensures LayoutFailure(env, schema, n).Some? <==> exists i {:trigger RaisesAt(env, schema, i)} :: 0 <= i < n && RaisesAt(env, schema, i)
  {
    if n > 0 {
      LayoutFailsExactly(env, schema, n - 1);
      assert KnownType(env, schema, n - 1);
      assert RaisesAt(env, schema, n - 1) <==>
             FixedEnd(SchemaCols(env, schema), n - 1) <= I16_MAX && LengthRaises(env.types[schema[n - 1].0], schema[n - 1].1);
    }
  }

  lemma {:induction false} LayoutFailureKinds(env: Env, schema: seq<FieldType>, n: nat)
    requires n <= |schema|
    ensures LayoutFailure(env, schema, n) != Some(NullSchema) && LayoutFailure(env, schema, n) != Some(NoRecord)
  {
    if n > 0 {
      LayoutFailureKinds(env, schema, n - 1);
    }
  }

  /**
   The schema of a table line can be used if and only if it has columns, all of known types, and no length function
   raises an error.
   */
  lemma SchemaAcceptedExactly(env: Env, schema: seq<FieldType>)
    ensures SchemaFailure(env, schema).None? <==>
            && schema != []
            && (forall i {:trigger KnownType(env, schema, i)} :: 0 <= i < |schema| ==> KnownType(env, schema, i))
            && (forall i {:trigger RaisesAt(env, schema, i)} :: 0 <= i < |schema| ==> !RaisesAt(env, schema, i))
  {
    if forall i {:trigger KnownType(env, schema, i)} :: 0 <= i < |schema| ==> KnownType(env, schema, i) {
      LayoutFailsExactly(env, schema, |schema|);
      forall i | 0 <= i < |schema|
        ensures schema[i].0 in env.types
      {
        assert KnownType(env, schema, i);
      }
    } else {
      var i :| 0 <= i < |schema| && !KnownType(env, schema, i);
      assert schema[i].0 !in env.types;
    }
  }

  /** The line begins with `table` and a number and ends there. */
  predicate BareTable(env: Env, line: string) {
    match TokenAt(line, 0)
    case None => false
    case Some((word, at)) =>
      if word != "table" || TokenAt(line, at).None? then false
      else
        var (tabid, next) := TokenAt(line, at).value;
        Number(env, tabid, U32_MAX).Some? && next == |line|
  }

  predicate DataFirst(line: string) {
    TokenAt(line, 0).Some? && TokenAt(line, 0).value.0 == "data"
  }

  /** A null schema is used exactly by a data line while there is none, and by a table line without columns. */
  lemma NullSchemaExactly(env: Env, schema: seq<FieldType>, line: string)
    ensures LineOf(env, schema, line) == NoReturn(NullSchema) <==> (DataFirst(line) && schema == []) || BareTable(env, line)
  {
    if TokenAt(line, 0).Some? {
      var (word, at) := TokenAt(line, 0).value;
      if word == "table" && TokenAt(line, at).Some? {
        var next := TokenAt(line, at).value.1;
        var tokens := TokensFrom(line, next);
        if tokens.Some? && Pairs(env, tokens.value).Some? {
          LayoutFailureKinds(env, Pairs(env, tokens.value).value, |Pairs(env, tokens.value).value|);
        }
      }
    }
  }

  // ---------------------------------------------------------------- the loops over a line

  /** `ts` are the tokens from `from` up to `at`. */
  ghost predicate Collected(line: string, from: nat, at: nat, ts: seq<string>) {
    from <= |line| && at <= |line| &&
    TokensFrom(line, from) == match TokensFrom(line, at) case None => None case Some(rest) => Some(ts + rest)
  }

  lemma CollectedNone(line: string, from: nat)
    requires from <= |line|
    ensures Collected(line, from, from, [])
  {
    if TokensFrom(line, from).Some? {
      assert [] + TokensFrom(line, from).value == TokensFrom(line, from).value;
    }
  }

  lemma CollectedStep(line: string, from: nat, at: nat, ts: seq<string>)
    requires Collected(line, from, at, ts) && at < |line|
    ensures TokenAt(line, at).None? ==> TokensFrom(line, from).None?
    ensures TokenAt(line, at).Some? ==> Collected(line, from, TokenAt(line, at).value.1, ts + [TokenAt(line, at).value.0])
    ensures TokensFrom(line, from).Some? && TokenAt(line, at).Some? ==> ts + [TokenAt(line, at).value.0] <= TokensFrom(line, from).value
    ensures TokensFrom(line, from).Some? ==> |TokensFrom(line, from).value| > |ts|
  {
    if TokenAt(line, at).Some? && TokensFrom(line, TokenAt(line, at).value.1).Some? {
      var rest := TokensFrom(line, TokenAt(line, at).value.1).value;
      assert ts + ([TokenAt(line, at).value.0] + rest) == (ts + [TokenAt(line, at).value.0]) + rest;
    }
  }

  lemma CollectedAll(line: string, from: nat, at: nat, ts: seq<string>)
    requires Collected(line, from, at, ts) && at == |line|
    ensures TokensFrom(line, from) == Some(ts)
  {
    assert ts + [] == ts;
  }

  /** A rejected token makes the whole line bad. */
  lemma {:induction false} InputsPrefix(env: Env, schema: seq<FieldType>, ts: seq<string>, all: seq<string>)
    requires ts <= all && |all| <= |schema| && Inputs(env, schema, ts).None?
    ensures Inputs(env, schema, all).None?
  {
    if |ts| < |all| {
      assert ts <= all[..|all| - 1];
      InputsPrefix(env, schema, ts, all[..|all| - 1]);
    } else {
      assert ts == all;
    }
  }

  lemma {:induction false} PairsPrefix(env: Env, ts: seq<string>, all: seq<string>)
    requires ts <= all && |ts| % 2 == 0 && Pairs(env, ts).None?
    ensures Pairs(env, all).None?
  {
    if |ts| + 2 <= |all| {
      assert ts <= all[..|all| - 2];
      PairsPrefix(env, ts, all[..|all| - 2]);
    } else if |ts| < |all| {
      OddPairs(env, all);
    } else {
      assert ts == all;
    }
  }

  lemma {:induction false} OddPairs(env: Env, ts: seq<string>)
    requires |ts| % 2 == 1
    ensures Pairs(env, ts).None?
  {
    if |ts| > 1 {
      OddPairs(env, ts[..|ts| - 2]);
    }
  }

  /** A type id that is no number makes the line bad, whatever follows it. */
  lemma PairsBadType(env: Env, ts: seq<string>, t: string, all: seq<string>)
    requires |ts| % 2 == 0 && ts + [t] <= all && Number(env, t, U32_MAX).None?
    ensures Pairs(env, all).None?
  {
    if |all| == |ts| + 1 {
      OddPairs(env, all);
    } else {
      var two := all[..|ts| + 2];
      assert two[..|ts|] == ts && two[|ts|] == t;
      PairsPrefix(env, two, all);
    }
  }

  // ---------------------------------------------------------------- the reader

  /** The first line end at or behind `i`, or the end of the input. */
  function LineEnd(s: string, i: nat): (r: nat)
    requires i <= |s|
    ensures i <= r <= |s|
    decreases |s| - i
  {
    if i == |s| || s[i] == '\n' then i else LineEnd(s, i + 1)
  }

  /** After the end of the file and after an error the reader stays there. */
  predicate Final(t: LineType) { t == Eof || t == Error || t.Failed? }

  class InitDataFileReader {
    const input: string
    const env: Env
    const tokens: Reader
    var pos: nat
    var lineno: nat
    var lastState: LineType
    var tabid: nat
    var schema: seq<FieldType>
    var buf: seq<Byte>

    constructor (content: string, e: Env)
      ensures input == content && env == e && pos == 0 && lastState == Table && schema == [] && Ready()
      ensures fresh(tokens) && fresh(tokens.parseBuf)
    {
      var t := new Reader();
      input, env, tokens := content, e, t;
      pos, lineno, lastState, tabid, schema, buf := 0, 0, Table, 0, [], [];
    }

    ghost predicate Ready()
      reads this
    {
      tokens.parseBuf.Length == PARSE_LIMIT && pos <= |input|
    }

    /** The loop over the tokens of a data line. */
    method ReadFields(line: string, from: nat) returns (r: Option<Row>)
      requires Ready() && from <= |line|
      modifies tokens.parseBuf
      ensures r == AllInputs(env, schema, TokensFrom(line, from))
      ensures r.Some? ==> TokensFrom(line, from).Some? && |r.value| == |schema| && RowTaken(env, schema, TokensFrom(line, from).value, r.value)
    {
      var startPos := from;
      var data: Row := [];
      ghost var ts: seq<string> := [];
      CollectedNone(line, from);
      while startPos != |line|
        invariant startPos <= |line| && |ts| == |data| <= |schema| && Collected(line, from, startPos, ts)
        invariant Inputs(env, schema, ts) == Some(data)
        decreases |line| - startPos
      {
        CollectedStep(line, from, startPos, ts);
        if |data| == |schema| {
          return None;
        }
        var token, next := tokens.FindNextToken(line, startPos);
        if token.None? {
          return None;
        }
        var field := schema[|data|];
        var v := env.input(field.0, field.1, token.value);
        ts := ts + [token.value];
        assert ts[..|ts| - 1] == ts[..|data|];
        if v.Null? {
          BadToken(line, from, ts);
          return None;
        }
        startPos, data := next, data + [v];
      }
      CollectedAll(line, from, startPos, ts);
      InputsExactly(env, schema, ts, data);
      r := if |data| == |schema| then Some(data) else None;
    }

    lemma BadToken(line: string, from: nat, ts: seq<string>)
      requires |ts| <= |schema| && Inputs(env, schema, ts).None? && from <= |line|
      requires TokensFrom(line, from).Some? ==> ts <= TokensFrom(line, from).value
      ensures AllInputs(env, schema, TokensFrom(line, from)) == None
    {
      if TokensFrom(line, from).Some? && |TokensFrom(line, from).value| == |schema| {
        InputsPrefix(env, schema, ts, TokensFrom(line, from).value);
      }
    }

    /** A data line. */
    method ReadData(line: string, from: nat) returns (r: Line)
      requires Ready() && from <= |line|
      modifies tokens.parseBuf
      ensures r == DataOf(env, schema, TokensFrom(line, from))
      ensures StoresRow(env, schema, TokensFrom(line, from), r)
    {
      DataExactly(env, schema, TokensFrom(line, from));
      if schema == [] {
        return NoReturn(NullSchema);
      }
      var data := ReadFields(line, from);
      r := if data.None? then BadLine else RecordOf(SchemaCols(env, schema), data.value);
    }

    /** One number of a table line; `more` are the tokens up to and including it. */
    method ReadNumber(line: string, from: nat, at: nat, max: nat, ghost ts: seq<string>)
      returns (n: Option<nat>, next: nat, ghost more: seq<string>)
      requires Ready() && at <= |line| && Collected(line, from, at, ts)
      modifies tokens.parseBuf
      ensures n.Some? ==> at < next <= |line| && Collected(line, from, next, more) && |more| == |ts| + 1 && more[..|ts|] == ts
      ensures n.Some? ==> Number(env, more[|ts|], max) == n
      ensures n.None? ==> NoNumber(TokensFrom(line, from), ts, max)
    {
      more := ts;
      var token;
      token, next := tokens.FindNextToken(line, at);
      if at == |line| {
        CollectedAll(line, from, at, ts);
        return None, next, more;
      }
      CollectedStep(line, from, at, ts);
      if token.None? {
        return None, next, more;
      }
      n := Number(env, token.value, max);
      more := ts + [token.value];
    }

    /** The line has a bad token, ends behind `ts`, or goes on with something that is no number. */
    ghost predicate NoNumber(all: Option<seq<string>>, ts: seq<string>, max: nat) {
      all.None? || all.value == ts || (|ts| < |all.value| && ts == all.value[..|ts|] && Number(env, all.value[|ts|], max).None?)
    }

    /** A type id and a type parameter. */
    method ReadPair(line: string, from: nat, at: nat, ghost ts: seq<string>)
      returns (field: Option<FieldType>, next: nat, ghost two: seq<string>)
      requires Ready() && at < |line| && Collected(line, from, at, ts) && |ts| % 2 == 0
      modifies tokens.parseBuf
      ensures field.None? ==> TokensFrom(line, from).None? || Pairs(env, TokensFrom(line, from).value).None?
      ensures field.Some? ==> at < next <= |line| && Collected(line, from, next, two) && |two| == |ts| + 2 && two[..|ts|] == ts
      ensures field.Some? ==> Number(env, two[|ts|], U32_MAX) == Some(field.value.0)
      ensures field.Some? ==> Number(env, two[|ts| + 1], U64 - 1) == Some(field.value.1)
    {
      ghost var all := TokensFrom(line, from);
      CollectedStep(line, from, at, ts);
      var typid;
      typid, next, two := ReadNumber(line, from, at, U32_MAX, ts);
      if typid.None? {
        NoType(all, ts);
        return None, next, two;
      }
      ghost var one := two;
      var typparam;
      typparam, next, two := ReadNumber(line, from, next, U64 - 1, one);
      if typparam.None? {
        NoParam(all, ts, one);
        return None, next, two;
      }
      field := Some((typid.value, typparam.value));
    }

    lemma NoType(all: Option<seq<string>>, ts: seq<string>)
      requires NoNumber(all, ts, U32_MAX) && |ts| % 2 == 0 && (all.Some? ==> |all.value| > |ts|)
      ensures all.None? || Pairs(env, all.value).None?
    {
      if all.Some? {
        var one := all.value[..|ts| + 1];
        assert one == ts + [all.value[|ts|]];
        PairsBadType(env, ts, all.value[|ts|], all.value);
      }
    }

    lemma NoParam(all: Option<seq<string>>, ts: seq<string>, one: seq<string>)
      requires NoNumber(all, one, U64 - 1) && |ts| % 2 == 0 && |one| == |ts| + 1
      ensures all.None? || Pairs(env, all.value).None?
    {
      if all.Some? {
        if all.value == one {
          OddPairs(env, one);
        } else {
          var two := all.value[..|one| + 1];
          assert two[|two| - 1] == all.value[|one|];
          PairsPrefix(env, two, all.value);
        }
      }
    }

    /** The loop over the types of a table line. */
    method ReadTypes(line: string, from: nat) returns (r: Option<seq<FieldType>>)
      requires Ready() && from <= |line|
      modifies tokens.parseBuf
      ensures r == match TokensFrom(line, from) case None => None case Some(ts) => Pairs(env, ts)
      ensures r.Some? ==> TokensFrom(line, from).Some? && AllPairs(env, TokensFrom(line, from).value, r.value)
    {
      var startPos := from;
      var types: seq<FieldType> := [];
      ghost var ts: seq<string> := [];
      CollectedNone(line, from);
      while startPos != |line|
        invariant startPos <= |line| && |ts| == 2 * |types| && Collected(line, from, startPos, ts)
        invariant Pairs(env, ts) == Some(types)
        decreases |line| - startPos
      {
        var field;
        ghost var two;
        field, startPos, two := ReadPair(line, from, startPos, ts);
        if field.None? {
          return None;
        }
        assert two[..|two| - 2] == ts;
        types, ts := types + [field.value], two;
      }
      CollectedAll(line, from, startPos, ts);
      PairsExactly(env, ts, types);
      r := Some(types);
    }

    /** `next`. */
    method Next() returns (t: LineType)
      requires Ready()
      modifies this, tokens.parseBuf
      ensures Ready() && t == lastState
      ensures Final(old(lastState)) ==>
                t == old(lastState) && pos == old(pos) && lineno == old(lineno) && buf == old(buf)
      ensures !Final(old(lastState)) ==>
                var end := LineEnd(input, old(pos)); var line := input[old(pos)..end];
                && lineno == old(lineno) + 1 && pos == (if end < |input| then end + 1 else end)
                && (line == "" ==> t == if end == |input| then Eof else Error)
                && (line != "" ==> Understood(LineOf(env, old(schema), line), t, old(schema)))
    {
      if Final(lastState) {
        return lastState;
      }
      var end := LineEnd(input, pos);
      var line := input[pos..end];
      var atEof := end == |input|;
      pos := if atEof then end else end + 1;
      lineno := lineno + 1;
      if line == "" {
        lastState := if atEof then Eof else Error;
        return lastState;
      }
      lastState := TakeIn(line);
      t := lastState;
    }

    /** The part of `next` behind the end-of-file checks. */
    method TakeIn(line: string) returns (t: LineType)
      requires Ready()
      modifies this`tabid, this`schema, this`buf, tokens.parseBuf
      ensures Ready() && Understood(LineOf(env, old(schema), line), t, old(schema))
    {
      var word, startPos := tokens.FindNextToken(line, 0);
      t := Error;
      if word == Some("data") {
        var r := ReadData(line, startPos);
        if r.DataLine? {
          buf, t := r.rec, Data;
        } else if r.NoReturn? {
          t := Failed(r.failure);
        }
      } else if word == Some("table") {
        var number, from := tokens.FindNextToken(line, startPos);
        if number.Some? {
          var id := Number(env, number.value, U32_MAX);
          if id.Some? {
            tabid := id.value;
            var types := ReadTypes(line, from);
            if types.Some? {
              var failure := SchemaFailure(env, types.value);
              if failure.Some? {
                t := Failed(failure.value);
              } else {
                schema, t := types.value, Table;
              }
            }
          }
        }
      }
    }

    /** The reader has taken in a line: its kind is returned, and the new columns or the record are in place. */
    ghost predicate Understood(l: Line, t: LineType, before: seq<FieldType>)
      reads this
    {
      match l
      case BadLine => t == Error && schema == before
      case NoReturn(failure) => t == Failed(failure) && schema == before
      case DataLine(rec) => t == Data && buf == rec && schema == before
      case TableLine(id, types) => t == Table && tabid == id && schema == types
    }
  }

  // ---------------------------------------------------------------- lines that are written and read back

  /** The first of the joined tokens is read, and then the others. */
  lemma HeadReadsBack(s: string, i: nat, w: Written, ws: seq<Written>) returns (next: nat)
    requires i <= |s| && Rests(s, i, [w] + ws) && AllWritable([w] + ws)
    ensures i < |s| && next <= |s| && TokenAt(s, i) == Some((w.text, next))
    ensures Rests(s, next, ws) && AllWritable(ws) && TokensFrom(s, next) == Some(Texts(ws))
  {
    next := FirstReadsBack(s, i, [w] + ws);
    assert ([w] + ws)[1..] == ws;
    JoinedReadsBack(s, next, ws);
  }

  lemma DataWord(env: Env, schema: seq<FieldType>, line: string, at: nat, ts: seq<string>)
    requires at <= |line| && TokenAt(line, 0) == Some(("data", at)) && TokensFrom(line, at) == Some(ts)
    ensures LineOf(env, schema, line) == DataOf(env, schema, Some(ts))
  {
  }

  lemma TableWord(env: Env, schema: seq<FieldType>, line: string, at: nat, id: string, next: nat, ts: seq<string>)
    requires at <= |line| && TokenAt(line, 0) == Some(("table", at)) && TokenAt(line, at) == Some((id, next))
    requires next <= |line| && TokensFrom(line, next) == Some(ts)
    ensures LineOf(env, schema, line) == TableOf(env, id, Some(ts))
  {
  }

  /** A data line written from tokens is read as the row of those tokens. */
  lemma DataLineReadsBack(env: Env, schema: seq<FieldType>, ws: seq<Written>)
    requires AllWritable(ws)
    ensures LineOf(env, schema, JoinAll([Plain("data")] + ws)) == DataOf(env, schema, Some(Texts(ws)))
    ensures StoresRow(env, schema, Some(Texts(ws)), LineOf(env, schema, JoinAll([Plain("data")] + ws)))
  {
    DataExactly(env, schema, Some(Texts(ws)));
    assert ([Plain("data")] + ws)[1..] == ws;
    var line := JoinAll([Plain("data")] + ws);
    var at := HeadReadsBack(line, 0, Plain("data"), ws);
    DataWord(env, schema, line, at, Texts(ws));
  }

  /** A table line written from tokens is read as its table id and types. */
  lemma TableLineReadsBack(env: Env, schema: seq<FieldType>, id: Written, ws: seq<Written>)
    requires AllWritable([id] + ws)
    ensures LineOf(env, schema, JoinAll([Plain("table")] + ([id] + ws))) == TableOf(env, id.text, Some(Texts(ws)))
    ensures forall n: nat, ps {:trigger TableLine(n, ps)} ::
              LineOf(env, schema, JoinAll([Plain("table")] + ([id] + ws))) == TableLine(n, ps) <==>
              TableTaken(env, id.text, Texts(ws), n, ps)
  {
    TableExactly(env, id.text, Texts(ws));
    var rest := [id] + ws;
    assert ([Plain("table")] + rest)[1..] == rest;
    var line := JoinAll([Plain("table")] + rest);
    var at := HeadReadsBack(line, 0, Plain("table"), rest);
    var next := HeadReadsBack(line, at, id, ws);
    TableWord(env, schema, line, at, id.text, next, Texts(ws));
  }

  /** A data line in front of any table line. */
  lemma DataWithoutTable(env: Env, ws: seq<Written>)
    requires AllWritable(ws)
    ensures LineOf(env, [], JoinAll([Plain("data")] + ws)) == NoReturn(NullSchema)
  {
    DataLineReadsBack(env, [], ws);
  }

  /** A table line without columns, and one with a column of an unknown type. */
  lemma TableWithoutColumns(env: Env, schema: seq<FieldType>, id: Written, typ: Written, param: Written)
    requires AllWritable([id]) && AllWritable([id] + [typ, param]) && Number(env, id.text, U32_MAX).Some?
    requires Number(env, typ.text, U32_MAX).Some? && Number(env, param.text, U64 - 1).Some?
    ensures LineOf(env, schema, JoinAll([Plain("table")] + ([id] + []))) == NoReturn(NullSchema)
    ensures Number(env, typ.text, U32_MAX).value !in env.types ==>
              LineOf(env, schema, JoinAll([Plain("table")] + ([id] + [typ, param]))) == NoReturn(NullType)
  {
    assert [id] + [] == [id];
    TableLineReadsBack(env, schema, id, []);
    TableLineReadsBack(env, schema, id, [typ, param]);
    OnePair(env, typ.text, param.text);
    assert Texts([typ, param]) == [typ.text, param.text];
  }

  lemma OnePair(env: Env, typ: string, param: string)
    requires Number(env, typ, U32_MAX).Some? && Number(env, param, U64 - 1).Some?
    ensures var ps := [(Number(env, typ, U32_MAX).value, Number(env, param, U64 - 1).value)];
      && Pairs(env, [typ, param]) == Some(ps)
      && (ps[0].0 !in env.types ==> SchemaFailure(env, ps) == Some(NullType))
  {
    var ts := [typ, param];
    var p := (Number(env, typ, U32_MAX).value, Number(env, param, U64 - 1).value);
    assert ts[..0] == [] && Pairs(env, ts[..0]) == Some([]);
    assert Pairs(env, ts) == Some([] + [p]);
    assert [] + [p] == [p];
    if p.0 !in env.types {
      assert LayoutFailure(env, [p], 0) == None && FixedEnd(SchemaCols(env, [p]), 0) == 0;
      assert LayoutFailure(env, [p], 1) == Some(NullType);
    }
  }
}
