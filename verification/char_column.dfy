/**
 `CHAR` columns: the values that `CHAR_in` makes are those that the layout has room for (src/catalog/Schema.cpp:136-141,
 src/utils/typsupp/char.cpp:18-103).
 */
module CharColumn {
  import opened Base
  import opened Codec
  import opened Layout
  import opened Schemas
  import opened CharOrder

  /** A type like `CHAR`: of fixed length, by reference, with a length function. */
  predicate CharType(t: TypeInfo) {
    !t.isVarlen && t.hasLenFunc && t.byref
  }

  /** A field of such a type takes the strings of its parameter's length, and no others. They are stored as they are. */
  lemma CharTyped(t: TypeInfo, n: nat, f: Field, v: Str)
    requires CharType(t) && StoredAs(t, n, f)
    ensures Typed(f, Ref(v)) <==> |v| == n
    ensures Stored(f, Ref(v)) == Ref(v) && DataLen(f, Ref(v)) == n
  {
  }

  lemma CharRowFor(cols: seq<Col>, row: Row, id: nat, t: TypeInfo, n: nat, v: Str)
    requires RowFor(cols, row) && id < |cols| && CharType(t) && StoredAs(t, n, FieldOf(cols, id)) && |v| == n
    ensures RowFor(cols, row[id := Ref(v)]) && StoredIn(cols, row[id := Ref(v)])[id] == Ref(v)
  {
    CharTyped(t, n, FieldOf(cols, id), v);
    forall i | 0 <= i < |cols|
      ensures Typed(FieldOf(cols, i), row[id := Ref(v)][i]) && (row[id := Ref(v)][i].Null? ==> cols[i].nullable)
    {
      assert i != id ==> Typed(FieldOf(cols, i), row[i]);
    }
  }

  /** The row has room for a value of the column. */
  ghost predicate RoomFor(cols: seq<Col>, row: Row, id: nat, n: nat)
    requires LayoutOf(cols).Some? && id < |row| == |cols|
  {
    forall v: Str {:trigger row[id := Ref(v)]} :: |v| == n ==> LengthOf(cols, row[id := Ref(v)]) <= I16_MAX
  }

  /**
   A string put into a `CHAR` column next to any other values is accepted exactly if it fits without its trailing
   blanks; the row is written, and the column gives the string back without them.
   */
  method CharThroughRecord(s: Schema, types: Types, id: nat, str: Str, row: Row)
    returns (v: Option<Str>, outcome: WriteOutcome, back: Str)
    requires s.Ready() && AllStoredAs(types, s.field[..]) && Usable(s.cols)
    requires id < s.field.Length && CharType(types[s.field[id].typid]) && RowFor(s.cols, row)
    requires RoomFor(s.cols, row, id, s.field[id].typparam)
    ensures v.Some? <==> |Trim(str)| <= s.field[id].typparam
    ensures v.Some? ==> outcome.Length? && back == Trim(str)
  {
    outcome, back := MinusOne, [];
    ghost var cols, n := s.cols, s.field[id].typparam;
    v := CharIn(str, s.field[id].typparam);
    if v.Some? {
      var full := row[id := Ref(v.value)];
      assert FieldsIn(s.field[..])[id] == FieldOf(cols, id);
      CharRowFor(cols, row, id, types[s.field[id].typid], n, v.value);
      var read;
      outcome, read := WriteAndDissemble(s, full);
      back := CharToVarchar(read[id].bytes, 0);
    }
  }
}
