/** Schemas and append-only tables (`src/table.rs`). */
module Tables {
  import opened Bytes
  import opened Wrappers
  import opened Columns

  datatype Field = Field(name: Text, ty: DataType)

  // ASCII lower case, byte by byte: `eq_ignore_ascii_case` compares these.
  function FoldByte(b: byte): byte {
    if 65 <= b <= 90 then b + 32 else b
  }

  predicate SameName(a: bytes, b: bytes) {
    |a| == |b| && forall i :: 0 <= i < |a| ==> FoldByte(a[i]) == FoldByte(b[i])
  }

  datatype Schema = Schema(fields: seq<Field>) {
    // The four refusals of `Schema::validate`.
    predicate Valid() {
      && |fields| > 0
      && forall i :: 0 <= i < |fields| ==>
           && fields[i].name != []
           && fields[i].ty != DataType.Vector(0)
           && forall j :: 0 <= j < i ==> !SameName(fields[j].name, fields[i].name)
    }

    function Types(): (ts: seq<DataType>)
      ensures |ts| == |fields|
    {
      seq(|fields|, i requires 0 <= i < |fields| => fields[i].ty)
    }

    function IndexFrom(name: Text, i: nat): Option<nat>
      requires i <= |fields|
      decreases |fields| - i
    {
      if i == |fields| then None
      else if SameName(fields[i].name, name) then Some(i)
      else IndexFrom(name, i + 1)
    }

    function IndexOf(name: Text): Option<nat> {
      IndexFrom(name, 0)
    }
  }

  type Row = seq<Value>

  datatype Table = Table(name: Text, schema: Schema, columns: seq<Column>, nrows: nat) {
    // Column by column: the type of its field, and one entry per row.
    predicate Aligned() {
      && |columns| == |schema.fields|
      && forall i :: 0 <= i < |columns| ==>
           && columns[i].Type() == schema.fields[i].ty
           && columns[i].Len() == nrows
    }

    predicate Valid() {
      && schema.Valid()
      && Aligned()
      && |columns| < TWO64
      && forall i :: 0 <= i < |columns| ==> columns[i].Valid()
    }

    function RowAt(k: nat): Row
      requires Valid() && k < nrows
    {
      seq(|columns|, i requires 0 <= i < |columns| => columns[i].Get(k))
    }

    // What the table means: its rows in insertion order.
    function Rows(): (rs: seq<Row>)
      requires Valid()
      ensures |rs| == nrows
    {
      seq(nrows, k requires 0 <= k < nrows => RowAt(k))
    }
  }

  function NewTable(name: Text, schema: Schema): Result<Table> {
    if !schema.Valid() then Err(BadSchema)
    else Ok(Table(name, schema,
                  seq(|schema.fields|, i requires 0 <= i < |schema.fields| => Column.Empty(schema.fields[i].ty)), 0))
  }

  lemma NewTableIsEmpty(name: Text, schema: Schema)
    requires schema.Valid() && |schema.fields| < TWO64
    ensures var t := NewTable(name, schema).value; t.Valid() && t.Rows() == []
  {
  }

  // `Table::from_columns`, the way back from a snapshot.
  function FromColumns(name: Text, schema: Schema, columns: seq<Column>): Result<Table> {
    if !schema.Valid() then Err(BadSchema)
    else if |columns| != |schema.fields| then Err(BadColumns)
    else
      var n := columns[0].Len();
      if exists i :: 0 <= i < |columns| && columns[i].Type() != schema.fields[i].ty then Err(BadColumns)
      else if n < 0 || exists i :: 0 <= i < |columns| && columns[i].Len() != n then Err(BadColumns)
      else Ok(Table(name, schema, columns, n))
  }

  lemma FromColumnsRestores(t: Table)
    requires t.Valid()
    ensures FromColumns(t.name, t.schema, t.columns) == Ok(t)
  {
  }

  // --- insertion ------------------------------------------------------------------------------

  predicate Accepted(schema: Schema, row: Row) {
    && |row| == |schema.fields|
    && forall i :: 0 <= i < |row| ==> Accepts(schema.fields[i].ty, row[i])
  }

  // The push loop: one column after the other, giving up at the first failure.
  function PushFrom(env: Env, columns: seq<Column>, row: Row, i: nat): (seq<Column>, Option<Error>)
    requires |columns| == |row| && i <= |row|
    decreases |row| - i
  {
    if i == |row| then (columns, None)
    else
      match columns[i].Push(env, row[i])
      case Ok(c) => PushFrom(env, columns[i := c], row, i + 1)
      case Err(e) => (columns, Some(e))
  }

  function WithRow(env: Env, t: Table, row: Row): (Table, Option<Error>) {
    if |row| != |t.columns| || |t.columns| != |t.schema.fields| then (t, Some(BadArity))
    else if !Accepted(t.schema, row) then (t, Some(BadType))
    else
      var (columns, e) := PushFrom(env, t.columns, row, 0);
      if e.Some? then (t.(columns := columns), e)
      else (t.(columns := columns, nrows := t.nrows + 1), None)
  }

  function WithRows(env: Env, t: Table, rows: seq<Row>): (Table, Option<Error>)
    decreases |rows|
  {
    if rows == [] then (t, None)
    else
      var (t1, e) := WithRow(env, t, rows[0]);
      if e.Some? then (t1, e) else WithRows(env, t1, rows[1..])
  }

  predicate RoomForRow(t: Table, row: Row) {
    |row| == |t.columns| ==> forall i :: 0 <= i < |row| ==> Room(t.columns[i], row[i])
  }

  // Every table the batch passes through stays within the size limits.
  predicate RoomForRows(env: Env, t: Table, rows: seq<Row>)
    decreases |rows|
  {
    rows == [] ||
    (&& (Accepted(t.schema, rows[0]) ==> RoomForRow(t, rows[0]))
     && var (t1, e) := WithRow(env, t, rows[0]);
        e.None? ==> RoomForRows(env, t1, rows[1..]))
  }

  function WidenedRow(env: Env, schema: Schema, row: Row): Row
    requires |row| == |schema.fields|
  {
    seq(|row|, i requires 0 <= i < |row| => Widened(env, schema.fields[i].ty, row[i]))
  }

  // The pre-check makes every push succeed.
  lemma {:induction false} PushFromAll(env: Env, columns: seq<Column>, row: Row, i: nat)
    requires |columns| == |row| && i <= |row|
    requires forall k :: i <= k < |row| ==> Accepts(columns[k].Type(), row[k])
    ensures var (cs, e) := PushFrom(env, columns, row, i);
      && e.None? && |cs| == |columns|
      && (forall k :: 0 <= k < i ==> cs[k] == columns[k])
      && (forall k :: i <= k < |row| ==> columns[k].Push(env, row[k]) == Ok(cs[k]))
    decreases |row| - i
  {
    if i < |row| {
      assert columns[i].Push(env, row[i]).Ok?;
      PushFromAll(env, columns[i := columns[i].Push(env, row[i]).value], row, i + 1);
    }
  }

  lemma PushLen(env: Env, c: Column, v: Value)
    requires Accepts(c.Type(), v) && c.Type() != DataType.Vector(0)
    ensures c.Push(env, v).Ok?
    ensures c.Push(env, v).value.Type() == c.Type() && c.Push(env, v).value.Len() == c.Len() + 1
  {
    if c.Vector? {
      DividePlusOne(|c.data|, c.dim);
    }
  }

  // A row is added to every column or to none, exactly when the pre-check accepts it.
  lemma WithRowAllOrNothing(env: Env, t: Table, row: Row)
    requires t.schema.Valid() && t.Aligned()
    ensures var (t', e) := WithRow(env, t, row);
      && (e.None? <==> Accepted(t.schema, row))
      && (e.Some? ==> t' == t)
      && t'.Aligned() && t'.schema == t.schema
  {
    if Accepted(t.schema, row) {
      PushFromAll(env, t.columns, row, 0);
      var (t', e) := WithRow(env, t, row);
      forall i | 0 <= i < |row|
        ensures t'.columns[i].Type() == t.columns[i].Type()
        ensures t'.columns[i].Len() == t.columns[i].Len() + 1
      {
        PushLen(env, t.columns[i], row[i]);
      }
    }
  }

  // What an accepted row does to each column.
  lemma WithRowColumns(env: Env, t: Table, row: Row)
    requires t.Valid() && Accepted(t.schema, row) && RoomForRow(t, row)
    ensures var (t', e) := WithRow(env, t, row);
      && e.None? && t' == t.(columns := t'.columns, nrows := t.nrows + 1)
      && |t'.columns| == |row|
      && forall i :: 0 <= i < |row| ==>
           && t'.columns[i].Valid() && t'.columns[i].Type() == t.columns[i].Type()
           && t'.columns[i].Len() == t.nrows + 1
           && (forall k :: 0 <= k < t.nrows ==> t'.columns[i].Get(k) == t.columns[i].Get(k))
           && t'.columns[i].Get(t.nrows) == Widened(env, t.schema.fields[i].ty, row[i])
  {
    PushFromAll(env, t.columns, row, 0);
    forall i | 0 <= i < |row| {
      PushAppends(env, t.columns[i], row[i]);
    }
  }

  // What it does to the rows of the table.
  lemma WithRowAppends(env: Env, t: Table, row: Row)
    requires t.Valid() && Accepted(t.schema, row) && RoomForRow(t, row)
    ensures var (t', e) := WithRow(env, t, row);
      && e.None? && t'.Valid() && t'.name == t.name && t'.schema == t.schema
      && t'.Rows() == t.Rows() + [WidenedRow(env, t.schema, row)]
  {
    hide Column.Valid, Column.Get, Column.Len, Column.Type, Widened, WithRow, Accepts, Room;
    WithRowColumns(env, t, row);
    var t' := WithRow(env, t, row).0;
    assert t'.Valid();
    forall k | 0 <= k < t'.nrows
      ensures t'.RowAt(k) == if k < t.nrows then t.RowAt(k) else WidenedRow(env, t.schema, row)
    {
    }
  }

  // How many rows of a batch go in before one is refused.
  function AcceptedPrefix(schema: Schema, rows: seq<Row>): (n: nat)
    ensures n <= |rows|
    ensures forall i :: 0 <= i < n ==> Accepted(schema, rows[i])
    ensures n < |rows| ==> !Accepted(schema, rows[n])
    decreases |rows|
  {
    if rows == [] || !Accepted(schema, rows[0]) then 0
    else 1 + AcceptedPrefix(schema, rows[1..])
  }

  function WidenedRows(env: Env, schema: Schema, rows: seq<Row>): seq<Row>
    requires forall i :: 0 <= i < |rows| ==> |rows[i]| == |schema.fields|
  {
    seq(|rows|, i requires 0 <= i < |rows| => WidenedRow(env, schema, rows[i]))
  }

  // A batch appends its rows in order up to the first refused one; it fails when there is one,
  // and what went in before stays.
  lemma {:induction false} WithRowsAppends(env: Env, t: Table, rows: seq<Row>)
    requires t.Valid() && RoomForRows(env, t, rows)
    ensures var (t', e) := WithRows(env, t, rows);
      var n := AcceptedPrefix(t.schema, rows);
      && (e.None? <==> n == |rows|)
      && t'.Valid() && t'.name == t.name && t'.schema == t.schema
      && t'.Rows() == t.Rows() + WidenedRows(env, t.schema, rows[..n])
    decreases |rows|
  {
    if rows != [] {
      WithRowAllOrNothing(env, t, rows[0]);
      if Accepted(t.schema, rows[0]) {
        WithRowAppends(env, t, rows[0]);
        WithRowsAppends(env, WithRow(env, t, rows[0]).0, rows[1..]);
        var n := AcceptedPrefix(t.schema, rows);
        var w := WidenedRow(env, t.schema, rows[0]);
        assert WidenedRows(env, t.schema, rows[..n])
            == [w] + WidenedRows(env, t.schema, rows[1..][..n - 1]);
      }
    }
  }

  // A refused batch leaves the table as it was exactly when its first row is the refused one.
  lemma {:induction false} RefusedBatchUnchanged(env: Env, t: Table, rows: seq<Row>)
    requires t.Valid() && RoomForRows(env, t, rows)
    requires WithRows(env, t, rows).1.Some?
    ensures WithRows(env, t, rows).0 == t <==> !Accepted(t.schema, rows[0])
  {
    WithRowsAppends(env, t, rows);
    WithRowAllOrNothing(env, t, rows[0]);
    if Accepted(t.schema, rows[0]) {
      assert |WithRows(env, t, rows).0.Rows()| > |t.Rows()|;
    }
  }

  // --- the table in its lock -----------------------------------------------------------------------

  class TableCell {
    var t: Table

    constructor (table: Table)
      ensures t == table
    {
      t := table;
    }

    method Insert(env: Env, row: Row) returns (e: Option<Error>)
      modifies this
      ensures (t, e) == WithRow(env, old(t), row)
    {
      if |row| != |t.columns| || |t.columns| != |t.schema.fields| {
        return Some(BadArity);
      }
      for i := 0 to |row|
        invariant t == old(t)
        invariant forall k :: 0 <= k < i ==> Accepts(t.schema.fields[k].ty, row[k])
      {
        var want := t.schema.fields[i].ty;
        if !Accepts(want, row[i]) {
          return Some(BadType);
        }
      }
      for i := 0 to |row|
        invariant |t.columns| == |row|
        invariant t == old(t).(columns := t.columns)
        invariant PushFrom(env, t.columns, row, i) == PushFrom(env, old(t).columns, row, 0)
      {
        var r := t.columns[i].Push(env, row[i]);
        if r.Err? {
          return Some(r.error);
        }
        t := t.(columns := t.columns[i := r.value]);
      }
      t := t.(nrows := t.nrows + 1);
      e := None;
    }

    method InsertMany(env: Env, rows: seq<Row>) returns (e: Option<Error>)
      modifies this
      ensures (t, e) == WithRows(env, old(t), rows)
    {
      for i := 0 to |rows|
        invariant WithRows(env, t, rows[i..]) == WithRows(env, old(t), rows)
      {
        assert rows[i..][0] == rows[i] && rows[i..][1..] == rows[i + 1..];
        e := Insert(env, rows[i]);
        if e.Some? {
          return e;
        }
      }
      e := None;
    }
  }
}
