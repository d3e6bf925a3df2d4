/** Log records and snapshots written and read with the streams (`src/storage.rs`). */
module Records {
  import opened Bytes
  import opened Wrappers
  import opened Columns
  import opened Tables
  import opened Codec
  import opened Storage
  import opened Snapshot
  import opened Streams
  import Crc

  method WriteRecord(schemaOf: SchemaOf, rec: WalRecord) returns (r: Result<bytes>)
    ensures r == EncodeRecord(schemaOf, rec)
  {
    hide EncBytes, EncSchema, Le, EncRow;
    var w := new Writer();
    match rec
    case CreateTable(name, schema) =>
      w.U8(1);
      w.Bytes(name);
      w.Schema(schema);
      assert [] + [1] == [1];
      Assoc([1], EncBytes(name), EncSchema(schema));
      r := Ok(w.buf);
    case DropTable(name) =>
      w.U8(2);
      w.Bytes(name);
      assert [] + [2] == [2];
      r := Ok(w.buf);
    case Insert(table, rows) =>
      var found := schemaOf(table);
      if found.None? {
        return Err(UnknownTable);
      }
      var schema := found.value;
      w.U8(3);
      w.Bytes(table);
      w.U64(|rows|);
      ghost var head := w.buf;
      assert [] + [3] == [3];
      Assoc([3], EncBytes(table), Le(|rows|, 8));
      for i := 0 to |rows|
        invariant forall k :: 0 <= k < i ==> |rows[k]| == |schema.fields|
        invariant w.buf + EncAll(EncRow, rows[i..]) == head + EncAll(EncRow, rows)
      {
        if |rows[i]| != |schema.fields| {
          return Err(BadArity);
        }
        assert rows[i..][0] == rows[i] && rows[i..][1..] == rows[i + 1..];
        ghost var before := w.buf;
        WriteRow(w, rows[i]);
        Assoc(before, EncRow(rows[i]), EncAll(EncRow, rows[i + 1..]));
      }
      assert w.buf + EncAll(EncRow, []) == w.buf;
      Assoc([3], EncBytes(table) + Le(|rows|, 8), EncAll(EncRow, rows));
      Assoc(EncBytes(table), Le(|rows|, 8), EncAll(EncRow, rows));
      r := Ok(w.buf);
  }

  method WriteRow(w: Writer, row: Row)
    modifies w
    ensures w.buf == old(w.buf) + EncRow(row)
  {
    hide EncValue;
    for j := 0 to |row|
      invariant w.buf + EncAll(EncValue, row[j..]) == old(w.buf) + EncRow(row)
    {
      assert row[j..][0] == row[j] && row[j..][1..] == row[j + 1..];
      ghost var before := w.buf;
      w.Value(row[j]);
      assert before + (EncValue(row[j]) + EncAll(EncValue, row[j + 1..])) == w.buf + EncAll(EncValue, row[j + 1..]);
    }
    assert w.buf + EncAll(EncValue, []) == w.buf;
  }

  method ReadRecord(schemaOf: SchemaOf, payload: bytes) returns (r: Result<WalRecord>)
    ensures r == DecodeRecord(schemaOf, payload)
  {
    hide U8At, StrAt, SchemaAt, U64At, RowAt;
    var rd := new Reader(payload);
    var tag :- rd.U8();
    match tag
    case 1 =>
      var name :- rd.Str();
      var schema :- rd.Schema();
      r := Ok(CreateTable(name, schema));
    case 2 =>
      var name :- rd.Str();
      r := Ok(DropTable(name));
    case 3 =>
      var table :- rd.Str();
      var schema := schemaOf(table);
      if schema.None? {
        return Err(UnknownTable);
      }
      var n :- rd.U64();
      var types := schema.value.Types();
      var rows: seq<Row> := [];
      ghost var all := ManyAt(RowParser(types), payload, rd.pos, n, []);
      for i := 0 to n
        invariant rd.data == payload
        invariant ManyAt(RowParser(types), payload, rd.pos, n - i, rows) == all
      {
        assert RowParser(types)(payload, rd.pos) == RowAt(types, payload, rd.pos);
        var row :- rd.Row(types);
        rows := rows + [row];
      }
      r := Ok(WalRecord.Insert(table, rows));
    case _ => r := Err(UnknownRecord);
  }

  method WriteTable(w: Writer, t: Table)
    modifies w
    ensures w.buf == old(w.buf) + EncTable(t)
  {
    hide EncBytes, EncSchema, Le, EncColumn;
    w.Bytes(t.name);
    w.Schema(t.schema);
    w.U64(t.nrows);
    ghost var head := old(w.buf) + EncBytes(t.name) + EncSchema(t.schema) + Le(t.nrows, 8);
    for i := 0 to |t.columns|
      invariant w.buf + EncAll(EncColumn, t.columns[i..]) == head + EncAll(EncColumn, t.columns)
    {
      assert t.columns[i..][0] == t.columns[i] && t.columns[i..][1..] == t.columns[i + 1..];
      ghost var before, rest := w.buf, EncAll(EncColumn, t.columns[i + 1..]);
      w.Column(t.columns[i]);
      assert before + (EncColumn(t.columns[i]) + rest) == w.buf + rest;
    }
    assert w.buf + EncAll(EncColumn, []) == w.buf;
    assert head + EncAll(EncColumn, t.columns) == old(w.buf) + EncTable(t);
  }

  method WriteSnapshot(tables: seq<Table>, lsn: nat) returns (raw: bytes)
    ensures raw == EncodeSnapshot(tables, lsn)
  {
    hide Le, EncTable, Crc.Crc32;
    var w := new Writer();
    w.buf := SNAPSHOT_MAGIC;
    VersionBytes();
    w.U32(1);
    w.U64(lsn);
    w.U64(|tables|);
    ghost var head := (SNAPSHOT_MAGIC + VERSION) + (Le(lsn, 8) + Le(|tables|, 8));
    for i := 0 to |tables|
      invariant w.buf + EncAll(EncTable, tables[i..]) == head + EncAll(EncTable, tables)
    {
      assert tables[i..][0] == tables[i] && tables[i..][1..] == tables[i + 1..];
      ghost var before, rest := w.buf, EncAll(EncTable, tables[i + 1..]);
      WriteTable(w, tables[i]);
      assert before + (EncTable(tables[i]) + rest) == w.buf + rest;
    }
    assert w.buf + EncAll(EncTable, []) == w.buf;
    assert w.buf == SnapshotBody(tables, lsn);
    var crc := Crc.ComputeCrc32(w.buf);
    w.U32(crc);
    raw := w.buf;
  }

  lemma VersionBytes()
    ensures Le(1, 4) == VERSION
  {
    assert Le(0, 3) == [0, 0, 0];
  }

  method ReadTable(rd: Reader) returns (r: Result<Table>)
    modifies rd
    ensures r == TableAt(rd.data, old(rd.pos)).Outcome() && rd.pos == TableAt(rd.data, old(rd.pos)).pos
  {
    hide StrAt, SchemaAt, U64At, ColumnAt, FromColumns;
    var name :- rd.Str();
    var schema :- rd.Schema();
    var nrows :- rd.U64();
    var columns: seq<Column> := [];
    var types := schema.Types();
    ghost var all := EachAt(ColumnAt, types, rd.data, rd.pos, []);
    for i := 0 to |types|
      invariant EachAt(ColumnAt, types[i..], rd.data, rd.pos, columns) == all
    {
      assert types[i..][0] == types[i] && types[i..][1..] == types[i + 1..];
      var c :- rd.Column(types[i]);
      columns := columns + [c];
    }
    var t :- FromColumns(name, schema, columns);
    r := if t.nrows != nrows then Err(BadRowCount) else Ok(t);
  }

  method ReadSnapshot(raw: bytes) returns (r: Result<(seq<Table>, u64)>)
    ensures r == DecodeSnapshot(raw)
  {
    hide TakeAt, U32At, U64At, TableAt, Crc.Crc32, UnLe;
    if |raw| < 28 || raw[..8] != SNAPSHOT_MAGIC {
      return Err(BadMagic);
    }
    var body := raw[..|raw| - 4];
    var crc := Crc.ComputeCrc32(body);
    if crc != UnLe(raw[|raw| - 4..]) {
      return Err(BadChecksum);
    }
    var rd := new Reader(body);
    var _ :- rd.Take(8);
    var version :- rd.U32();
    if version != 1 {
      return Err(BadVersion);
    }
    var lsn :- rd.U64();
    var n :- rd.U64();
    var tables: seq<Table> := [];
    ghost var all := ManyAt(TableAt, body, rd.pos, n, []);
    for i := 0 to n
      invariant rd.data == body
      invariant ManyAt(TableAt, body, rd.pos, n - i, tables) == all
    {
      var t :- ReadTable(rd);
      tables := tables + [t];
    }
    r := Ok((tables, lsn));
  }
}
