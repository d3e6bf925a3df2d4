/**
 Where recovery stops being exact, and exactly where, beside the numbering (module Behind).

 1. Batches. A batch refused in the middle stays in memory up to there and is not logged.
 2. Doubles. An integer accepted for a DOUBLE column is logged as an integer and read back as
    the double with the same bits.
 */
module Limits {
  import opened Bytes
  import opened Wrappers
  import opened Columns
  import opened Tables
  import opened Codec
  import opened Storage
  import opened Engine
  import opened Recovery
  import opened Behind
  import opened Twins

  // --- batches --------------------------------------------------------------------------------------

  // After a refused batch the next open sees what is in memory exactly when the batch was refused
  // at its first row.
  lemma RefusedBatch(env: Env, n: Node, name: Text, rows: seq<Row>)
    requires Good(env, n)
    requires env.key(name) in n.tables && RoomForRows(env, n.tables[env.key(name)], rows)
    requires Performed(env, n.tables, WalRecord.Insert(name, rows)).1.Refused?
    ensures var m := After(env, n, Execute(WalRecord.Insert(name, rows)));
      && Open(env, AsWritten, m.disk).Ok? && Open(env, AsWritten, m.disk).value.tables == n.tables
      && (Open(env, AsWritten, m.disk).value.tables == m.tables <==>
            AcceptedPrefix(n.tables[env.key(name)].schema, rows) == 0)
  {
    hide Stores, Open, WithRows, Accepted, RoomForRows;
    var base, lsn, rs :| Sound(env, n, base, lsn, rs) && n.next > lsn;
    SoundCatalog(env, n, base, lsn, rs);
    var k := env.key(name);
    var t := n.tables[k];
    var m := After(env, n, Execute(WalRecord.Insert(name, rows)));
    assert m.disk == n.disk;
    var o := OpenStoresWhole(env, AsWritten, n.disk, base, lsn, rs, n.tables);
    RefusedBatchUnchanged(env, t, rows);
    RefusedAtFirst(env, t, rows);
    assert m.tables[k] == WithRows(env, t, rows).0;
    assert n.tables[k := t] == n.tables;
  }

  lemma RefusedAtFirst(env: Env, t: Table, rows: seq<Row>)
    requires WithRows(env, t, rows).1.Some?
    ensures rows != [] && (AcceptedPrefix(t.schema, rows) == 0 <==> !Accepted(t.schema, rows[0]))
  {
    hide Accepted, WithRow;
  }

  // The smallest such batch: a row that is accepted and one that is not. The first row is in memory,
  // nothing is on disk, and the next open does not see it.
  lemma HalfBatch(env: Env) returns (n: Node, m: Node)
    ensures OneColumn(DataType.I64).Valid()
    ensures var t := NewTable(NAME, OneColumn(DataType.I64)).value;
      var batch := WalRecord.Insert(NAME, [[Value.I64(7)], [Value.Str(NAME)]]);
      && n == After(env, FirstNode(), Execute(CreateTable(NAME, OneColumn(DataType.I64))))
      && m == After(env, n, Execute(batch)) && Performed(env, n.tables, batch).1.Refused?
      && env.key(NAME) in m.tables && m.tables[env.key(NAME)].columns == [Column.I64([7])]
      && Open(env, AsWritten, m.disk).Ok? && Open(env, AsWritten, m.disk).value.tables == map[env.key(NAME) := t]
      && t.columns == [Column.I64([])]
  {
    hide Open, Good, LogWrites;
    n := AfterCreate(env, DataType.I64);
    var rows := [[Value.I64(7)], [Value.Str(NAME)]];
    m := After(env, n, Execute(WalRecord.Insert(NAME, rows)));
    var t := NewTable(NAME, OneColumn(DataType.I64)).value;
    HalfTable(env, t);
    RefusedBatch(env, n, NAME, rows);
  }

  lemma HalfTable(env: Env, t: Table)
    requires OneColumn(DataType.I64).Valid() && t == NewTable(NAME, OneColumn(DataType.I64)).value
    ensures var rows := [[Value.I64(7)], [Value.Str(NAME)]];
      && WithRows(env, t, rows).0.columns == [Column.I64([7])] && WithRows(env, t, rows).1.Some?
      && RoomForRows(env, t, rows) && t.columns == [Column.I64([])] && Accepted(t.schema, rows[0])
  {
    var rows := [[Value.I64(7)], [Value.Str(NAME)]];
    assert t.schema.fields[0].ty == DataType.I64;
    assert Accepted(t.schema, rows[0]);
    assert !Accepts(t.schema.fields[0].ty, rows[1][0]);
    PushFromAll(env, t.columns, rows[0], 0);
    var (u, _) := WithRow(env, t, rows[0]);
    assert u.columns == [u.columns[0]] && u.columns[0].ns == [] + [7] == [7];
    assert rows[1..][0] == rows[1];
    assert WithRow(env, u, rows[1]) == (u, Some(BadType));
    assert WithRows(env, u, rows[1..]) == (u, Some(BadType));
    assert WithRows(env, t, rows) == (u, Some(BadType));
  }

  // --- doubles --------------------------------------------------------------------------------------

  // The bits that a value leaves in a DOUBLE column.
  function DoubleBits(env: Env, v: Value): u64
    requires Accepts(DataType.F64, v)
  {
    if v.I64? then env.widen(v.i) else v.f
  }

  function DoublesOf(env: Env, rows: seq<Row>, j: nat): seq<u64>
    requires forall i :: 0 <= i < |rows| ==> j < |rows[i]| && Accepts(DataType.F64, rows[i][j])
  {
    seq(|rows|, i requires 0 <= i < |rows| => DoubleBits(env, rows[i][j]))
  }

  lemma OneDouble(env: Env, t: Table, row: Row, j: nat)
    requires t.schema.Valid() && t.Aligned() && j < |t.columns| && t.columns[j].F64? && Accepted(t.schema, row)
    ensures j < |row| && Accepts(DataType.F64, row[j])
    ensures var u := WithRow(env, t, row).0;
      |u.columns| == |t.columns| && u.columns[j] == Column.F64(t.columns[j].fs + [DoubleBits(env, row[j])])
  {
    PushFromAll(env, t.columns, row, 0);
  }

  lemma {:induction false} DoubleColumnAfter(env: Env, t: Table, rows: seq<Row>, j: nat)
    requires t.schema.Valid() && t.Aligned() && j < |t.columns| && t.columns[j].F64?
    requires forall i :: 0 <= i < |rows| ==> Accepted(t.schema, rows[i])
    ensures forall i :: 0 <= i < |rows| ==> j < |rows[i]| && Accepts(DataType.F64, rows[i][j])
    ensures var u := WithRows(env, t, rows).0;
      |u.columns| == |t.columns| && u.columns[j] == Column.F64(t.columns[j].fs + DoublesOf(env, rows, j))
    decreases |rows|
  {
    forall i | 0 <= i < |rows|
      ensures j < |rows[i]| && Accepts(DataType.F64, rows[i][j])
    {
      assert Accepted(t.schema, rows[i]);
    }
    if rows != [] {
      WithRowAllOrNothing(env, t, rows[0]);
      OneDouble(env, t, rows[0], j);
      var t1 := WithRow(env, t, rows[0]).0;
      hide WithRow, Accepts, Schema.Valid, Table.Aligned;
      DoubleColumnAfter(env, t1, rows[1..], j);
      assert DoublesOf(env, rows, j) == [DoubleBits(env, rows[0][j])] + DoublesOf(env, rows[1..], j);
    }
  }

  // Rows read back from the log lead to the table that the rows written led to exactly when the
  // integers among them that went into DOUBLE columns have the bits of the doubles they became.
  lemma RereadIffSameBits(env: Env, t: Table, rows: seq<Row>)
    requires t.schema.Valid() && t.Aligned()
    requires forall i :: 0 <= i < |rows| ==> Accepted(t.schema, rows[i]) && |rows[i]| == |t.schema.fields|
    ensures WithRows(env, t, RereadRows(t.schema.Types(), rows)) == WithRows(env, t, rows)
       <==> SameBits(env, t.schema, rows)
  {
    var types := t.schema.Types();
    var again := RereadRows(types, rows);
    if SameBits(env, t.schema, rows) {
      WithRowsReread(env, t, rows);
    } else {
      var i, j :| 0 <= i < |rows| && 0 <= j < |rows[i]| && j < |t.schema.fields|
        && t.schema.fields[j].ty.F64? && rows[i][j].I64? && env.widen(rows[i][j].i) != AsU64(rows[i][j].i);
      RereadAccepted(t.schema, rows);
      DoubleColumnAfter(env, t, rows, j);
      DoubleColumnAfter(env, t, again, j);
      assert DoublesOf(env, again, j)[i] == AsU64(rows[i][j].i);
      assert DoublesOf(env, rows, j)[i] == env.widen(rows[i][j].i);
      if WithRows(env, t, again).0 == WithRows(env, t, rows).0 {
        AppendInjective(t.columns[j].fs, DoublesOf(env, again, j), DoublesOf(env, rows, j));
        assert false;
      }
    }
  }

  lemma AppendInjective<T>(a: seq<T>, b: seq<T>, c: seq<T>)
    requires a + b == a + c
    ensures b == c
  {
    assert (a + b)[|a|..] == b && (a + c)[|a|..] == c;
  }

  lemma RereadTaken(env: Env, t: Table, rows: seq<Row>)
    requires t.schema.Valid() && t.Aligned()
    requires forall i :: 0 <= i < |rows| ==> Accepted(t.schema, rows[i]) && |rows[i]| == |t.schema.fields|
    ensures WithRows(env, t, rows).1.None? && WithRows(env, t, RereadRows(t.schema.Types(), rows)).1.None?
  {
    hide Accepted, WithRows;
    RereadAccepted(t.schema, rows);
    BatchTaken(env, t, rows);
    BatchTaken(env, t, RereadRows(t.schema.Types(), rows));
  }

  // One command is done to memory and disk alike if and only if it is no batch that is refused behind
  // its first row, and none that is accepted with an integer that a DOUBLE column changes the bits of.
  lemma RedoneIff(env: Env, ts: Catalog, cmd: WalRecord)
    requires CatalogValid(env, ts) && Sized(env, ts, cmd)
    ensures Redone(env, ts, cmd) == Performed(env, ts, cmd).0 <==>
      (cmd.Insert? && env.key(cmd.table) in ts ==>
         var schema := ts[env.key(cmd.table)].schema;
         if AcceptedPrefix(schema, cmd.rows) == |cmd.rows| then SameBits(env, schema, cmd.rows)
         else AcceptedPrefix(schema, cmd.rows) == 0)
  {
    if cmd.Insert? && env.key(cmd.table) in ts {
      var k, rows := env.key(cmd.table), cmd.rows;
      var t := ts[k];
      hide RoomForRows, WithRows, Accepted, SameBits, EncodeRecord;
      WithRowsAppends(env, t, rows);
      if AcceptedPrefix(t.schema, rows) == |rows| {
        InsertRedone(env, ts, cmd);
        RereadIffSameBits(env, t, rows);
        RereadTaken(env, t, rows);
        PutSame(ts, k, WithRows(env, t, RereadRows(t.schema.Types(), rows)).0, WithRows(env, t, rows).0);
      } else {
        RefusedBatchUnchanged(env, t, rows);
        RefusedAtFirst(env, t, rows);
        PutSame(ts, k, t, WithRows(env, t, rows).0);
      }
    }
  }

  lemma PutSame<K, V>(m: map<K, V>, k: K, v: V, w: V)
    requires k in m
    ensures m[k := v] == m[k := w] <==> v == w
    ensures m[k := m[k]] == m
  {
    assert m[k := v][k] == v && m[k := w][k] == w;
  }

  lemma InsertRedone(env: Env, ts: Catalog, cmd: WalRecord)
    requires cmd.Insert? && env.key(cmd.table) in ts && CatalogValid(env, ts) && Sized(env, ts, cmd)
    requires AcceptedPrefix(ts[env.key(cmd.table)].schema, cmd.rows) == |cmd.rows|
    ensures var k := env.key(cmd.table);
      var t := ts[k];
      && Performed(env, ts, cmd) == (ts[k := WithRows(env, t, cmd.rows).0], Logged)
      && (forall i :: 0 <= i < |cmd.rows| ==> |cmd.rows[i]| == |t.schema.fields|)
      && Redone(env, ts, cmd) == ts[k := WithRows(env, t, RereadRows(t.schema.Types(), cmd.rows)).0]
  {
    hide RoomForRows, WithRows, Accepts, EncodeRecord;
    WithRowsAppends(env, ts[env.key(cmd.table)], cmd.rows);
  }

  // What the next open makes of one command: it finds it redone.
  lemma OneRedone(env: Env, n: Node, cmd: WalRecord)
    requires Good(env, n) && n.next < TWO64 && Sized(env, n.tables, cmd)
    ensures CatalogValid(env, n.tables)
    ensures var m := After(env, n, Execute(cmd));
      Open(env, AsWritten, m.disk).Ok? && Open(env, AsWritten, m.disk).value.tables == Redone(env, n.tables, cmd)
  {
    hide Stores, Open, Performed, Sized, Redone, EncodeRecord, Frame, Twinned;
    var base, lsn, rs :| Sound(env, n, base, lsn, rs) && n.next > lsn;
    SoundCatalog(env, n, base, lsn, rs);
    SoundTwin(env, n, base, lsn, rs);
    ExecuteTwins(env, n, n.tables, base, lsn, rs, cmd);
    var m := After(env, n, Execute(cmd));
    WholeFinds(env, AsWritten, m, Redone(env, n.tables, cmd));
  }

  // What the next open makes of an acknowledged insertion: the rows as they were read back.
  lemma InsertedDoubles(env: Env, n: Node, name: Text, rows: seq<Row>)
    requires Good(env, n) && n.next < TWO64
    requires env.key(name) in n.tables
    requires Sized(env, n.tables, WalRecord.Insert(name, rows))
    requires Performed(env, n.tables, WalRecord.Insert(name, rows)).1.Logged?
    ensures var m, t := After(env, n, Execute(WalRecord.Insert(name, rows))), n.tables[env.key(name)];
      && Open(env, AsWritten, m.disk).Ok?
      && (forall i :: 0 <= i < |rows| ==> |rows[i]| == |t.schema.fields|)
      && Open(env, AsWritten, m.disk).value.tables
         == n.tables[env.key(name) := WithRows(env, t, RereadRows(t.schema.Types(), rows)).0]
      && (Open(env, AsWritten, m.disk).value.tables == m.tables <==> SameBits(env, t.schema, rows))
  {
    hide Good, Open, SameBits, Redone, EncodeRecord, RoomForRows, WithRows, Accepted;
    var cmd := WalRecord.Insert(name, rows);
    OneRedone(env, n, cmd);
    WithRowsAppends(env, n.tables[env.key(name)], rows);
    InsertRedone(env, n.tables, cmd);
    RedoneIff(env, n.tables, cmd);
  }

  const ONE: seq<Row> := [[Value.I64(1)]]

  lemma InsertOne(env: Env, ts: Catalog)
    requires OneColumn(DataType.F64).Valid() && env.key(NAME) in ts
    requires ts[env.key(NAME)] == NewTable(NAME, OneColumn(DataType.F64)).value
    ensures Sized(env, ts, WalRecord.Insert(NAME, ONE)) && Performed(env, ts, WalRecord.Insert(NAME, ONE)).1.Logged?
  {
    var t := ts[env.key(NAME)];
    assert ONE[1..] == [] && ONE[0] == [Value.I64(1)];
    assert Accepted(t.schema, ONE[0]);
    assert EncAll(EncRow, ONE) == EncRow(ONE[0]) + EncAll(EncRow, ONE[1..]);
    assert EncRow(ONE[0]) == EncValue(ONE[0][0]) + EncAll(EncValue, ONE[0][1..]);
    WithRowAllOrNothing(env, t, ONE[0]);
    var (u, e) := WithRow(env, t, ONE[0]);
    assert WithRows(env, u, []) == (u, None);
  }

  lemma OneInMemory(env: Env, t: Table)
    requires OneColumn(DataType.F64).Valid() && t == NewTable(NAME, OneColumn(DataType.F64)).value
    ensures WithRows(env, t, ONE).0.columns == [Column.F64([env.widen(1)])]
    ensures RereadRows(t.schema.Types(), ONE) == [[Value.F64(1)]]
    ensures WithRows(env, t, [[Value.F64(1)]]).0.columns == [Column.F64([1])]
  {
    var again := [[Value.F64(1)]];
    assert Accepted(t.schema, ONE[0]) && Accepted(t.schema, again[0]);
    assert t.columns == [Column.F64([])];
    DoubleColumnAfter(env, t, ONE, 0);
    DoubleColumnAfter(env, t, again, 0);
    assert [] + DoublesOf(env, ONE, 0) == [env.widen(1)] && [] + DoublesOf(env, again, 0) == [1];
    var u, v := WithRows(env, t, ONE).0, WithRows(env, t, again).0;
    assert u.columns == [u.columns[0]] && v.columns == [v.columns[0]];
    assert RereadRows(t.schema.Types(), ONE)[0] == [Value.F64(1)];
  }

  // The integer 1 inserted into a DOUBLE column: the table holds 1.0 in memory, and the smallest
  // double above zero, 5e-324, after a restart.
  lemma OneIsNotOne(env: Env) returns (n: Node, m: Node)
    requires env.widen(1) == 0x3FF0_0000_0000_0000
    ensures n == After(env, FirstNode(), Execute(CreateTable(NAME, OneColumn(DataType.F64))))
    ensures m == After(env, n, Execute(WalRecord.Insert(NAME, ONE)))
    ensures Performed(env, n.tables, WalRecord.Insert(NAME, ONE)).1.Logged?
    ensures env.key(NAME) in m.tables && m.tables[env.key(NAME)].columns == [Column.F64([0x3FF0_0000_0000_0000])]
    ensures Open(env, AsWritten, m.disk).Ok? && env.key(NAME) in Open(env, AsWritten, m.disk).value.tables
    ensures Open(env, AsWritten, m.disk).value.tables[env.key(NAME)].columns == [Column.F64([1])]
  {
    hide Open, Good, LogWrites, Sized, SameBits, WithRows;
    n := AfterCreate(env, DataType.F64);
    m := After(env, n, Execute(WalRecord.Insert(NAME, ONE)));
    InsertOne(env, n.tables);
    OneInMemory(env, n.tables[env.key(NAME)]);
    InsertedDoubles(env, n, NAME, ONE);
  }
}
