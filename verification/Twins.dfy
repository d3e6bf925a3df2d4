/**
 What is in memory and what the next open sees (`src/db.rs`, `src/storage.rs`), over runs in which the
 two differ: a batch refused in the middle stays in memory up to there and is not logged, and an
 integer accepted for a DOUBLE column is logged as an integer.
 */
module Twins {
  import opened Bytes
  import opened Wrappers
  import opened Columns
  import opened Tables
  import opened Codec
  import opened Storage
  import opened Snapshot
  import opened Engine
  import opened Recovery

  // --- sizes ------------------------------------------------------------------------------------------

  // A column of the same type with no more in it.
  predicate Under(u: Column, c: Column) {
    match (u, c)
    case (I64(v), I64(w)) => |v| <= |w|
    case (F64(v), F64(w)) => |v| <= |w|
    case (Bool(v), Bool(w)) => |v| <= |w|
    case (Str(s), Str(t)) => |s.offsets| <= |t.offsets| && |s.buf| <= |t.buf|
    case (Vector(d, v), Vector(e, w)) => d == e && |v| <= |w|
    case _ => false
  }

  predicate TableUnder(u: Table, t: Table) {
    && u.schema == t.schema && |u.columns| == |t.columns|
    && forall i :: 0 <= i < |t.columns| ==> Under(u.columns[i], t.columns[i])
  }

  lemma PushUnder(env: Env, u: Column, c: Column, v: Value)
    requires Under(u, c) && Accepts(c.Type(), v)
    ensures u.Type() == c.Type() && Accepts(u.Type(), Reread(c.Type(), v))
    ensures c.Push(env, v).Ok? && u.Push(env, Reread(c.Type(), v)).Ok?
    ensures Under(u, c.Push(env, v).value) && Under(u.Push(env, Reread(c.Type(), v)).value, c.Push(env, v).value)
    ensures Room(c, v) ==> Room(u, Reread(c.Type(), v))
  {
  }

  lemma RowUnder(env: Env, u: Table, t: Table, row: Row)
    requires u.Aligned() && t.Aligned() && TableUnder(u, t) && Accepted(t.schema, row)
    ensures var again := RereadRow(t.schema.Types(), row);
      && Accepted(u.schema, again) && (RoomForRow(t, row) ==> RoomForRow(u, again))
      && TableUnder(u, WithRow(env, t, row).0)
      && TableUnder(WithRow(env, u, again).0, WithRow(env, t, row).0)
  {
    hide Column.Push, Under, Reread, Room, Accepts;
    var again := RereadRow(t.schema.Types(), row);
    forall i | 0 <= i < |row|
      ensures Accepts(t.columns[i].Type(), row[i]) && Accepts(u.columns[i].Type(), again[i])
      ensures t.columns[i].Push(env, row[i]).Ok? && u.columns[i].Push(env, again[i]).Ok?
      ensures Under(u.columns[i], t.columns[i].Push(env, row[i]).value)
      ensures Under(u.columns[i].Push(env, again[i]).value, t.columns[i].Push(env, row[i]).value)
      ensures Room(t.columns[i], row[i]) ==> Room(u.columns[i], again[i])
    {
      PushUnder(env, u.columns[i], t.columns[i], row[i]);
    }
    PushFromAll(env, t.columns, row, 0);
    PushFromAll(env, u.columns, again, 0);
  }

  // A batch that is accepted, read back, goes into the smaller table too.
  lemma {:induction false} BatchUnder(env: Env, u: Table, t: Table, rows: seq<Row>)
    requires t.schema.Valid() && u.Aligned() && t.Aligned() && TableUnder(u, t)
    requires forall i :: 0 <= i < |rows| ==> Accepted(t.schema, rows[i]) && |rows[i]| == |t.schema.fields|
    requires RoomForRows(env, t, rows)
    ensures var again := RereadRows(t.schema.Types(), rows);
      RoomForRows(env, u, again) && TableUnder(WithRows(env, u, again).0, WithRows(env, t, rows).0)
    decreases |rows|
  {
    hide Accepted, RereadRow, RoomForRow, WithRow, Under, Schema.Valid, Table.Aligned;
    if rows != [] {
      var types := t.schema.Types();
      var again := RereadRows(types, rows);
      WithRowAllOrNothing(env, t, rows[0]);
      RowUnder(env, u, t, rows[0]);
      WithRowAllOrNothing(env, u, again[0]);
      BatchUnder(env, WithRow(env, u, again[0]).0, WithRow(env, t, rows[0]).0, rows[1..]);
      assert again[1..] == RereadRows(types, rows[1..]);
    }
  }

  // What a refused batch leaves behind only adds to the table.
  lemma {:induction false} PartUnder(env: Env, u: Table, t: Table, rows: seq<Row>)
    requires t.schema.Valid() && u.Aligned() && t.Aligned() && TableUnder(u, t)
    ensures TableUnder(u, WithRows(env, t, rows).0)
    decreases |rows|
  {
    hide Accepted, WithRow, Under, Schema.Valid, Table.Aligned;
    if rows != [] {
      WithRowAllOrNothing(env, t, rows[0]);
      if Accepted(t.schema, rows[0]) {
        RowUnder(env, u, t, rows[0]);
        PartUnder(env, u, WithRow(env, t, rows[0]).0, rows[1..]);
      } else {
        assert WithRows(env, t, rows) == WithRow(env, t, rows[0]);
      }
    }
  }

  lemma {:induction false} BatchTaken(env: Env, t: Table, rows: seq<Row>)
    requires t.schema.Valid() && t.Aligned()
    ensures WithRows(env, t, rows).1.None? <==> AcceptedPrefix(t.schema, rows) == |rows|
    decreases |rows|
  {
    hide Accepted, WithRow, Schema.Valid, Table.Aligned;
    if rows != [] {
      WithRowAllOrNothing(env, t, rows[0]);
      if Accepted(t.schema, rows[0]) {
        BatchTaken(env, WithRow(env, t, rows[0]).0, rows[1..]);
      } else {
        assert WithRows(env, t, rows) == WithRow(env, t, rows[0]);
      }
    }
  }

  // --- one command ------------------------------------------------------------------------------------

  // What the log keeps of a command: one that is acknowledged is done again as it is read back, and
  // of any other nothing is left.
  function Redone(env: Env, ts: Catalog, cmd: WalRecord): Catalog {
    if Performed(env, ts, cmd).1.Logged? && Loggable(SchemaIn(env, ts), cmd)
    then Applied(env, ts, RereadRecord(SchemaIn(env, ts), cmd)).0
    else ts
  }

  // The same tables, of which `disk` holds no more than `memory`.
  predicate Twinned(env: Env, memory: Catalog, disk: Catalog) {
    && CatalogValid(env, memory) && CatalogValid(env, disk) && memory.Keys == disk.Keys
    && forall k :: k in memory ==> TableUnder(disk[k], memory[k])
  }

  lemma TwinnedSelf(env: Env, ts: Catalog)
    requires CatalogValid(env, ts)
    ensures Twinned(env, ts, ts)
  {
  }

  // The record of an acknowledged command, read back on the disk's tables.
  ghost predicate Logs(env: Env, memory: Catalog, disk: Catalog, cmd: WalRecord) {
    var payload := EncodeRecord(SchemaIn(env, memory), cmd);
    && payload.Ok? && |payload.value| < TWO32
    && EncodeRecord(SchemaIn(env, Performed(env, memory, cmd).0), cmd) == payload
    && DecodeRecord(SchemaIn(env, disk), payload.value).Ok?
    && Applied(env, disk, DecodeRecord(SchemaIn(env, disk), payload.value).value) == (Redone(env, disk, cmd), None)
  }

  ghost predicate CommandTwins(env: Env, memory: Catalog, disk: Catalog, cmd: WalRecord) {
    && Twinned(env, Performed(env, memory, cmd).0, Redone(env, disk, cmd))
    && (Performed(env, memory, cmd).1.Logged? ==> Logs(env, memory, disk, cmd))
    && (!Performed(env, memory, cmd).1.Logged? ==> Redone(env, disk, cmd) == disk)
  }

  // A record is encoded alike where its table has the same schema.
  lemma EncodesAlike(a: SchemaOf, b: SchemaOf, cmd: WalRecord)
    requires cmd.Insert? ==> a(cmd.table) == b(cmd.table)
    ensures EncodeRecord(a, cmd) == EncodeRecord(b, cmd)
  {
    hide EncBytes, EncSchema, EncAll;
  }

  // A record reads back on the disk's tables, and is carried out without an error.
  lemma LogsIt(env: Env, memory: Catalog, disk: Catalog, cmd: WalRecord)
    requires Sized(env, memory, cmd) && Loggable(SchemaIn(env, disk), cmd) && Performed(env, disk, cmd).1.Logged?
    requires cmd.Insert? ==> SchemaIn(env, memory)(cmd.table) == SchemaIn(env, disk)(cmd.table)
    requires cmd.Insert? ==>
      SchemaIn(env, Performed(env, memory, cmd).0)(cmd.table) == SchemaIn(env, disk)(cmd.table)
    requires Applied(env, disk, RereadRecord(SchemaIn(env, disk), cmd)).1.None?
    ensures Logs(env, memory, disk, cmd)
  {
    EncodesAlike(SchemaIn(env, memory), SchemaIn(env, disk), cmd);
    EncodesAlike(SchemaIn(env, Performed(env, memory, cmd).0), SchemaIn(env, disk), cmd);
    hide EncodeRecord, DecodeRecord, Loggable, RereadRecord, Applied, Performed, SchemaIn;
    RecordBack(SchemaIn(env, disk), cmd);
  }

  lemma TwinOf(env: Env, memory: Catalog, disk: Catalog, k: Text)
    requires Twinned(env, memory, disk)
    ensures k in memory <==> k in disk
    ensures k in memory ==>
      var t, u := memory[k], disk[k];
      && t.Valid() && u.Valid() && env.key(t.name) == k && env.key(u.name) == k
      && TableUnder(u, t) && u.schema == t.schema
  {
    hide Table.Valid;
  }

  // One table more, or another in its place, on either side.
  lemma PutBoth(env: Env, memory: Catalog, disk: Catalog, k: Text, t: Table, u: Table)
    requires Twinned(env, memory, disk) && t.Valid() && u.Valid() && TableUnder(u, t)
    requires env.key(t.name) == k && env.key(u.name) == k
    ensures Twinned(env, memory[k := t], disk[k := u])
  {
    hide Table.Valid, TableUnder;
  }

  lemma CreateTwins(env: Env, memory: Catalog, disk: Catalog, cmd: WalRecord)
    requires cmd.CreateTable? && Twinned(env, memory, disk) && Sized(env, memory, cmd)
    ensures CommandTwins(env, memory, disk, cmd)
  {
    hide EncodeRecord, DecodeRecord, TableUnder, Logs, Table.Valid, NewTable, Twinned;
    TwinOf(env, memory, disk, env.key(cmd.name));
    if Performed(env, memory, cmd).1.Logged? {
      var t := NewIsTwin(cmd.name, cmd.schema);
      PutBoth(env, memory, disk, env.key(cmd.name), t, t);
      LogsIt(env, memory, disk, cmd);
    }
  }

  lemma NewIsTwin(name: Text, schema: Schema) returns (t: Table)
    requires NewTable(name, schema).Ok? && |schema.fields| < TWO64
    ensures t == NewTable(name, schema).value && t.name == name && t.Valid() && TableUnder(t, t)
  {
    t := NewTable(name, schema).value;
    NewTableIsEmpty(name, schema);
  }

  lemma TakeTwins(env: Env, memory: Catalog, disk: Catalog, k: Text)
    requires Twinned(env, memory, disk)
    ensures Twinned(env, memory - {k}, disk - {k})
  {
    hide Table.Valid, TableUnder;
  }

  lemma DropTwins(env: Env, memory: Catalog, disk: Catalog, cmd: WalRecord)
    requires cmd.DropTable? && Twinned(env, memory, disk) && Sized(env, memory, cmd)
    ensures CommandTwins(env, memory, disk, cmd)
  {
    hide EncodeRecord, DecodeRecord, TableUnder, Table.Valid, Logs, Twinned;
    TwinOf(env, memory, disk, env.key(cmd.name));
    if Performed(env, memory, cmd).1.Logged? {
      TakeTwins(env, memory, disk, env.key(cmd.name));
      LogsIt(env, memory, disk, cmd);
    }
  }

  lemma InsertTwins(env: Env, memory: Catalog, disk: Catalog, cmd: WalRecord)
    requires cmd.Insert? && Twinned(env, memory, disk) && Sized(env, memory, cmd)
    ensures CommandTwins(env, memory, disk, cmd)
  {
    var k, rows := env.key(cmd.table), cmd.rows;
    TwinOf(env, memory, disk, k);
    hide EncodeRecord, DecodeRecord, RoomForRows, WithRows, Accepted, Logs, TableUnder, Table.Valid, Twinned;
    if k in memory {
      if WithRows(env, memory[k], rows).1.None? {
        TakenTwins(env, memory, disk, cmd);
      } else {
        RefusedTwins(env, memory, disk, cmd);
      }
    }
  }

  // A refused batch: what went in before is in memory only.
  lemma RefusedTwins(env: Env, memory: Catalog, disk: Catalog, cmd: WalRecord)
    requires cmd.Insert? && Twinned(env, memory, disk) && Sized(env, memory, cmd)
    requires env.key(cmd.table) in memory && WithRows(env, memory[env.key(cmd.table)], cmd.rows).1.Some?
    ensures CommandTwins(env, memory, disk, cmd)
  {
    var k, rows := env.key(cmd.table), cmd.rows;
    TwinOf(env, memory, disk, k);
    var t, u := memory[k], disk[k];
    assert RoomForRows(env, t, rows);
    assert u.Aligned() && t.Aligned() && t.schema.Valid();
    hide EncodeRecord, DecodeRecord, RoomForRows, WithRows, Accepted, Logs, TableUnder, Sized, Table.Valid, Twinned,
         Schema.Valid, Table.Aligned, CatalogValid;
    WithRowsAppends(env, t, rows);
    BatchTaken(env, t, rows);
    BatchTaken(env, u, rows);
    PartUnder(env, u, t, rows);
    PutMemory(env, memory, disk, k, WithRows(env, t, rows).0);
  }

  lemma PutMemory(env: Env, memory: Catalog, disk: Catalog, k: Text, t: Table)
    requires Twinned(env, memory, disk) && k in memory && t.Valid() && env.key(t.name) == k && TableUnder(disk[k], t)
    ensures Twinned(env, memory[k := t], disk)
  {
    hide Table.Valid, TableUnder;
  }

  // The tables after a batch that is taken in full, as it was given and as it is read back.
  lemma TakenTables(env: Env, u: Table, t: Table, rows: seq<Row>) returns (again: seq<Row>)
    requires u.Valid() && t.Valid() && TableUnder(u, t) && RoomForRows(env, t, rows)
    requires WithRows(env, t, rows).1.None?
    ensures forall i :: 0 <= i < |rows| ==> Accepted(t.schema, rows[i]) && |rows[i]| == |t.schema.fields|
    ensures again == RereadRows(t.schema.Types(), rows)
    ensures WithRows(env, u, rows).1.None? && WithRows(env, u, again).1.None?
    ensures var (t', u') := (WithRows(env, t, rows).0, WithRows(env, u, again).0);
      && t'.Valid() && t'.name == t.name && t'.schema == t.schema && TableUnder(u', t')
      && u'.Valid() && u'.name == u.name && u'.schema == t.schema
  {
    hide RoomForRows, WithRows, Accepts, Schema.Valid, Under, Column.Valid;
    WithRowsAppends(env, t, rows);
    again := RereadRows(t.schema.Types(), rows);
    BatchTaken(env, u, rows);
    BatchUnder(env, u, t, rows);
    RereadAccepted(t.schema, rows);
    WithRowsAppends(env, u, again);
  }

  lemma TakenTwins(env: Env, memory: Catalog, disk: Catalog, cmd: WalRecord)
    requires cmd.Insert? && Twinned(env, memory, disk) && Sized(env, memory, cmd)
    requires env.key(cmd.table) in memory && WithRows(env, memory[env.key(cmd.table)], cmd.rows).1.None?
    ensures CommandTwins(env, memory, disk, cmd)
  {
    var k, rows := env.key(cmd.table), cmd.rows;
    TwinOf(env, memory, disk, k);
    var t, u := memory[k], disk[k];
    assert |rows| < TWO64 && RoomForRows(env, t, rows);
    hide EncodeRecord, DecodeRecord, RoomForRows, WithRows, Accepted, Logs, TableUnder, Sized, Table.Valid, Twinned;
    var again := TakenTables(env, u, t, rows);
    PutBoth(env, memory, disk, k, WithRows(env, t, rows).0, WithRows(env, u, again).0);
    LogsIt(env, memory, disk, cmd);
  }

  lemma RereadAccepted(schema: Schema, rows: seq<Row>)
    requires forall i :: 0 <= i < |rows| ==> Accepted(schema, rows[i]) && |rows[i]| == |schema.fields|
    ensures forall i :: 0 <= i < |rows| ==> Accepted(schema, RereadRows(schema.Types(), rows)[i])
  {
  }

  // Memory and disk take a command alike: it is acknowledged by both or by neither, and its record
  // does on the disk's tables what it was read back as.
  lemma TwinsTake(env: Env, memory: Catalog, disk: Catalog, cmd: WalRecord)
    requires Twinned(env, memory, disk) && Sized(env, memory, cmd)
    ensures CommandTwins(env, memory, disk, cmd)
  {
    match cmd
    case CreateTable(_, _) => CreateTwins(env, memory, disk, cmd);
    case DropTable(_) => DropTwins(env, memory, disk, cmd);
    case Insert(_, _) => InsertTwins(env, memory, disk, cmd);
  }

  // --- one event --------------------------------------------------------------------------------------

  // Sizes fit. Nothing is asked of the rows of a command.
  predicate ActionSized(env: Env, n: Node, a: Action) {
    && n.next < TWO64
    && match a
       case Execute(cmd) => Sized(env, n.tables, cmd)
       case Snap(order) => Enumerates(env, order, n.tables)
  }

  ghost predicate PossibleSized(env: Env, n: Node, ev: Event) {
    && ActionSized(env, n, ev.a)
    && (ev.Crashed? ==> CrashState(n.disk, Writes(env, n, ev.a), ev.left) && !PartialHeader(ev.left.wal))
  }

  // A running node: its disk stores the tables `disk`, a twin of those in memory.
  predicate HoldsTwin(env: Env, n: Node, disk: Catalog, base: Catalog, lsn: nat, rs: seq<RawRecord>) {
    && Stores(env, n.disk, base, lsn, rs, disk) && n.next >= NextLsn(rs) && Twinned(env, n.tables, disk)
  }

  // What is in memory, and what the next open would find.
  datatype Twin = Twin(memory: Catalog, disk: Catalog)

  // How an event moves the two: a command is done in memory and redone on disk, a snapshot brings the
  // disk up to the memory, and after a crash the memory is what the disk was.
  function Followed(env: Env, n: Node, ev: Event, t: Twin): Twin {
    match ev
    case Done(Execute(cmd)) => Twin(Performed(env, t.memory, cmd).0, Redone(env, t.disk, cmd))
    case Done(Snap(_)) => Twin(t.memory, t.memory)
    case Crashed(Execute(cmd), left) =>
      var found := if Survives(env, n, Execute(cmd), left) then Redone(env, t.disk, cmd) else t.disk;
      Twin(found, found)
    case Crashed(Snap(_), left) =>
      var found := if left == n.disk then t.disk else t.memory;
      Twin(found, found)
  }

  lemma ExecuteTwins(env: Env, n: Node, disk: Catalog, base: Catalog, lsn: nat, rs: seq<RawRecord>, cmd: WalRecord)
    requires HoldsTwin(env, n, disk, base, lsn, rs) && n.next > lsn && ActionSized(env, n, Execute(cmd))
    ensures var m := After(env, n, Execute(cmd));
      if Performed(env, n.tables, cmd).1.Logged? then
        && EncodeRecord(SchemaIn(env, n.tables), cmd).Ok?
        && var r := RecordOf(env, n, cmd);
        && Framable(r) && Writes(env, n, Execute(cmd)) == [Append(Frame(r))]
        && m.disk == Written(n.disk, Append(Frame(r)))
        && HoldsTwin(env, m, Redone(env, disk, cmd), base, lsn, rs + [r]) && m.next > lsn
      else
        && Writes(env, n, Execute(cmd)) == [] && m.disk == n.disk && m.next == n.next && Redone(env, disk, cmd) == disk
        && HoldsTwin(env, m, disk, base, lsn, rs)
  {
    hide Frames, Frame, Header, Base, Replay, EncodeRecord, DecodeRecord, Performed, Applied, Sized, CatalogValid,
         Redone, TableUnder;
    TwinsTake(env, n.tables, disk, cmd);
    if Performed(env, n.tables, cmd).1.Logged? {
      var r := RecordOf(env, n, cmd);
      ReplayOne(env, disk, r, lsn);
      AppendStores(env, n.disk, base, lsn, rs, disk, r, Redone(env, disk, cmd));
    }
  }

  lemma CrashTwinsInExecute(env: Env, numbering: Numbering, n: Node, disk: Catalog, base: Catalog, lsn: nat,
                            rs: seq<RawRecord>, cmd: WalRecord, left: Disk)
    returns (m: Node, rs': seq<RawRecord>)
    requires HoldsTwin(env, n, disk, base, lsn, rs) && n.next > lsn && ActionSized(env, n, Execute(cmd))
    requires CrashState(n.disk, Writes(env, n, Execute(cmd)), left)
    ensures Open(env, numbering, left) == Ok(m) && HoldsTwin(env, m, m.tables, base, lsn, rs')
    ensures m.tables == if Survives(env, n, Execute(cmd), left) then Redone(env, disk, cmd) else disk
    ensures numbering.Raised? ==> m.next > lsn
  {
    hide Stores, Performed, Sized, Open, Frame, EncodeRecord, CrashState, Redone, Twinned, Writes;
    ExecuteTwins(env, n, disk, base, lsn, rs, cmd);
    if Writes(env, n, Execute(cmd)) == [] {
      NothingWritten(n.disk, left);
      m := OpenStoresWhole(env, numbering, n.disk, base, lsn, rs, disk);
      rs' := rs;
    } else {
      m, rs' := CrashInAppend(env, numbering, n.disk, base, lsn, rs, disk, RecordOf(env, n, cmd),
                              Redone(env, disk, cmd), left);
    }
    SoundTwin(env, m, base, lsn, rs');
  }

  lemma SoundTwin(env: Env, m: Node, base: Catalog, lsn: nat, rs: seq<RawRecord>)
    requires Sound(env, m, base, lsn, rs)
    ensures HoldsTwin(env, m, m.tables, base, lsn, rs)
  {
    TwinnedSelf(env, m.tables);
  }

  lemma TwinLogs(env: Env, n: Node, disk: Catalog, base: Catalog, lsn: nat, rs: seq<RawRecord>)
    requires HoldsTwin(env, n, disk, base, lsn, rs)
    ensures LogHolds(env, n, rs)
  {
  }

  // A snapshot writes what is in memory.
  lemma SnapTwins(env: Env, n: Node, disk: Catalog, base: Catalog, lsn: nat, rs: seq<RawRecord>, order: seq<Table>)
    requires HoldsTwin(env, n, disk, base, lsn, rs) && ActionSized(env, n, Snap(order))
    ensures n.next >= 1 && HoldsTwin(env, After(env, n, Snap(order)), n.tables, n.tables, n.next - 1, [])
  {
    hide Stores, Enumerates, EncodeSnapshot, Header, CatalogValid;
    TwinLogs(env, n, disk, base, lsn, rs);
    SnapStores(env, n, rs, order);
    SnapWrites(n.disk, EncodeSnapshot(order, n.next - 1));
    SoundTwin(env, After(env, n, Snap(order)), n.tables, n.next - 1, []);
  }

  lemma CrashTwinsInSnap(env: Env, numbering: Numbering, n: Node, disk: Catalog, base: Catalog, lsn: nat,
                         rs: seq<RawRecord>, order: seq<Table>, left: Disk)
    returns (m: Node, base': Catalog, lsn': nat, rs': seq<RawRecord>)
    requires HoldsTwin(env, n, disk, base, lsn, rs) && n.next > lsn && ActionSized(env, n, Snap(order))
    requires CrashState(n.disk, Writes(env, n, Snap(order)), left) && !PartialHeader(left.wal)
    ensures Open(env, numbering, left) == Ok(m) && HoldsTwin(env, m, m.tables, base', lsn', rs')
    ensures m.tables == if left == n.disk then disk else n.tables
    ensures numbering.Raised? ==> m.next > lsn'
  {
    hide Stores, Enumerates, Open, EncodeSnapshot, CrashState, PartialHeader, Twinned;
    TwinLogs(env, n, disk, base, lsn, rs);
    SnapStores(env, n, rs, order);
    m, base', lsn', rs' := CrashInReplace(env, numbering, n.disk, base, lsn, rs, disk,
                                          EncodeSnapshot(order, n.next - 1), n.tables, n.next - 1, left);
    SoundTwin(env, m, base', lsn', rs');
  }

  // --- runs -------------------------------------------------------------------------------------------

  ghost predicate WholeTwin(env: Env, n: Node, disk: Catalog) {
    exists base, lsn, rs :: HoldsTwin(env, n, disk, base, lsn, rs)
  }

  ghost predicate GoodTwin(env: Env, n: Node, disk: Catalog) {
    exists base, lsn, rs :: HoldsTwin(env, n, disk, base, lsn, rs) && n.next > lsn
  }

  // The next open finds exactly these tables.
  predicate Finds(env: Env, numbering: Numbering, n: Node, disk: Catalog) {
    Open(env, numbering, n.disk).Ok? && Open(env, numbering, n.disk).value.tables == disk
  }

  lemma WholeFinds(env: Env, numbering: Numbering, n: Node, disk: Catalog)
    requires WholeTwin(env, n, disk)
    ensures Finds(env, numbering, n, disk)
  {
    hide Stores, Open;
    var base, lsn, rs :| HoldsTwin(env, n, disk, base, lsn, rs);
    var m := OpenStoresWhole(env, numbering, n.disk, base, lsn, rs, disk);
  }

  lemma TwinAhead(env: Env, n: Node, disk: Catalog, base: Catalog, lsn: nat, rs: seq<RawRecord>)
    requires HoldsTwin(env, n, disk, base, lsn, rs)
    ensures Ahead(env, n) <==> n.next > lsn
  {
  }

  lemma StepTwins(env: Env, numbering: Numbering, n: Node, ev: Event, disk: Catalog)
    requires GoodTwin(env, n, disk) && PossibleSized(env, n, ev)
    ensures Step(env, numbering, n, ev).Ok?
    ensures var m, t := Step(env, numbering, n, ev).value, Followed(env, n, ev, Twin(n.tables, disk));
      && m.tables == t.memory && WholeTwin(env, m, t.disk)
      && (numbering.Raised? || Ahead(env, m) || ev.Done? ==> GoodTwin(env, m, t.disk))
  {
    hide HoldsTwin, Performed, Open, Writes, ActionSized, CrashState, PartialHeader, Redone, Survives;
    var base, lsn, rs :| HoldsTwin(env, n, disk, base, lsn, rs) && n.next > lsn;
    match ev
    case Done(Execute(cmd)) => ExecuteTwins(env, n, disk, base, lsn, rs, cmd);
    case Done(Snap(order)) => SnapTwins(env, n, disk, base, lsn, rs, order);
    case Crashed(Execute(cmd), left) =>
      var m, rs' := CrashTwinsInExecute(env, numbering, n, disk, base, lsn, rs, cmd, left);
      TwinAhead(env, m, m.tables, base, lsn, rs');
    case Crashed(Snap(order), left) =>
      var m, base', lsn', rs' := CrashTwinsInSnap(env, numbering, n, disk, base, lsn, rs, order, left);
      TwinAhead(env, m, m.tables, base', lsn', rs');
  }

  // Sizes fit at every event, and the numbering is ahead wherever something follows an open.
  ghost predicate SizedRun(env: Env, numbering: Numbering, n: Node, evs: seq<Event>)
    decreases |evs|
  {
    evs == [] ||
    (&& PossibleSized(env, n, evs[0])
     && var m := Step(env, numbering, n, evs[0]);
        m.Ok? ==>
          && (numbering.AsWritten? && |evs| > 1 ==> Ahead(env, m.value))
          && SizedRun(env, numbering, m.value, evs[1..]))
  }

  function AllFollowed(env: Env, numbering: Numbering, n: Node, evs: seq<Event>, t: Twin): Twin
    decreases |evs|
  {
    if evs == [] then t
    else
      match Step(env, numbering, n, evs[0])
      case Ok(m) => AllFollowed(env, numbering, m, evs[1..], Followed(env, n, evs[0], t))
      case Err(_) => t
  }

  lemma {:induction false} RunTwins(env: Env, numbering: Numbering, n: Node, evs: seq<Event>, disk: Catalog)
    requires WholeTwin(env, n, disk) && (evs != [] ==> GoodTwin(env, n, disk)) && SizedRun(env, numbering, n, evs)
    ensures Run(env, numbering, n, evs).Ok?
    ensures var m := Run(env, numbering, n, evs).value;
      var t := AllFollowed(env, numbering, n, evs, Twin(n.tables, disk));
      m.tables == t.memory && WholeTwin(env, m, t.disk)
    decreases |evs|
  {
    hide PossibleSized, Step, Followed, WholeTwin, GoodTwin, Ahead;
    if evs != [] {
      StepTwins(env, numbering, n, evs[0], disk);
      var m := Step(env, numbering, n, evs[0]).value;
      var t := Followed(env, n, evs[0], Twin(n.tables, disk));
      assert t == Twin(m.tables, t.disk);
      RunTwins(env, numbering, m, evs[1..], t.disk);
    }
  }

  // From a new directory, through any run with crashes and restarts, whatever rows the commands bring:
  // the memory holds what every command did to it, and the next open finds the last snapshot with the
  // acknowledged commands behind it redone as they are read back.
  lemma TwinsAreExact(env: Env, numbering: Numbering, evs: seq<Event>)
    requires SizedRun(env, numbering, FirstNode(), evs)
    ensures Run(env, numbering, FirstNode(), evs).Ok?
    ensures var m := Run(env, numbering, FirstNode(), evs).value;
      var t := AllFollowed(env, numbering, FirstNode(), evs, Twin(map[], map[]));
      && m.tables == t.memory && Twinned(env, t.memory, t.disk)
      && Open(env, numbering, m.disk).Ok? && Open(env, numbering, m.disk).value.tables == t.disk
  {
    hide Open, SizedRun, Run, AllFollowed, Twinned, Stores;
    FirstOpen(env, numbering);
    var base, lsn, rs :| Sound(env, FirstNode(), base, lsn, rs) && FirstNode().next > lsn;
    SoundTwin(env, FirstNode(), base, lsn, rs);
    RunTwins(env, numbering, FirstNode(), evs, map[]);
    var m := Run(env, numbering, FirstNode(), evs).value;
    WholeFinds(env, numbering, m, AllFollowed(env, numbering, FirstNode(), evs, Twin(map[], map[])).disk);
  }
}
