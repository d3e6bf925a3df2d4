/**
 Recovery is exact: whatever was acknowledged, and at most the operation in flight, is what
 `open` rebuilds after a crash at any point, over any number of restarts.
 */
module Recovery {
  import opened Bytes
  import opened Wrappers
  import opened Columns
  import opened Tables
  import opened Codec
  import opened Storage
  import opened Snapshot
  import opened Engine

  // --- catalogues -----------------------------------------------------------------------------------

  // Every table is well formed and stored under the key of its own name.
  predicate CatalogValid(env: Env, ts: Catalog) {
    forall k :: k in ts ==> ts[k].Valid() && env.key(ts[k].name) == k
  }

  lemma RowCountFits(t: Table)
    requires t.Valid()
    ensures t.nrows < TWO64
  {
    var c := t.columns[0];
    assert c.Valid() && c.Len() == t.nrows;
  }

  lemma {:induction false} WithRowsSchema(env: Env, t: Table, rows: seq<Row>)
    ensures WithRows(env, t, rows).0.schema == t.schema && WithRows(env, t, rows).0.name == t.name
    decreases |rows|
  {
    if rows != [] {
      WithRowsSchema(env, WithRow(env, t, rows[0]).0, rows[1..]);
    }
  }

  // --- what a command must satisfy ------------------------------------------------------------------

  // Integers handed to DOUBLE columns are ones whose bits are those of the double they become.
  predicate SameBits(env: Env, schema: Schema, rows: seq<Row>) {
    forall i, j :: 0 <= i < |rows| && 0 <= j < |rows[i]| && j < |schema.fields| ==>
      (schema.fields[j].ty.F64? && rows[i][j].I64? ==> env.widen(rows[i][j].i) == AsU64(rows[i][j].i))
  }

  // A batch is accepted to its last row, or refused at its first.
  predicate InFull(schema: Schema, rows: seq<Row>) {
    AcceptedPrefix(schema, rows) == |rows| || AcceptedPrefix(schema, rows) == 0
  }

  // Sizes within what the machine and the format can hold.
  predicate Sized(env: Env, ts: Catalog, cmd: WalRecord) {
    && (match cmd
        case CreateTable(_, schema) => |schema.fields| < TWO64
        case DropTable(_) => true
        case Insert(name, rows) =>
          |rows| < TWO64 && (env.key(name) in ts ==> RoomForRows(env, ts[env.key(name)], rows)))
    && var payload := EncodeRecord(SchemaIn(env, ts), cmd);
       payload.Ok? ==> |payload.value| < TWO32
  }

  predicate Admissible(env: Env, ts: Catalog, cmd: WalRecord) {
    && Sized(env, ts, cmd)
    && (cmd.Insert? && env.key(cmd.table) in ts ==>
          var schema := ts[env.key(cmd.table)].schema;
          InFull(schema, cmd.rows) && SameBits(env, schema, cmd.rows))
  }

  // --- rereading ------------------------------------------------------------------------------------

  lemma {:induction false} PushFromReread(env: Env, columns: seq<Column>, types: seq<DataType>, row: Row, i: nat)
    requires |columns| == |row| == |types| && i <= |row|
    requires forall k :: 0 <= k < |row| ==> columns[k].Type() == types[k] && Accepts(types[k], row[k])
    requires forall k :: 0 <= k < |row| && types[k].F64? && row[k].I64? ==> env.widen(row[k].i) == AsU64(row[k].i)
    ensures PushFrom(env, columns, RereadRow(types, row), i) == PushFrom(env, columns, row, i)
    decreases |row| - i
  {
    if i < |row| {
      assert columns[i].Push(env, RereadRow(types, row)[i]) == columns[i].Push(env, row[i]);
      var r := columns[i].Push(env, row[i]);
      if r.Ok? {
        PushFromReread(env, columns[i := r.value], types, row, i + 1);
      }
    }
  }

  lemma WithRowReread(env: Env, t: Table, row: Row)
    requires t.Aligned() && Accepted(t.schema, row) && SameBits(env, t.schema, [row])
    ensures WithRow(env, t, RereadRow(t.schema.Types(), row)) == WithRow(env, t, row)
  {
    var types := t.schema.Types();
    forall k | 0 <= k < |row| && types[k].F64? && row[k].I64?
      ensures env.widen(row[k].i) == AsU64(row[k].i)
    {
      assert [row][0][k] == row[k];
    }
    PushFromReread(env, t.columns, types, row, 0);
    assert Accepted(t.schema, RereadRow(types, row));
  }

  // Inserting what was read back is inserting what was written.
  lemma {:induction false} WithRowsReread(env: Env, t: Table, rows: seq<Row>)
    requires t.schema.Valid() && t.Aligned() && SameBits(env, t.schema, rows)
    requires forall i :: 0 <= i < |rows| ==> Accepted(t.schema, rows[i]) && |rows[i]| == |t.schema.fields|
    ensures WithRows(env, t, RereadRows(t.schema.Types(), rows)) == WithRows(env, t, rows)
    decreases |rows|
  {
    if rows != [] {
      var types := t.schema.Types();
      assert SameBits(env, t.schema, [rows[0]]) && SameBits(env, t.schema, rows[1..]);
      WithRowReread(env, t, rows[0]);
      WithRowAllOrNothing(env, t, rows[0]);
      WithRowsReread(env, WithRow(env, t, rows[0]).0, rows[1..]);
      assert RereadRows(types, rows)[0] == RereadRow(types, rows[0]);
      assert RereadRows(types, rows)[1..] == RereadRows(types, rows[1..]);
    }
  }

  // --- one logged command ---------------------------------------------------------------------------

  // Replaying the record of an acknowledged command repeats exactly what the command did, although
  // its rows carry no types: the schema at the replay point is the one they were written under.
  lemma LoggedReplays(env: Env, ts: Catalog, cmd: WalRecord)
    requires CatalogValid(env, ts) && Admissible(env, ts, cmd) && Performed(env, ts, cmd).1.Logged?
    ensures var us := Performed(env, ts, cmd).0;
      && EncodeRecord(SchemaIn(env, us), cmd).Ok?
      && EncodeRecord(SchemaIn(env, us), cmd) == EncodeRecord(SchemaIn(env, ts), cmd)
      && var payload := EncodeRecord(SchemaIn(env, us), cmd).value;
         && |payload| < TWO32
         && DecodeRecord(SchemaIn(env, ts), payload).Ok?
         && Applied(env, ts, DecodeRecord(SchemaIn(env, ts), payload).value) == (us, None)
  {
    hide EncBytes, EncSchema, EncAll, DecodeRecord, Accepts, RoomForRows;
    if cmd.Insert? {
      var k := env.key(cmd.table);
      var t := ts[k];
      WithRowsSchema(env, t, cmd.rows);
      WithRowsAppends(env, t, cmd.rows);
      WithRowsReread(env, t, cmd.rows);
    }
    RecordBack(SchemaIn(env, ts), cmd);
  }

  lemma PerformedValid(env: Env, ts: Catalog, cmd: WalRecord)
    requires CatalogValid(env, ts) && Admissible(env, ts, cmd)
    ensures CatalogValid(env, Performed(env, ts, cmd).0)
    ensures !Performed(env, ts, cmd).1.Logged? ==> Performed(env, ts, cmd).0 == ts
  {
    hide Accepts, RoomForRows, WithRows, EncodeRecord;
    match cmd
    case CreateTable(name, schema) =>
      if schema.Valid() {
        NewTableIsEmpty(name, schema);
      }
    case DropTable(_) =>
    case Insert(name, rows) =>
      var k := env.key(name);
      if k in ts {
        WithRowsAppends(env, ts[k], rows);
        if Performed(env, ts, cmd).1.Refused? {
          RefusedBatchUnchanged(env, ts[k], rows);
          assert ts[k := ts[k]] == ts;
        }
      }
  }

  // --- what the disk holds --------------------------------------------------------------------------

  predicate Ascending(rs: seq<RawRecord>) {
    forall i :: 0 < i < |rs| ==> rs[i - 1].lsn < rs[i].lsn
  }

  // The disk holds the tables: a snapshot (or none) of `base` at `lsn`, and a log of whole frames
  // whose records, replayed on it, give `ts`.
  predicate Stores(env: Env, d: Disk, base: Catalog, lsn: nat, rs: seq<RawRecord>, ts: Catalog) {
    && Base(env, d.snapshot) == Ok((base, lsn))
    && d.wal == Header() + Frames(rs)
    && AllFramable(rs) && Ascending(rs)
    && Replay(env, base, rs, lsn) == Ok(ts)
    && CatalogValid(env, ts)
  }

  // A running node: its disk holds its tables, and the next record comes after those of the log.
  predicate Sound(env: Env, n: Node, base: Catalog, lsn: nat, rs: seq<RawRecord>) {
    && Stores(env, n.disk, base, lsn, rs, n.tables)
    && n.next >= NextLsn(rs)
  }

  // The log holds these records, whatever the snapshot is, and the next one comes behind them.
  predicate LogHolds(env: Env, n: Node, rs: seq<RawRecord>) {
    && n.disk.wal == Header() + Frames(rs) && AllFramable(rs) && Ascending(rs)
    && n.next >= NextLsn(rs) && CatalogValid(env, n.tables)
  }

  lemma SoundLogs(env: Env, n: Node, base: Catalog, lsn: nat, rs: seq<RawRecord>)
    requires Sound(env, n, base, lsn, rs)
    ensures LogHolds(env, n, rs)
  {
  }

  // The snapshot a node would recover from is older than its next record.
  predicate Ahead(env: Env, n: Node) {
    Base(env, n.disk.snapshot).Ok? && n.next > Base(env, n.disk.snapshot).value.1
  }

  // Replaying two stretches of a log one after the other.
  lemma {:induction false} ReplayJoin(env: Env, ts: Catalog, a: seq<RawRecord>, b: seq<RawRecord>, lsn: nat)
    requires Replay(env, ts, a, lsn).Ok?
    ensures Replay(env, ts, a + b, lsn) == Replay(env, Replay(env, ts, a, lsn).value, b, lsn)
    decreases |a|
  {
    hide Applied, DecodeRecord, SchemaIn;
    if a == [] {
      assert a + b == b;
    } else {
      assert (a + b)[0] == a[0] && (a + b)[1..] == a[1..] + b;
      if a[0].lsn <= lsn {
        ReplayJoin(env, ts, a[1..], b, lsn);
      } else {
        var rec := DecodeRecord(SchemaIn(env, ts), a[0].payload).value;
        ReplayJoin(env, Applied(env, ts, rec).0, a[1..], b, lsn);
      }
    }
  }

  lemma {:induction false} ReplayNothing(env: Env, ts: Catalog, rs: seq<RawRecord>, lsn: nat)
    requires forall i :: 0 <= i < |rs| ==> rs[i].lsn <= lsn
    ensures Replay(env, ts, rs, lsn) == Ok(ts)
    decreases |rs|
  {
    if rs != [] {
      ReplayNothing(env, ts, rs[1..], lsn);
    }
  }

  lemma {:induction false} LsnsBelow(rs: seq<RawRecord>, i: nat)
    requires Ascending(rs) && i < |rs|
    ensures rs[i].lsn < NextLsn(rs)
    decreases |rs| - i
  {
    if i + 1 < |rs| {
      LsnsBelow(rs, i + 1);
    }
  }

  // Opening such a disk, with a torn frame behind the log or without, gives its tables.
  lemma OpenStores(
    env: Env, numbering: Numbering, d: Disk, base: Catalog, lsn: nat, rs: seq<RawRecord>, ts: Catalog, tail: bytes)
    returns (n: Node)
    requires Stores(env, d, base, lsn, rs, ts)
    requires FrameAt(d.wal + tail, |d.wal|).None?
    ensures Open(env, numbering, d.(wal := d.wal + tail)) == Ok(n)
    ensures n.tables == ts && n.disk == d && Sound(env, n, base, lsn, rs)
    ensures n.next == if numbering.Raised? && NextLsn(rs) <= lsn then lsn + 1 else NextLsn(rs)
  {
    hide FrameAt, Frames, Header, Replay, OpenLog, Base;
    OpenFrames(rs, tail);
    n := Open(env, numbering, d.(wal := d.wal + tail)).value;
  }

  lemma OpenStoresWhole(
    env: Env, numbering: Numbering, d: Disk, base: Catalog, lsn: nat, rs: seq<RawRecord>, ts: Catalog)
    returns (n: Node)
    requires Stores(env, d, base, lsn, rs, ts)
    ensures Open(env, numbering, d) == Ok(n)
    ensures n.tables == ts && n.disk == d && Sound(env, n, base, lsn, rs)
    ensures n.next == if numbering.Raised? && NextLsn(rs) <= lsn then lsn + 1 else NextLsn(rs)
  {
    hide FrameAt, Frames, Header, Replay, OpenLog, Base;
    NoFrameAtEnd(d.wal + [], |d.wal|);
    n := OpenStores(env, numbering, d, base, lsn, rs, ts, []);
    assert d.(wal := d.wal + []) == d;
  }

  // --- one action -----------------------------------------------------------------------------------

  // The record that an acknowledged command adds to the log.
  function RecordOf(env: Env, n: Node, cmd: WalRecord): RawRecord
    requires EncodeRecord(SchemaIn(env, n.tables), cmd).Ok?
  {
    RawRecord(n.next, EncodeRecord(SchemaIn(env, n.tables), cmd).value)
  }

  // One more frame behind the log.
  lemma AppendStores(
    env: Env, d: Disk, base: Catalog, lsn: nat, rs: seq<RawRecord>, ts: Catalog, r: RawRecord, us: Catalog)
    requires Stores(env, d, base, lsn, rs, ts)
    requires Framable(r) && r.lsn >= NextLsn(rs) && CatalogValid(env, us)
    requires Replay(env, ts, [r], lsn) == Ok(us)
    ensures AllWritten(d, [Append(Frame(r))]) == Written(d, Append(Frame(r)))
    ensures Stores(env, Written(d, Append(Frame(r))), base, lsn, rs + [r], us)
  {
    hide Frames, Frame, Header, Base, CatalogValid;
    ReplayJoin(env, base, rs, [r], lsn);
    FramesAppend(rs, [r]);
    OneFrame(r);
    assert (Header() + Frames(rs)) + Frame(r) == Header() + (Frames(rs) + Frame(r));
    assert [Append(Frame(r))][1..] == [];
  }

  // Carrying out a command: a refused one changes nothing, an acknowledged one puts one frame
  // behind the log, and the disk then stores the new tables.
  lemma ExecuteStores(env: Env, n: Node, base: Catalog, lsn: nat, rs: seq<RawRecord>, cmd: WalRecord)
    requires Sound(env, n, base, lsn, rs) && n.next > lsn && n.next < TWO64
    requires Admissible(env, n.tables, cmd)
    ensures var m := After(env, n, Execute(cmd));
      if Performed(env, n.tables, cmd).1.Logged? then
        && EncodeRecord(SchemaIn(env, n.tables), cmd).Ok?
        && var r := RecordOf(env, n, cmd);
        && Framable(r)
        && Writes(env, n, Execute(cmd)) == [Append(Frame(r))]
        && Sound(env, m, base, lsn, rs + [r])
      else Writes(env, n, Execute(cmd)) == [] && m == n
  {
    hide Frames, Frame, Header, Base, Replay, EncodeRecord, DecodeRecord, Performed, Applied, Admissible;
    PerformedValid(env, n.tables, cmd);
    if Performed(env, n.tables, cmd).1.Logged? {
      LoggedReplays(env, n.tables, cmd);
      var r := RecordOf(env, n, cmd);
      ReplayOne(env, n.tables, r, lsn);
      AppendStores(env, n.disk, base, lsn, rs, n.tables, r, Performed(env, n.tables, cmd).0);
    }
  }

  lemma ReplayOne(env: Env, ts: Catalog, r: RawRecord, lsn: nat)
    requires r.lsn > lsn && DecodeRecord(SchemaIn(env, ts), r.payload).Ok?
    requires Applied(env, ts, DecodeRecord(SchemaIn(env, ts), r.payload).value).1.None?
    ensures Replay(env, ts, [r], lsn)
         == Ok(Applied(env, ts, DecodeRecord(SchemaIn(env, ts), r.payload).value).0)
  {
    hide DecodeRecord, Applied, SchemaIn;
    assert [r][1..] == [];
  }

  // The list of tables that a snapshot writes: each table of the catalogue, in any order.
  predicate Enumerates(env: Env, order: seq<Table>, ts: Catalog) {
    && |order| < TWO64
    && (forall i :: 0 <= i < |order| ==> env.key(order[i].name) in ts && ts[env.key(order[i].name)] == order[i])
    && (forall k :: k in ts ==> ts[k] in order)
  }

  lemma {:induction false} PutAllRestores(env: Env, ts: Catalog, order: seq<Table>, done: Catalog)
    requires CatalogValid(env, ts)
    requires forall i :: 0 <= i < |order| ==> env.key(order[i].name) in ts && ts[env.key(order[i].name)] == order[i]
    requires forall k :: k in done ==> k in ts && done[k] == ts[k]
    requires forall k :: k in ts ==> k in done || ts[k] in order
    ensures PutAll(env, done, order) == ts
    decreases |order|
  {
    if order != [] {
      PutAllRestores(env, ts, order[1..], done[env.key(order[0].name) := order[0]]);
    } else {
      assert done == ts;
    }
  }

  lemma BaseOfSnapshot(env: Env, ts: Catalog, order: seq<Table>, lsn: u64)
    requires CatalogValid(env, ts) && Enumerates(env, order, ts)
    ensures Base(env, Some(EncodeSnapshot(order, lsn))) == Ok((ts, lsn))
  {
    hide EncodeSnapshot, DecodeSnapshot;
    forall i | 0 <= i < |order|
      ensures order[i].Valid() && order[i].nrows < TWO64
    {
      RowCountFits(order[i]);
    }
    SnapshotRoundTrip(order, lsn);
    PutAllRestores(env, ts, order, map[]);
  }

  // Once the snapshot is in place, the disk stores the tables of the memory with the old log still
  // there (every record of it is skipped), with no log, and with an empty one.
  lemma SnapStores(env: Env, n: Node, rs: seq<RawRecord>, order: seq<Table>)
    requires LogHolds(env, n, rs) && n.next <= TWO64 && Enumerates(env, order, n.tables)
    ensures n.next >= 1
    ensures var raw := EncodeSnapshot(order, n.next - 1);
      && Stores(env, Disk(Some(raw), n.disk.wal), n.tables, n.next - 1, rs, n.tables)
      && Stores(env, Disk(Some(raw), Header()), n.tables, n.next - 1, [], n.tables)
  {
    hide Frame, Header, OpenLog, Base, EncodeSnapshot;
    BaseOfSnapshot(env, n.tables, order, n.next - 1);
    forall i | 0 <= i < |rs|
      ensures rs[i].lsn <= n.next - 1
    {
      LsnsBelow(rs, i);
    }
    ReplayNothing(env, n.tables, rs, n.next - 1);
    assert Header() + [] == Header();
  }

  // --- crashes --------------------------------------------------------------------------------------

  predicate ActionOk(env: Env, n: Node, a: Action) {
    && n.next < TWO64
    && match a
       case Execute(cmd) => Admissible(env, n.tables, cmd)
       case Snap(order) => Enumerates(env, order, n.tables)
  }

  // A log cut inside its 12-byte header is refused by `open`.
  predicate PartialHeader(wal: bytes) {
    0 < |wal| < 12
  }

  lemma PartialHeaderRefused(env: Env, numbering: Numbering, d: Disk)
    requires PartialHeader(d.wal)
    ensures Open(env, numbering, d).Err?
  {
  }

  // The command in flight reached the disk: its frame is there to the last byte.
  predicate Survives(env: Env, n: Node, a: Action, left: Disk) {
    a.Execute? && Writes(env, n, a) != [] && left == After(env, n, a).disk
  }

  // A crash while a frame is appended: the frame is there, or nothing of it counts.
  lemma CrashInAppend(
    env: Env, numbering: Numbering, d: Disk, base: Catalog, lsn: nat, rs: seq<RawRecord>, ts: Catalog, r: RawRecord,
    us: Catalog, left: Disk)
    returns (m: Node, rs': seq<RawRecord>)
    requires Stores(env, d, base, lsn, rs, ts) && Framable(r)
    requires Stores(env, Written(d, Append(Frame(r))), base, lsn, rs + [r], us)
    requires CrashState(d, [Append(Frame(r))], left)
    ensures Open(env, numbering, left) == Ok(m) && Sound(env, m, base, lsn, rs')
    ensures var done := left == Written(d, Append(Frame(r)));
      m.tables == (if done then us else ts) && rs' == if done then rs + [r] else rs
    ensures numbering.Raised? ==> m.next > lsn
    ensures m.next == if numbering.Raised? && NextLsn(rs') <= lsn then lsn + 1 else NextLsn(rs')
  {
    hide Frames, Frame, Header, Base, Open, OpenLog, Replay, FrameAt;
    var f := Frame(r);
    assert [Append(f)][1..] == [];
    var done := Written(d, Append(f));
    if left == done {
      m := OpenStoresWhole(env, numbering, left, base, lsn, rs + [r], us);
      rs' := rs + [r];
    } else if left == d {
      m := OpenStoresWhole(env, numbering, d, base, lsn, rs, ts);
      rs' := rs;
    } else {
      var k :| 0 <= k < |f| && left == Written(d, Append(f[..k]));
      TornFrame(d.wal, r, k);
      m := OpenStores(env, numbering, d, base, lsn, rs, ts, f[..k]);
      rs' := rs;
      assert |left.wal| < |done.wal|;
    }
  }

  lemma CrashInExecute(
    env: Env, numbering: Numbering, n: Node, base: Catalog, lsn: nat, rs: seq<RawRecord>, cmd: WalRecord, left: Disk)
    returns (m: Node, rs': seq<RawRecord>)
    requires Sound(env, n, base, lsn, rs) && n.next > lsn && ActionOk(env, n, Execute(cmd))
    requires CrashState(n.disk, Writes(env, n, Execute(cmd)), left)
    ensures Open(env, numbering, left) == Ok(m) && Sound(env, m, base, lsn, rs')
    ensures m.tables == if Survives(env, n, Execute(cmd), left) then After(env, n, Execute(cmd)).tables else n.tables
    ensures numbering.Raised? ==> m.next > lsn
  {
    hide Frames, Frame, Header, Base, Admissible, Performed, EncodeRecord, Open, OpenLog, Replay, FrameAt, Stores;
    var ws := Writes(env, n, Execute(cmd));
    ExecuteStores(env, n, base, lsn, rs, cmd);
    if ws == [] {
      m := OpenStoresWhole(env, numbering, n.disk, base, lsn, rs, n.tables);
      rs' := rs;
    } else {
      var r := RecordOf(env, n, cmd);
      assert ws[1..] == [] && AllWritten(n.disk, ws) == AllWritten(Written(n.disk, ws[0]), []);
      m, rs' := CrashInAppend(env, numbering, n.disk, base, lsn, rs, n.tables, r, After(env, n, Execute(cmd)).tables,
                              left);
    }
  }

  // The disks between the four writes of a snapshot.
  lemma SnapCrashStates(d: Disk, raw: bytes, left: Disk)
    requires CrashState(d, [Replace(raw), Truncate, Append(WAL_MAGIC), Append(VERSION)], left)
    requires !PartialHeader(left.wal)
    ensures left in {d, Disk(Some(raw), d.wal), Disk(Some(raw), []), Disk(Some(raw), Header())}
  {
    var ws := [Replace(raw), Truncate, Append(WAL_MAGIC), Append(VERSION)];
    var d1, d2 := Disk(Some(raw), d.wal), Disk(Some(raw), []);
    var d3 := Disk(Some(raw), WAL_MAGIC);
    assert ws[1..] == [Truncate, Append(WAL_MAGIC), Append(VERSION)];
    assert ws[1..][1..] == [Append(WAL_MAGIC), Append(VERSION)];
    assert ws[1..][1..][1..] == [Append(VERSION)];
    assert [] + WAL_MAGIC == WAL_MAGIC;
    if left != d && left != d1 && left != d2 {
      assert CrashState(d1, ws[1..], left);
      assert CrashState(d2, [Append(WAL_MAGIC), Append(VERSION)], left);
      SnapHeaderCrash(raw, left);
    }
  }

  lemma SnapHeaderCrash(raw: bytes, left: Disk)
    requires CrashState(Disk(Some(raw), []), [Append(WAL_MAGIC), Append(VERSION)], left)
    requires !PartialHeader(left.wal)
    ensures left == Disk(Some(raw), []) || left == Disk(Some(raw), Header())
  {
    var d2, d3 := Disk(Some(raw), []), Disk(Some(raw), WAL_MAGIC);
    var ws := [Append(WAL_MAGIC), Append(VERSION)];
    assert ws[1..] == [Append(VERSION)] && ws[1..][1..] == [];
    assert Written(d2, ws[0]) == d3;
    assert Written(d3, Append(VERSION)) == Disk(Some(raw), Header());
    if left != d2 {
      assert CrashState(d3, ws[1..], left);
    }
  }

  lemma OpenEmptyLog(env: Env, numbering: Numbering, snapshot: Option<bytes>)
    ensures Open(env, numbering, Disk(snapshot, [])) == Open(env, numbering, Disk(snapshot, Header()))
  {
    hide Base, Replay, Header;
    OpenWholeLog([]);
    assert Header() + Frames([]) == Header();
  }

  // A crash in the course of a snapshot of `us`, over a disk that stores `ts`: nothing has happened,
  // or the new snapshot is in place, with the old log or with none.
  lemma CrashInReplace(
    env: Env, numbering: Numbering, d: Disk, base: Catalog, lsn: nat, rs: seq<RawRecord>, ts: Catalog, raw: bytes,
    us: Catalog, at: nat, left: Disk)
    returns (m: Node, base': Catalog, lsn': nat, rs': seq<RawRecord>)
    requires Stores(env, d, base, lsn, rs, ts)
    requires Stores(env, Disk(Some(raw), d.wal), us, at, rs, us)
    requires Stores(env, Disk(Some(raw), Header()), us, at, [], us)
    requires CrashState(d, [Replace(raw), Truncate, Append(WAL_MAGIC), Append(VERSION)], left)
    requires !PartialHeader(left.wal)
    ensures Open(env, numbering, left) == Ok(m) && Sound(env, m, base', lsn', rs')
    ensures m.tables == if left == d then ts else us
    ensures (base', lsn', rs') == if left == d then (base, lsn, rs) else (us, at, rs')
    ensures rs' == rs || rs' == []
    ensures left == d ==> rs' == rs
    ensures m.next == if numbering.Raised? && NextLsn(rs') <= lsn' then lsn' + 1 else NextLsn(rs')
  {
    hide Frames, Frame, Header, Base, Open, OpenLog, Replay, FrameAt;
    SnapCrashStates(d, raw, left);
    if left == d {
      m := OpenStoresWhole(env, numbering, left, base, lsn, rs, ts);
      base', lsn', rs' := base, lsn, rs;
    } else if left == Disk(Some(raw), d.wal) {
      m := OpenStoresWhole(env, numbering, left, us, at, rs, us);
      base', lsn', rs' := us, at, rs;
    } else {
      OpenEmptyLog(env, numbering, Some(raw));
      m := OpenStoresWhole(env, numbering, Disk(Some(raw), Header()), us, at, [], us);
      base', lsn', rs' := us, at, [];
    }
  }

  lemma CrashInSnap(
    env: Env, numbering: Numbering, n: Node, base: Catalog, lsn: nat, rs: seq<RawRecord>, order: seq<Table>, left: Disk)
    returns (m: Node, base': Catalog, lsn': nat, rs': seq<RawRecord>)
    requires Sound(env, n, base, lsn, rs) && n.next > lsn && ActionOk(env, n, Snap(order))
    requires CrashState(n.disk, Writes(env, n, Snap(order)), left) && !PartialHeader(left.wal)
    ensures Open(env, numbering, left) == Ok(m) && Sound(env, m, base', lsn', rs')
    ensures m.tables == n.tables
    ensures numbering.Raised? ==> m.next > lsn'
  {
    hide Stores, Enumerates, Open, EncodeSnapshot, CrashState, PartialHeader;
    SoundLogs(env, n, base, lsn, rs);
    SnapStores(env, n, rs, order);
    m, base', lsn', rs' := CrashInReplace(env, numbering, n.disk, base, lsn, rs, n.tables,
                                          EncodeSnapshot(order, n.next - 1), n.tables, n.next - 1, left);
  }

  // A crash in the course of a snapshot is survived exactly when it does not leave part of a header.
  lemma SnapCrashOpens(
    env: Env, numbering: Numbering, n: Node, base: Catalog, lsn: nat, rs: seq<RawRecord>, order: seq<Table>, left: Disk)
    requires Sound(env, n, base, lsn, rs) && n.next > lsn && ActionOk(env, n, Snap(order))
    requires CrashState(n.disk, Writes(env, n, Snap(order)), left)
    ensures Open(env, numbering, left).Ok? <==> !PartialHeader(left.wal)
    ensures Open(env, numbering, left).Ok? ==> Open(env, numbering, left).value.tables == n.tables
  {
    if PartialHeader(left.wal) {
      PartialHeaderRefused(env, numbering, left);
    } else {
      hide Open, Stores, Enumerates, CrashState, Writes, PartialHeader;
      var m, _, _, _ := CrashInSnap(env, numbering, n, base, lsn, rs, order, left);
    }
  }

  lemma NothingWritten(d: Disk, left: Disk)
    requires CrashState(d, [], left)
    ensures left == d
  {
  }

  // A crash between two writes, or after the last one.
  lemma CrashBetween(d: Disk, ws: seq<Write>)
    requires ws != []
    ensures CrashState(Written(d, ws[0]), ws[1..], Written(d, ws[0]))
  {
  }

  lemma CrashLater(d: Disk, ws: seq<Write>, left: Disk)
    requires ws != [] && CrashState(Written(d, ws[0]), ws[1..], left)
    ensures CrashState(d, ws, left)
  {
  }

  // Such a crash can happen: between the two writes of the header.
  lemma HeaderCrash(env: Env, n: Node, order: seq<Table>)
    requires n.next > 0
    ensures var left := Disk(Some(EncodeSnapshot(order, n.next - 1)), WAL_MAGIC);
      && CrashState(n.disk, Writes(env, n, Snap(order)), left) && PartialHeader(left.wal)
  {
    hide EncodeSnapshot, CrashState;
    HeaderLeft(n.disk, EncodeSnapshot(order, n.next - 1));
  }

  lemma HeaderLeft(d: Disk, raw: bytes)
    ensures CrashState(d, [Replace(raw), Truncate, Append(WAL_MAGIC), Append(VERSION)], Disk(Some(raw), WAL_MAGIC))
  {
    hide CrashState;
    var ws := [Replace(raw), Truncate, Append(WAL_MAGIC), Append(VERSION)];
    var d1, d2, left := Disk(Some(raw), d.wal), Disk(Some(raw), []), Disk(Some(raw), WAL_MAGIC);
    assert ws[1..] == [Truncate, Append(WAL_MAGIC), Append(VERSION)];
    assert ws[1..][1..] == [Append(WAL_MAGIC), Append(VERSION)];
    assert [] + WAL_MAGIC == WAL_MAGIC;
    CrashBetween(d2, ws[1..][1..]);
    CrashLater(d2, ws[1..][1..], left);
    CrashLater(d1, ws[1..], left);
    CrashLater(d, ws, left);
  }

  // --- runs -----------------------------------------------------------------------------------------

  // An action carried out, or one cut short by a crash that leaves a disk, which is then opened.
  datatype Event = Done(a: Action) | Crashed(a: Action, left: Disk)

  function Step(env: Env, numbering: Numbering, n: Node, ev: Event): Result<Node> {
    match ev
    case Done(a) => Ok(After(env, n, a))
    case Crashed(_, left) => Open(env, numbering, left)
  }

  ghost predicate Possible(env: Env, n: Node, ev: Event) {
    && ActionOk(env, n, ev.a)
    && (ev.Crashed? ==> CrashState(n.disk, Writes(env, n, ev.a), ev.left) && !PartialHeader(ev.left.wal))
  }

  function Run(env: Env, numbering: Numbering, n: Node, evs: seq<Event>): Result<Node>
    decreases |evs|
  {
    if evs == [] then Ok(n)
    else
      var m :- Step(env, numbering, n, evs[0]);
      Run(env, numbering, m, evs[1..])
  }

  // Every event is possible where it happens. Under the code's own numbering, every open that
  // something follows must come out ahead of the snapshot; under the raised one nothing is asked.
  ghost predicate PossibleRun(env: Env, numbering: Numbering, n: Node, evs: seq<Event>)
    decreases |evs|
  {
    evs == [] ||
    (&& Possible(env, n, evs[0])
     && var m := Step(env, numbering, n, evs[0]);
        m.Ok? ==>
          && (numbering.AsWritten? && |evs| > 1 ==> Ahead(env, m.value))
          && PossibleRun(env, numbering, m.value, evs[1..]))
  }

  // The commands that count: each acknowledged one, and one in flight whose frame is on disk.
  function Kept(env: Env, n: Node, ev: Event): seq<WalRecord> {
    match ev
    case Done(Execute(cmd)) => if Performed(env, n.tables, cmd).1.Logged? then [cmd] else []
    case Crashed(Execute(cmd), left) => if Survives(env, n, Execute(cmd), left) then [cmd] else []
    case _ => []
  }

  function AllKept(env: Env, numbering: Numbering, n: Node, evs: seq<Event>): seq<WalRecord>
    decreases |evs|
  {
    if evs == [] then []
    else
      Kept(env, n, evs[0]) +
      match Step(env, numbering, n, evs[0])
      case Ok(m) => AllKept(env, numbering, m, evs[1..])
      case Err(_) => []
  }

  // A database that never stops and has no disk.
  function Ideal(env: Env, ts: Catalog, cmds: seq<WalRecord>): Catalog
    decreases |cmds|
  {
    if cmds == [] then ts else Ideal(env, Performed(env, ts, cmds[0]).0, cmds[1..])
  }

  // A node whose disk holds its tables, whatever the snapshot and the log are.
  ghost predicate Whole(env: Env, n: Node) {
    exists base, lsn, rs :: Sound(env, n, base, lsn, rs)
  }

  // The same, and ahead of its snapshot.
  ghost predicate Good(env: Env, n: Node) {
    exists base, lsn, rs :: Sound(env, n, base, lsn, rs) && n.next > lsn
  }

  lemma StepGood(env: Env, numbering: Numbering, n: Node, ev: Event)
    requires Good(env, n) && Possible(env, n, ev)
    ensures Step(env, numbering, n, ev).Ok?
    ensures var m := Step(env, numbering, n, ev).value;
      && m.tables == Ideal(env, n.tables, Kept(env, n, ev))
      && Whole(env, m)
      && (numbering.Raised? || Ahead(env, m) || ev.Done? ==> Good(env, m))
      && (ev.Done? ==> Ahead(env, m))
  {
    hide Stores, Performed, Open, Writes, Admissible, Enumerates, CrashState, PartialHeader;
    var base, lsn, rs :| Sound(env, n, base, lsn, rs) && n.next > lsn;
    match ev
    case Done(Execute(cmd)) => DoneExecute(env, n, base, lsn, rs, cmd);
    case Done(Snap(order)) => DoneSnap(env, n, base, lsn, rs, order);
    case Crashed(Execute(cmd), left) =>
      var m, rs' := CrashInExecute(env, numbering, n, base, lsn, rs, cmd, left);
      AheadMeans(env, m, base, lsn, rs');
      KeptCrash(env, n, base, lsn, rs, cmd, left);
    case Crashed(Snap(order), left) =>
      var m, base', lsn', rs' := CrashInSnap(env, numbering, n, base, lsn, rs, order, left);
      AheadMeans(env, m, base', lsn', rs');
  }

  lemma AheadMeans(env: Env, n: Node, base: Catalog, lsn: nat, rs: seq<RawRecord>)
    requires Sound(env, n, base, lsn, rs)
    ensures Ahead(env, n) <==> n.next > lsn
  {
  }

  lemma IdealOne(env: Env, ts: Catalog, cmd: WalRecord)
    ensures Ideal(env, ts, [cmd]) == Performed(env, ts, cmd).0
  {
    hide Performed;
    assert [cmd][1..] == [];
  }

  lemma KeptCrash(env: Env, n: Node, base: Catalog, lsn: nat, rs: seq<RawRecord>, cmd: WalRecord, left: Disk)
    ensures Ideal(env, n.tables, Kept(env, n, Crashed(Execute(cmd), left)))
         == if Survives(env, n, Execute(cmd), left) then After(env, n, Execute(cmd)).tables else n.tables
  {
    hide Performed, Survives;
    IdealOne(env, n.tables, cmd);
  }

  lemma DoneExecute(env: Env, n: Node, base: Catalog, lsn: nat, rs: seq<RawRecord>, cmd: WalRecord)
    requires Sound(env, n, base, lsn, rs) && n.next > lsn && ActionOk(env, n, Execute(cmd))
    ensures var m := After(env, n, Execute(cmd));
      && m.tables == Ideal(env, n.tables, Kept(env, n, Done(Execute(cmd))))
      && Good(env, m) && Ahead(env, m)
  {
    hide Stores, Performed, Admissible, Writes;
    var m := After(env, n, Execute(cmd));
    ExecuteStores(env, n, base, lsn, rs, cmd);
    IdealOne(env, n.tables, cmd);
    if Performed(env, n.tables, cmd).1.Logged? {
      AheadMeans(env, m, base, lsn, rs + [RecordOf(env, n, cmd)]);
    } else {
      AheadMeans(env, m, base, lsn, rs);
    }
  }

  lemma SnapWrites(d: Disk, raw: bytes)
    ensures AllWritten(d, [Replace(raw), Truncate, Append(WAL_MAGIC), Append(VERSION)]) == Disk(Some(raw), Header())
  {
    var ws := [Replace(raw), Truncate, Append(WAL_MAGIC), Append(VERSION)];
    var d3 := Disk(Some(raw), WAL_MAGIC);
    assert ws[1..] == [Truncate, Append(WAL_MAGIC), Append(VERSION)];
    assert ws[1..][1..] == [Append(WAL_MAGIC), Append(VERSION)];
    assert ws[1..][1..][1..] == [Append(VERSION)];
    assert [] + WAL_MAGIC == WAL_MAGIC;
    assert AllWritten(d3, [Append(VERSION)]) == AllWritten(Disk(Some(raw), Header()), [Append(VERSION)][1..]);
    assert AllWritten(Disk(Some(raw), []), ws[1..][1..]) == AllWritten(d3, [Append(VERSION)]);
  }

  lemma DoneSnap(env: Env, n: Node, base: Catalog, lsn: nat, rs: seq<RawRecord>, order: seq<Table>)
    requires Sound(env, n, base, lsn, rs) && n.next > lsn && ActionOk(env, n, Snap(order))
    ensures var m := After(env, n, Snap(order));
      m.tables == n.tables && Good(env, m) && Ahead(env, m)
  {
    hide Stores, Enumerates, EncodeSnapshot, Header;
    var m := After(env, n, Snap(order));
    SoundLogs(env, n, base, lsn, rs);
    SnapStores(env, n, rs, order);
    SnapWrites(n.disk, EncodeSnapshot(order, n.next - 1));
    assert Sound(env, m, n.tables, n.next - 1, []);
    AheadMeans(env, m, n.tables, n.next - 1, []);
  }

  lemma {:induction false} IdealAppend(env: Env, ts: Catalog, a: seq<WalRecord>, b: seq<WalRecord>)
    ensures Ideal(env, ts, a + b) == Ideal(env, Ideal(env, ts, a), b)
    decreases |a|
  {
    hide Performed;
    if a == [] {
      assert a + b == b;
    } else {
      assert (a + b)[1..] == a[1..] + b;
      IdealAppend(env, Performed(env, ts, a[0]).0, a[1..], b);
    }
  }

  lemma WholeCatalog(env: Env, n: Node)
    requires Whole(env, n)
    ensures CatalogValid(env, n.tables)
  {
  }

  // Over any run from a good node the tables are those of an ideal database that executed the
  // commands that count, each of them once and in order; and a restart changes nothing.
  lemma {:induction false} RunExact(env: Env, numbering: Numbering, n: Node, evs: seq<Event>)
    requires Whole(env, n) && (evs != [] ==> Good(env, n)) && PossibleRun(env, numbering, n, evs)
    ensures Run(env, numbering, n, evs).Ok?
    ensures var m := Run(env, numbering, n, evs).value;
      && m.tables == Ideal(env, n.tables, AllKept(env, numbering, n, evs))
      && Whole(env, m)
      && Open(env, numbering, m.disk).Ok? && Open(env, numbering, m.disk).value.tables == m.tables
    decreases |evs|
  {
    hide Performed, Possible, Kept, Step, Open, Ahead, Stores;
    if evs == [] {
      var base, lsn, rs :| Sound(env, n, base, lsn, rs);
      var m := OpenStoresWhole(env, numbering, n.disk, base, lsn, rs, n.tables);
    } else {
      StepGood(env, numbering, n, evs[0]);
      var m := Step(env, numbering, n, evs[0]).value;
      RunExact(env, numbering, m, evs[1..]);
      IdealAppend(env, n.tables, Kept(env, n, evs[0]), AllKept(env, numbering, m, evs[1..]));
    }
  }

  // A data directory that does not exist yet.
  const NEW: Disk := Disk(None, [])

  function FirstNode(): Node {
    Node(map[], 1, Disk(None, Header()))
  }

  lemma FirstOpen(env: Env, numbering: Numbering)
    ensures Open(env, numbering, NEW) == Ok(FirstNode())
    ensures Good(env, FirstNode())
  {
    hide Header;
    OpenEmptyLog(env, numbering, None);
    assert Header() + Frames([]) == Header();
    assert Stores(env, FirstNode().disk, map[], 0, [], map[]);
    assert Sound(env, FirstNode(), map[], 0, []);
    var m := OpenStoresWhole(env, numbering, FirstNode().disk, map[], 0, [], map[]);
  }

  // The main result: from a new directory, through any run with crashes and restarts.
  lemma RecoveryIsExact(env: Env, numbering: Numbering, evs: seq<Event>)
    requires PossibleRun(env, numbering, FirstNode(), evs)
    ensures Open(env, numbering, NEW) == Ok(FirstNode())
    ensures Run(env, numbering, FirstNode(), evs).Ok?
    ensures var m := Run(env, numbering, FirstNode(), evs).value;
      && m.tables == Ideal(env, map[], AllKept(env, numbering, FirstNode(), evs))
      && CatalogValid(env, m.tables)
      && Open(env, numbering, m.disk).Ok? && Open(env, numbering, m.disk).value.tables == m.tables
  {
    hide Open, Performed, PossibleRun, Run, AllKept;
    FirstOpen(env, numbering);
    RunExact(env, numbering, FirstNode(), evs);
    WholeCatalog(env, Run(env, numbering, FirstNode(), evs).value);
  }
}
