/**
 The database as a transition system (`src/db.rs`): a catalogue of tables in memory, a snapshot
 and a log on disk, and the writes by which an operation changes the disk one after the other.
 */
module Engine {
  import opened Bytes
  import opened Wrappers
  import opened Columns
  import opened Tables
  import opened Storage
  import opened Snapshot

  type Catalog = map<Text, Table>

  function SchemaIn(env: Env, ts: Catalog): SchemaOf {
    (name: Text) => if env.key(name) in ts then Some(ts[env.key(name)].schema) else None
  }

  // `Database::apply`: what a log record does to the tables.
  function Applied(env: Env, ts: Catalog, rec: WalRecord): (Catalog, Option<Error>) {
    match rec
    case CreateTable(name, schema) =>
      (match NewTable(name, schema)
       case Err(e) => (ts, Some(e))
       case Ok(t) => (ts[env.key(name) := t], None))
    case DropTable(name) => (ts - {env.key(name)}, None)
    case Insert(name, rows) =>
      var k := env.key(name);
      if k !in ts then (ts, Some(UnknownTable))
      else
        var (t, e) := WithRows(env, ts[k], rows);
        (ts[k := t], e)
  }

  // How a client's command ends: acknowledged and to be logged, refused, or a DROP of nothing.
  datatype Reply = Logged | Refused(error: Error) | NoSuchTable

  // `create_table`, `drop_table` and `insert_rows`, up to the call of `log`.
  function Performed(env: Env, ts: Catalog, cmd: WalRecord): (Catalog, Reply) {
    match cmd
    case CreateTable(name, schema) =>
      (match NewTable(name, schema)
       case Err(e) => (ts, Refused(e))
       case Ok(t) =>
         if env.key(name) in ts then (ts, Refused(TableExists))
         else (ts[env.key(name) := t], Logged))
    case DropTable(name) =>
      if env.key(name) in ts then (ts - {env.key(name)}, Logged) else (ts, NoSuchTable)
    case Insert(name, rows) =>
      var (us, e) := Applied(env, ts, cmd);
      (us, if e.Some? then Refused(e.value) else Logged)
  }

  // --- disk ---------------------------------------------------------------------------------------

  datatype Disk = Disk(snapshot: Option<bytes>, wal: bytes)

  // The steps by which the files change. Renaming and truncating are atomic; a write to the log
  // may stop in the middle.
  datatype Write =
    | Replace(snapshot: bytes)
    | Truncate
    | Append(data: bytes)

  function Written(d: Disk, w: Write): Disk {
    match w
    case Replace(b) => d.(snapshot := Some(b))
    case Truncate => d.(wal := [])
    case Append(b) => d.(wal := d.wal + b)
  }

  function AllWritten(d: Disk, ws: seq<Write>): Disk
    decreases |ws|
  {
    if ws == [] then d else AllWritten(Written(d, ws[0]), ws[1..])
  }

  // The disks that a crash in the course of the writes may leave behind.
  ghost predicate CrashState(d: Disk, ws: seq<Write>, left: Disk)
    decreases |ws|
  {
    || left == d
    || (ws != [] && ws[0].Append? && exists k :: 0 <= k < |ws[0].data| && left == Written(d, Append(ws[0].data[..k])))
    || (ws != [] && CrashState(Written(d, ws[0]), ws[1..], left))
  }

  // --- nodes --------------------------------------------------------------------------------------

  datatype Node = Node(tables: Catalog, next: nat, disk: Disk)

  datatype Action =
    | Execute(cmd: WalRecord)
    | Snap(order: seq<Table>)    // the tables in the order in which the catalogue lists them

  // The frame that `log` appends for a command, if it gets there.
  function LogWrites(env: Env, n: Node, cmd: WalRecord): seq<Write> {
    var (ts, reply) := Performed(env, n.tables, cmd);
    if !reply.Logged? then []
    else
      match EncodeRecord(SchemaIn(env, ts), cmd)
      case Err(_) => []
      case Ok(payload) => [Append(Frame(RawRecord(n.next, payload)))]
  }

  function Writes(env: Env, n: Node, a: Action): seq<Write> {
    match a
    case Execute(cmd) => LogWrites(env, n, cmd)
    case Snap(order) =>
      [Replace(EncodeSnapshot(order, if n.next > 0 then n.next - 1 else 0)),
       Truncate, Append(WAL_MAGIC), Append(VERSION)]
  }

  // The node after the action has been carried out in full.
  function After(env: Env, n: Node, a: Action): Node {
    var ws := Writes(env, n, a);
    match a
    case Execute(cmd) =>
      Node(Performed(env, n.tables, cmd).0, n.next + |ws|, AllWritten(n.disk, ws))
    case Snap(_) => n.(disk := AllWritten(n.disk, ws))
  }

  // --- opening ------------------------------------------------------------------------------------

  // How `open` numbers the next record: as the code does, or never below the snapshot's LSN.
  datatype Numbering = AsWritten | Raised

  function PutAll(env: Env, ts: Catalog, tables: seq<Table>): Catalog
    decreases |tables|
  {
    if tables == [] then ts else PutAll(env, ts[env.key(tables[0].name) := tables[0]], tables[1..])
  }

  // The replay loop: records at or below `after` are in the snapshot already.
  function Replay(env: Env, ts: Catalog, rs: seq<RawRecord>, after: nat): Result<Catalog>
    decreases |rs|
  {
    if rs == [] then Ok(ts)
    else if rs[0].lsn <= after then Replay(env, ts, rs[1..], after)
    else
      var rec :- DecodeRecord(SchemaIn(env, ts), rs[0].payload);
      var (us, e) := Applied(env, ts, rec);
      if e.Some? then Err(e.value) else Replay(env, us, rs[1..], after)
  }

  // Tables and LSN of the snapshot file, if there is one.
  function Base(env: Env, snapshot: Option<bytes>): Result<(Catalog, nat)> {
    match snapshot
    case None => Ok((map[], 0))
    case Some(raw) =>
      var (tables, lsn) :- DecodeSnapshot(raw);
      Ok((PutAll(env, map[], tables), lsn))
  }

  function Open(env: Env, numbering: Numbering, d: Disk): Result<Node> {
    var (base, lsn) :- Base(env, d.snapshot);
    var (file, rs) :- OpenLog(d.wal);
    var ts :- Replay(env, base, rs, lsn);
    var next := if numbering.Raised? && NextLsn(rs) <= lsn then lsn + 1 else NextLsn(rs);
    Ok(Node(ts, next, d.(wal := file)))
  }
}
