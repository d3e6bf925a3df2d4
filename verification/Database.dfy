/** The database object (`src/db.rs`) and the replica's loop over it (`src/replication.rs`). */
module Database {
  import opened Bytes
  import opened Wrappers
  import opened Columns
  import opened Tables
  import opened Storage
  import opened Snapshot
  import opened Engine
  import opened Records
  import opened WalFile
  import opened Recovery
  import opened Replication

  lemma AfterExecute(env: Env, n: Engine.Node, cmd: WalRecord)
    ensures var (ts, reply) := Performed(env, n.tables, cmd);
      var payload := EncodeRecord(SchemaIn(env, ts), cmd);
      if reply.Logged? && payload.Ok? then
        var w := Write.Append(Frame(RawRecord(n.next, payload.value)));
        && Writes(env, n, Execute(cmd)) == [w]
        && After(env, n, Execute(cmd)) == Engine.Node(ts, n.next + 1, Written(n.disk, w))
      else
        Writes(env, n, Execute(cmd)) == [] && After(env, n, Execute(cmd)) == n.(tables := ts)
  {
    hide EncodeRecord, Frame, SchemaIn, Performed;
    var (ts, reply) := Performed(env, n.tables, cmd);
    var payload := EncodeRecord(SchemaIn(env, ts), cmd);
    if reply.Logged? && payload.Ok? {
      var w := Write.Append(Frame(RawRecord(n.next, payload.value)));
      assert [w][1..] == [];
      assert AllWritten(n.disk, [w]) == Written(n.disk, w);
    }
  }

  // A command that is not logged changes memory only.
  lemma AfterQuiet(env: Env, n: Engine.Node, cmd: WalRecord)
    ensures !Performed(env, n.tables, cmd).1.Logged? ==>
      && Writes(env, n, Execute(cmd)) == []
      && After(env, n, Execute(cmd)) == n.(tables := Performed(env, n.tables, cmd).0)
  {
    AfterExecute(env, n, cmd);
  }

  lemma DropPerformed(env: Env, ts: Catalog, name: Text)
    ensures Performed(env, ts, WalRecord.DropTable(name))
         == if env.key(name) in ts then (ts - {env.key(name)}, Logged) else (ts, NoSuchTable)
    ensures EncodeRecord(SchemaIn(env, ts - {env.key(name)}), WalRecord.DropTable(name)).Ok?
  {
  }

  lemma AfterSnap(env: Env, n: Engine.Node, order: seq<Table>)
    requires n.next > 0
    ensures var raw := EncodeSnapshot(order, n.next - 1);
      && Writes(env, n, Snap(order)) == [Replace(raw), Truncate, Write.Append(WAL_MAGIC), Write.Append(VERSION)]
      && After(env, n, Snap(order)) == n.(disk := Disk(Some(raw), Header()))
  {
    hide EncodeSnapshot;
    SnapWrites(n.disk, EncodeSnapshot(order, n.next - 1));
  }

  lemma CreateEncodes(schemaOf: SchemaOf, name: Text, schema: Schema)
    ensures EncodeRecord(schemaOf, WalRecord.CreateTable(name, schema)).Ok?
  {
  }

  // What the client is told.
  function Replied(reply: Reply): Option<Error> {
    if reply.Refused? then Some(reply.error) else None
  }

  class Database {
    const env: Env
    var tables: map<Text, TableCell>
    var wal: Wal?              // null for a database without a data directory
    var readOnly: bool

    constructor (env: Env)
      ensures this.env == env && tables == map[] && wal == null && !readOnly
      ensures Valid()
    {
      this.env, tables, wal, readOnly := env, map[], null, false;
    }

    // No table is shared between two names.
    ghost predicate Valid()
      reads this
    {
      forall j, k :: j in tables && k in tables && j != k ==> tables[j] != tables[k]
    }

    // The objects behind the data directory, if there is one.
    ghost function Files(): set<object>
      reads this
    {
      if wal == null then {} else {wal.files}
    }

    ghost function Store(): set<object>
      reads this
    {
      if wal == null then {} else {wal, wal.files}
    }

    ghost function Catalog(): Catalog
      reads this, tables.Values
    {
      map k | k in tables :: tables[k].t
    }

    // The whole persistent node: tables, next LSN, files.
    ghost function Node(): Node
      requires wal != null
      reads this, tables.Values, wal, wal.files
    {
      Engine.Node(Catalog(), wal.nextLsn, wal.files.AsDisk())
    }

    ghost function NodeIfAny(): Engine.Node
      reads this, tables.Values, Store(), if wal == null then {} else {wal.files}
    {
      if wal == null then Engine.Node(Catalog(), 1, NEW) else Node()
    }

    method Schemas() returns (schemaOf: SchemaOf)
      ensures schemaOf == SchemaIn(env, Catalog())
    {
      var ts := map k | k in tables :: tables[k].t;
      schemaOf := SchemaIn(env, ts);
    }

    method AddTable(k: Text, table: Table)
      requires Valid()
      modifies this`tables
      ensures Valid() && Catalog() == old(Catalog())[k := table]
      ensures forall c :: c in tables.Values ==> c in old(tables.Values) || fresh(c)
    {
      var cell := new TableCell(table);
      tables := tables[k := cell];
    }

    method PutTable(table: Table)
      requires Valid()
      modifies this`tables
      ensures Valid() && Catalog() == old(Catalog())[env.key(table.name) := table]
      ensures forall c :: c in tables.Values ==> c in old(tables.Values) || fresh(c)
    {
      AddTable(env.key(table.name), table);
    }

    method DropTableInner(name: Text) returns (there: bool)
      requires Valid()
      modifies this`tables
      ensures Valid() && Catalog() == old(Catalog()) - {env.key(name)} && there == (env.key(name) in old(tables))
      ensures !there ==> Catalog() == old(Catalog())
      ensures forall c :: c in tables.Values ==> c in old(tables.Values)
    {
      there := env.key(name) in tables;
      tables := tables - {env.key(name)};
    }

    method InsertInner(name: Text, rows: seq<Row>) returns (e: Option<Error>)
      requires Valid()
      modifies tables.Values
      ensures Valid() && (Catalog(), e) == Applied(env, old(Catalog()), WalRecord.Insert(name, rows))
    {
      var k := env.key(name);
      if k !in tables {
        return Some(UnknownTable);
      }
      e := tables[k].InsertMany(env, rows);
      assert forall j :: j in tables && j != k ==> tables[j].t == old(tables[j].t);
      assert Catalog() == old(Catalog())[k := tables[k].t];
    }

    method Apply(rec: WalRecord) returns (e: Option<Error>)
      requires Valid()
      modifies this`tables, tables.Values
      ensures Valid() && (Catalog(), e) == Applied(env, old(Catalog()), rec)
      ensures forall c :: c in tables.Values ==> c in old(tables.Values) || fresh(c)
    {
      match rec
      case CreateTable(name, schema) =>
        var t := NewTable(name, schema);
        if t.Err? {
          return Some(t.error);
        }
        PutTable(t.value);
        e := None;
      case DropTable(name) =>
        var _ := DropTableInner(name);
        e := None;
      case Insert(name, rows) =>
        e := InsertInner(name, rows);
    }

    // Appends the record of a change already made in memory, `before` being the node without it.
    method Log(cmd: WalRecord, ghost before: Engine.Node) returns (e: Option<Error>)
      requires Valid()
      requires wal != null ==>
        && before == Engine.Node(before.tables, wal.nextLsn, wal.files.AsDisk())
        && Performed(env, before.tables, cmd) == (Catalog(), Logged)
      modifies Store()
      ensures Catalog() == old(Catalog())
      ensures wal == null ==> e.None?
      ensures wal != null ==>
        e == match EncodeRecord(SchemaIn(env, Catalog()), cmd) case Ok(_) => None case Err(x) => Some(x)
      ensures wal != null ==> Node() == After(env, before, Execute(cmd))
      ensures wal != null ==> wal.files.trail == old(wal.files.trail) + Writes(env, before, Execute(cmd))
    {
      hide EncodeRecord, Frame, SchemaIn, After, Writes, Written, Performed, Valid;
      if wal == null {
        return None;
      }
      AfterExecute(env, before, cmd);
      var schemaOf := Schemas();
      var payload := WriteRecord(schemaOf, cmd);
      if payload.Err? {
        return Some(payload.error);
      }
      var _ := wal.Append(payload.value);
      e := None;
    }

    // The node has carried out the command: its new tables, LSN and files, and the writes in order.
    twostate predicate Executed(cmd: WalRecord)
      requires old(wal) != null && wal == old(wal)
      reads this, tables.Values, wal, wal.files
    {
      && Node() == After(env, old(Node()), Execute(cmd))
      && wal.files.trail == old(wal.files.trail) + Writes(env, old(Node()), Execute(cmd))
    }

    // `create_table`, `drop_table` and `insert_rows` behind their read-only check.
    method Create(name: Text, schema: Schema) returns (e: Option<Error>)
      requires Valid()
      modifies this`tables, Store()
      ensures Valid() && Catalog() == Performed(env, old(Catalog()), WalRecord.CreateTable(name, schema)).0
      ensures e == Replied(Performed(env, old(Catalog()), WalRecord.CreateTable(name, schema)).1)
      ensures wal != null ==> Executed(WalRecord.CreateTable(name, schema))
    {
      hide EncodeRecord, Frame, NewTable, SchemaIn, After, Writes, Written;
      ghost var before := NodeIfAny();
      AfterQuiet(env, before, WalRecord.CreateTable(name, schema));
      var t := NewTable(name, schema);
      if t.Err? {
        return Some(t.error);
      }
      if env.key(name) in tables {
        return Some(TableExists);
      }
      AddTable(env.key(name), t.value);
      CreateEncodes(SchemaIn(env, Catalog()), name, schema);
      e := Log(WalRecord.CreateTable(name, schema), before);
    }

    method Drop(name: Text) returns (r: Result<bool>)
      requires Valid()
      modifies this`tables, Store()
      ensures Valid() && Catalog() == Performed(env, old(Catalog()), WalRecord.DropTable(name)).0
      ensures r == Ok(env.key(name) in old(tables))
      ensures wal != null ==> Executed(WalRecord.DropTable(name))
    {
      hide EncodeRecord, Frame, SchemaIn, After, Writes, Written, Performed;
      ghost var before := NodeIfAny();
      AfterQuiet(env, before, WalRecord.DropTable(name));
      DropPerformed(env, Catalog(), name);
      var there := DropTableInner(name);
      if !there {
        return Ok(false);
      }
      var e := Log(WalRecord.DropTable(name), before);
      r := Ok(true);
    }

    method InsertAll(name: Text, rows: seq<Row>) returns (r: Result<nat>)
      requires Valid()
      modifies tables.Values, Store()
      ensures Valid() && Catalog() == Performed(env, old(Catalog()), WalRecord.Insert(name, rows)).0
      ensures r.Ok? ==> r.value == |rows| && Performed(env, old(Catalog()), WalRecord.Insert(name, rows)).1.Logged?
      ensures Performed(env, old(Catalog()), WalRecord.Insert(name, rows)).1.Refused? ==>
        r == Err(Performed(env, old(Catalog()), WalRecord.Insert(name, rows)).1.error)
      ensures wal != null ==> Executed(WalRecord.Insert(name, rows))
    {
      hide EncodeRecord, Frame, SchemaIn, Applied, After, Writes, Written;
      ghost var before := NodeIfAny();
      AfterQuiet(env, before, WalRecord.Insert(name, rows));
      var e := InsertInner(name, rows);
      if e.Some? {
        return Err(e.value);
      }
      e := Log(WalRecord.Insert(name, rows), before);
      r := if e.Some? then Err(e.value) else Ok(|rows|);
    }

    // What a client calls. A replica refuses, and nothing changes.
    method CreateTable(name: Text, schema: Schema) returns (e: Option<Error>)
      requires Valid()
      modifies this`tables, Store()
      ensures Valid()
      ensures readOnly ==> e == Some(ReadOnly) && Catalog() == old(Catalog()) && (wal != null ==> Node() == old(Node()))
      ensures !readOnly ==> Catalog() == Performed(env, old(Catalog()), WalRecord.CreateTable(name, schema)).0
      ensures !readOnly ==> e == Replied(Performed(env, old(Catalog()), WalRecord.CreateTable(name, schema)).1)
      ensures !readOnly && wal != null ==> Executed(WalRecord.CreateTable(name, schema))
    {
      hide After, Writes, Performed, Valid;
      if readOnly {
        return Some(ReadOnly);
      }
      e := Create(name, schema);
    }

    method DropTable(name: Text) returns (r: Result<bool>)
      requires Valid()
      modifies this`tables, Store()
      ensures Valid()
      ensures readOnly ==> r == Err(ReadOnly) && Catalog() == old(Catalog()) && (wal != null ==> Node() == old(Node()))
      ensures !readOnly ==> Catalog() == Performed(env, old(Catalog()), WalRecord.DropTable(name)).0
      ensures !readOnly ==> r == Ok(env.key(name) in old(tables))
      ensures !readOnly && wal != null ==> Executed(WalRecord.DropTable(name))
    {
      hide After, Writes, Performed, Valid;
      if readOnly {
        return Err(ReadOnly);
      }
      r := Drop(name);
    }

    method InsertRows(name: Text, rows: seq<Row>) returns (r: Result<nat>)
      requires Valid()
      modifies tables.Values, Store()
      ensures Valid()
      ensures readOnly ==> r == Err(ReadOnly) && Catalog() == old(Catalog()) && (wal != null ==> Node() == old(Node()))
      ensures !readOnly ==> Catalog() == Performed(env, old(Catalog()), WalRecord.Insert(name, rows)).0
      ensures !readOnly && wal != null ==> Executed(WalRecord.Insert(name, rows))
      ensures !readOnly && r.Ok? ==>
        r.value == |rows| && Performed(env, old(Catalog()), WalRecord.Insert(name, rows)).1.Logged?
      ensures !readOnly && Performed(env, old(Catalog()), WalRecord.Insert(name, rows)).1.Refused? ==>
        r == Err(Performed(env, old(Catalog()), WalRecord.Insert(name, rows)).1.error)
    {
      hide After, Writes, Performed, Valid;
      if readOnly {
        return Err(ReadOnly);
      }
      r := InsertAll(name, rows);
    }

    // The tables, in whatever order the catalogue yields them.
    method ListTables() returns (order: seq<Table>)
      ensures Lists(order, Catalog())
    {
      order := [];
      var rest := tables.Keys;
      while rest != {}
        invariant rest <= tables.Keys && |order| + |rest| == |tables.Keys|
        invariant forall i :: 0 <= i < |order| ==> order[i] in Catalog().Values
        invariant forall k :: k in tables && k !in rest ==> tables[k].t in order
        decreases rest
      {
        var k :| k in rest;
        assert Catalog()[k] == tables[k].t;
        order := order + [tables[k].t];
        rest := rest - {k};
      }
      assert Catalog().Keys == tables.Keys;
    }

    method Persist(w: Wal, raw: bytes)
      requires Valid() && w == wal
      modifies w.files
      ensures Catalog() == old(Catalog()) && Node() == old(Node()).(disk := Disk(Some(raw), Header()))
      ensures w.files.trail == old(w.files.trail)
           + [Replace(raw), Truncate, Write.Append(WAL_MAGIC), Write.Append(VERSION)]
    {
      hide Valid, Header;
      w.files.Rename(raw);
      w.Reset();
    }

    method Snapshot() returns (r: Result<nat>, ghost order: seq<Table>)
      requires Valid() && (wal != null ==> wal.nextLsn > 0)
      modifies Files()
      ensures wal == null ==> r == Err(NotPersistent)
      ensures wal != null ==>
        && r == Ok(wal.nextLsn - 1) && Lists(order, Catalog())
        && Node() == After(env, old(Node()), Snap(order))
        && wal.files.trail == old(wal.files.trail) + Writes(env, old(Node()), Snap(order))
    {
      hide EncodeSnapshot, After, Writes, Header, Lists, Valid;
      order := [];
      if wal == null {
        return Err(NotPersistent), order;
      }
      var lsn := wal.nextLsn - 1;
      var listed := ListTables();
      order := listed;
      var raw := WriteSnapshot(listed, lsn);
      AfterSnap(env, Node(), listed);
      Persist(wal, raw);
      r := Ok(lsn);
    }

    method SnapshotBytes() returns (raw: bytes, ghost order: seq<Table>)
      requires Valid() && (wal != null ==> wal.nextLsn > 0)
      ensures Lists(order, Catalog())
      ensures raw == EncodeSnapshot(order, if wal == null then 0 else wal.nextLsn - 1)
    {
      hide EncodeSnapshot, Lists, Valid;
      var listed := ListTables();
      order := listed;
      raw := WriteSnapshot(listed, if wal == null then 0 else wal.nextLsn - 1);
    }

    method PutTables(loaded: seq<Table>)
      requires Valid()
      modifies this`tables
      ensures Valid() && Catalog() == PutAll(env, old(Catalog()), loaded)
      ensures forall c :: c in tables.Values ==> c in old(tables.Values) || fresh(c)
    {
      for i := 0 to |loaded|
        invariant Valid() && PutAll(env, Catalog(), loaded[i..]) == PutAll(env, old(Catalog()), loaded)
        invariant forall c :: c in tables.Values ==> c in old(tables.Values) || fresh(c)
      {
        assert loaded[i..][0] == loaded[i] && loaded[i..][1..] == loaded[i + 1..];
        PutTable(loaded[i]);
      }
    }

    method LoadSnapshotBytes(raw: bytes) returns (r: Result<nat>)
      requires Valid()
      modifies this`tables
      ensures Valid() && (Catalog(), r) == Loaded(env, old(Catalog()), raw)
      ensures forall c :: c in tables.Values ==> c in old(tables.Values) || fresh(c)
    {
      hide DecodeSnapshot;
      var decoded := ReadSnapshot(raw);
      if decoded.Err? {
        return Err(decoded.error);
      }
      tables := map[];
      assert Catalog() == map[];
      PutTables(decoded.value.0);
      r := Ok(decoded.value.1);
    }

    // The tables of the snapshot file, if there is one, put into an empty database.
    method LoadBase(snapshot: Option<bytes>) returns (r: Result<nat>)
      requires Valid() && tables == map[]
      modifies this`tables
      ensures match Base(env, snapshot)
        case Err(e) => r == Err(e)
        case Ok((base, lsn)) => r == Ok(lsn) && Valid() && Catalog() == base && fresh(tables.Values)
    {
      hide DecodeSnapshot;
      assert Catalog() == map[];
      if snapshot.None? {
        return Ok(0);
      }
      var decoded :- ReadSnapshot(snapshot.value);
      PutTables(decoded.0);
      r := Ok(decoded.1);
    }

    // The replay loop of `open`: records that the snapshot covers are skipped.
    method ReplayAll(records: seq<RawRecord>, lsn: nat) returns (r: Result<()>)
      requires Valid()
      modifies this`tables, tables.Values
      ensures Valid()
      ensures match Replay(env, old(Catalog()), records, lsn)
        case Err(e) => r == Err(e)
        case Ok(ts) => r.Ok? && Catalog() == ts
      ensures forall c :: c in tables.Values ==> c in old(tables.Values) || fresh(c)
    {
      hide DecodeRecord, Applied;
      for i := 0 to |records|
        invariant Valid()
        invariant Replay(env, Catalog(), records[i..], lsn) == Replay(env, old(Catalog()), records, lsn)
        invariant forall c :: c in tables.Values ==> c in old(tables.Values) || fresh(c)
      {
        assert records[i..][0] == records[i] && records[i..][1..] == records[i + 1..];
        if records[i].lsn <= lsn {
          continue;
        }
        var schemaOf := Schemas();
        var rec :- ReadRecord(schemaOf, records[i].payload);
        var e := Apply(rec);
        if e.Some? {
          return Err(e.value);
        }
      }
      r := Ok(());
    }

    // The body of `open` on an empty database: the snapshot, then the records behind it.
    method Recover(files: Files) returns (r: Result<nat>)
      requires Valid() && tables == map[]
      modifies this`tables, files
      ensures match Engine.Open(env, AsWritten, old(files.AsDisk()))
        case Err(e) => r == Err(e)
        case Ok(n) =>
          r == Ok(n.next) && Valid() && Catalog() == n.tables && files.AsDisk() == n.disk && fresh(tables.Values)
    {
      hide Base, OpenLog, Replay;
      var lsn :- LoadBase(files.snapshot);
      var records :- ScanFile(files);
      var _ :- ReplayAll(records, lsn);
      r := Ok(if records == [] then 1 else records[|records| - 1].lsn + 1);
    }

    static method Open(env: Env, files: Files) returns (r: Result<Database>)
      modifies files
      ensures match Engine.Open(env, AsWritten, old(files.AsDisk()))
        case Err(e) => r == Err(e)
        case Ok(n) =>
          && r.Ok? && fresh(r.value) && fresh(r.value.tables.Values) && r.value.Valid() && r.value.env == env
          && r.value.wal != null && fresh(r.value.wal) && r.value.wal.files == files && r.value.Node() == n
    {
      hide Engine.Open;
      var db := new Database(env);
      var next :- db.Recover(files);
      db.wal := new Wal(files, next);
      assert db.Catalog() == Engine.Open(env, AsWritten, old(files.AsDisk())).value.tables;
      r := Ok(db);
    }

    method WalSince(after: nat) returns (r: Result<seq<RawRecord>>)
      modifies Files()
      ensures r == if wal == null then Ok([]) else Replication.WalSince(old(wal.files.wal), after)
    {
      if wal == null {
        return Ok([]);
      }
      r := wal.RecordsAfter(after);
    }
  }

  // A list of exactly the tables of a catalogue.
  predicate Lists(order: seq<Table>, ts: Catalog) {
    && |order| == |ts|
    && (forall i :: 0 <= i < |order| ==> order[i] in ts.Values)
    && (forall k :: k in ts ==> ts[k] in order)
  }

  // Any such list serves as the order of a snapshot in Recovery and in Replication.
  lemma ListsEnumerates(env: Env, order: seq<Table>, ts: Catalog)
    requires Lists(order, ts) && CatalogValid(env, ts) && |ts| < TWO64
    ensures Enumerates(env, order, ts)
  {
    forall i | 0 <= i < |order|
      ensures env.key(order[i].name) in ts && ts[env.key(order[i].name)] == order[i]
    {
      var k :| k in ts && ts[k] == order[i];
    }
  }

  // --- the replica's side -------------------------------------------------------------------------

  method PullOnce(db: Database, applied: nat, records: seq<RawRecord>) returns (r: Result<nat>, n: nat)
    requires db.Valid()
    modifies db`tables, db.tables.Values
    ensures db.Valid() && (db.Catalog(), r) == Pulled(db.env, old(db.Catalog()), applied, records)
    ensures r.Ok? ==> n == |records| && r.value == applied + n
    ensures forall c :: c in db.tables.Values ==> c in old(db.tables.Values) || fresh(c)
  {
    hide DecodeRecord, Applied;
    var lsn := applied;
    n := 0;
    for i := 0 to |records|
      invariant db.Valid() && n == i && lsn == applied + n
      invariant Pulled(db.env, db.Catalog(), lsn, records[i..]) == Pulled(db.env, old(db.Catalog()), applied, records)
      invariant forall c :: c in db.tables.Values ==> c in old(db.tables.Values) || fresh(c)
    {
      assert records[i..][0] == records[i] && records[i..][1..] == records[i + 1..];
      if records[i].lsn != lsn + 1 {
        return Err(LsnGap), n;
      }
      var schemaOf := db.Schemas();
      var rec := ReadRecord(schemaOf, records[i].payload);
      if rec.Err? {
        return Err(rec.error), n;
      }
      var e := db.Apply(rec.value);
      if e.Some? {
        return Err(e.value), n;
      }
      lsn := records[i].lsn;
      n := n + 1;
    }
    r := Ok(lsn);
  }

  // One turn of the follow loop: bootstrap when the place is unknown, then pull. The arguments
  // `snapshot` and `log` are what the primary answers, if it does.
  method Turn(db: Database, applied: Option<nat>, snapshot: Result<bytes>, log: nat -> Result<seq<RawRecord>>)
    returns (applied': Option<nat>)
    requires db.Valid()
    modifies db`tables, db.tables.Values
    ensures db.Valid() && Turned(db.env, Replica(old(db.Catalog()), applied), snapshot, log)
         == Replica(db.Catalog(), applied')
  {
    hide Loaded, Pulled;
    applied' := applied;
    if applied'.None? {
      if snapshot.Err? {
        return;
      }
      var l := db.LoadSnapshotBytes(snapshot.value);
      if l.Err? {
        return;
      }
      applied' := Some(l.value);
    }
    var from := applied'.value;
    var records := log(from);
    if records.Err? {
      return;
    }
    var r, n := PullOnce(db, from, records.value);
    if r.Ok? {
      applied' := Some(r.value);
    } else if r.error == LsnGap {
      applied' := None;
    }
  }

  // The same turn as steps of the two-node machine.
  function Turned(env: Env, r: Replica, snapshot: Result<bytes>, log: nat -> Result<seq<RawRecord>>): Replica {
    var booted :=
      if r.applied.Some? || snapshot.Err? then r else Received(env, r, SnapshotAnswer(snapshot.value));
    if booted.applied.None? || log(booted.applied.value).Err? then booted
    else Received(env, booted, LogAnswer(booted.applied.value, log(booted.applied.value).value))
  }

  // The primary's answers, if it gives any, are those of the cluster's primary as it stands.
  ghost predicate Answering(env: Env, numbering: Numbering, c: Cluster, order: seq<Table>, snapshot: Result<bytes>,
                            log: nat -> Result<seq<RawRecord>>)
  {
    && (snapshot.Ok? ==>
          && Enabled(env, numbering, c, ServeSnapshot(order))
          && snapshot.value == EncodeSnapshot(order, c.primary.next - 1))
    && (forall after: nat :: log(after).Ok? ==> Replication.WalSince(c.primary.disk.wal, after) == log(after))
  }

  lemma BootMoves(env: Env, numbering: Numbering, c: Cluster, order: seq<Table>) returns (d: Cluster)
    requires Enabled(env, numbering, c, ServeSnapshot(order))
    ensures Reaches(env, numbering, c, [ServeSnapshot(order), Receive], d)
    ensures var r := Received(env, c.replica, SnapshotAnswer(EncodeSnapshot(order, c.primary.next - 1)));
      d == c.(replica := r, loaded := c.loaded || r.applied.Some?, answer := None)
  {
    hide EncodeSnapshot, Received, Enumerates;
    var served := Moved(env, numbering, c, ServeSnapshot(order));
    d := Moved(env, numbering, served, Receive);
    TwoMoves(env, numbering, c, ServeSnapshot(order), served, d);
  }

  lemma PullMoves(env: Env, numbering: Numbering, c: Cluster) returns (d: Cluster)
    requires Enabled(env, numbering, c, ServeLog)
    ensures Reaches(env, numbering, c, [ServeLog, Receive], d)
    ensures var after := c.replica.applied.value;
      var records := Replication.WalSince(c.primary.disk.wal, after).value;
      d == c.(replica := Received(env, c.replica, LogAnswer(after, records)), answer := None)
  {
    hide Received;
    var served := Moved(env, numbering, c, ServeLog);
    d := Moved(env, numbering, served, Receive);
    TwoMoves(env, numbering, c, ServeLog, served, d);
  }

  // A turn of the follow loop is a sequence of moves of the machine: none, a bootstrap, a pull, or
  // a bootstrap and then a pull.
  lemma TurnedIsMoves(env: Env, numbering: Numbering, c: Cluster, order: seq<Table>, snapshot: Result<bytes>,
                      log: nat -> Result<seq<RawRecord>>)
    returns (moves: seq<Move>, d: Cluster)
    requires Answering(env, numbering, c, order, snapshot, log) && c.answer.None?
    ensures Reaches(env, numbering, c, moves, d)
    ensures d == c.(replica := Turned(env, c.replica, snapshot, log), loaded := d.loaded)
  {
    hide EncodeSnapshot, Received, Enumerates, Reaches;
    moves, d := [], c;
    assert Reaches(env, numbering, c, [], c) by {
      Stays(env, numbering, c);
    }
    if c.replica.applied.None? && snapshot.Ok? {
      d := BootMoves(env, numbering, c, order);
      moves := [ServeSnapshot(order), Receive];
    }
    if d.replica.applied.Some? && log(d.replica.applied.value).Ok? {
      var e := PullMoves(env, numbering, d);
      ReachesJoin(env, numbering, c, moves, d, [ServeLog, Receive], e);
      moves, d := moves + [ServeLog, Receive], e;
    }
  }

  lemma Stays(env: Env, numbering: Numbering, c: Cluster)
    ensures Reaches(env, numbering, c, [], c)
  {
  }
}
