/**
 A replica behind a primary that numbers its records anew (`src/replication.rs`, `src/storage.rs`).
 The log's open restarts at 1 when the log is empty; a replica at the place L of the old numbering
 then takes record L + 1 of the new one for the next, and never sees the first L.
 */
module Renumbered {
  import opened Wrappers
  import opened Columns
  import opened Tables
  import opened Storage
  import opened Snapshot
  import opened Engine
  import opened Recovery
  import opened Behind
  import opened Replication

  const THIRD: Text := [0x63]

  function Create(name: Text): WalRecord {
    CreateTable(name, OneColumn(DataType.I64))
  }

  function Made(name: Text): Table
    requires OneColumn(DataType.I64).Valid()
  {
    NewTable(name, OneColumn(DataType.I64)).value
  }

  predicate Distinct(env: Env) {
    && env.key(NAME) != env.key(OTHER) && env.key(NAME) != env.key(THIRD) && env.key(OTHER) != env.key(THIRD)
  }

  // The primary after the restart: two more tables, in the records 1 and 2.
  lemma TwoMore(env: Env, o: Node) returns (p: Node, m: Node)
    requires Sound(env, o, o.tables, 1, []) && o.next == 1 && Distinct(env)
    requires OneColumn(DataType.I64).Valid() && o.tables == map[env.key(NAME) := Made(NAME)]
    ensures p == After(env, o, Execute(Create(OTHER))) && m == After(env, p, Execute(Create(THIRD)))
    ensures ActionOk(env, o, Execute(Create(OTHER))) && ActionOk(env, p, Execute(Create(THIRD)))
    ensures p.tables == o.tables[env.key(OTHER) := Made(OTHER)] && m.tables == p.tables[env.key(THIRD) := Made(THIRD)]
    ensures EncodeRecord(SchemaIn(env, p.tables), Create(THIRD)).Ok?
    ensures p.next == 2 && WalSince(m.disk.wal, 1) == Ok([RecordOf(env, p, Create(THIRD))])
    ensures Performed(env, o.tables, Create(OTHER)).1.Logged? && Performed(env, p.tables, Create(THIRD)).1.Logged?
  {
    hide Sound, LogHolds, Writes, Admissible, Performed, EncodeRecord, DecodeRecord, OpenLog;
    p := After(env, o, Execute(Create(OTHER)));
    m := After(env, p, Execute(Create(THIRD)));
    CreateNamed(env, o.tables, OTHER, DataType.I64);
    CreateNamed(env, p.tables, THIRD, DataType.I64);
    SoundLogs(env, o, o.tables, 1, []);
    EntryLogged(env, o, [], Create(OTHER));
    var a := Entry(env, o, Create(OTHER));
    EntryLogged(env, p, [] + a, Create(THIRD));
    var b := Entry(env, p, Create(THIRD));
    WalOf(env, m, [] + a + b);
    assert [] + a + b == [a[0], b[0]];
    SecondOnly(a[0], b[0]);
  }

  lemma SecondOnly(a: RawRecord, b: RawRecord)
    requires a.lsn == 1 && b.lsn == 2
    ensures Later([a, b], 1) == [b]
  {
    assert [a, b][1..] == [b] && [b][1..] == [];
    assert Later([b], 1) == [b] + Later([], 1);
  }

  lemma WalOf(env: Env, m: Node, rs: seq<RawRecord>)
    requires LogHolds(env, m, rs)
    ensures forall after: nat :: WalSince(m.disk.wal, after) == Ok(Later(rs, after))
  {
    OpenWholeLog(rs);
    hide Header, Frames, OpenLog;
  }

  // A record that creates a table does so on any tables.
  lemma CreateAnywhere(env: Env, ts: Catalog, us: Catalog, name: Text)
    requires |name| < 0x100 && OneColumn(DataType.I64).Valid()
    ensures EncodeRecord(SchemaIn(env, us), Create(name)).Ok?
    ensures DecodeRecord(SchemaIn(env, ts), EncodeRecord(SchemaIn(env, us), Create(name)).value) == Ok(Create(name))
    ensures Applied(env, ts, Create(name)) == (ts[env.key(name) := Made(name)], None)
  {
    assert EncodeRecord(SchemaIn(env, us), Create(name)) == EncodeRecord(SchemaIn(env, ts), Create(name));
    hide EncodeRecord, DecodeRecord;
    RecordBack(SchemaIn(env, ts), Create(name));
  }

  lemma PullOne(env: Env, ts: Catalog, lsn: nat, r: RawRecord, name: Text)
    requires r.lsn == lsn + 1 && DecodeRecord(SchemaIn(env, ts), r.payload) == Ok(Create(name))
    requires OneColumn(DataType.I64).Valid()
    requires Applied(env, ts, Create(name)) == (ts[env.key(name) := Made(name)], None)
    ensures Pulled(env, ts, lsn, [r]) == (ts[env.key(name) := Made(name)], Ok(lsn + 1))
  {
    hide DecodeRecord, Applied;
    assert [r][1..] == [];
    PullNothing(env, ts[env.key(name) := Made(name)], lsn + 1);
  }

  // The history of the primary.
  const HISTORY: seq<WalRecord> := [Create(NAME), Create(OTHER), Create(THIRD)]

  lemma CreatesNext(env: Env, h: seq<WalRecord>, name: Text)
    requires |name| < 0x100 && OneColumn(DataType.I64).Valid() && env.key(name) !in At(env, h, |h|)
    ensures At(env, h + [Create(name)], |h| + 1) == At(env, h, |h|)[env.key(name) := Made(name)]
  {
    hide Performed, At;
    CreateNamed(env, At(env, h, |h|), name, DataType.I64);
    AtNext(env, h, Create(name));
  }

  // No prefix of it has the third table without the second.
  lemma NoSuchPrefix(env: Env, j: nat)
    requires Distinct(env) && OneColumn(DataType.I64).Valid() && j <= 3
    ensures env.key(THIRD) in At(env, HISTORY, j) ==> env.key(OTHER) in At(env, HISTORY, j)
  {
    var a, b, c := Create(NAME), Create(OTHER), Create(THIRD);
    assert At(env, [], 0) == map[];
    hide At, Create, Made, Schema.Valid;
    assert [] + [a] == [a] && [a] + [b] == [a, b] && [a, b] + [c] == HISTORY;
    assert [a] + [b, c] == HISTORY && [] + HISTORY == HISTORY;
    CreatesNext(env, [], NAME);
    assert At(env, [a], 1) == map[env.key(NAME) := Made(NAME)];
    CreatesNext(env, [a], OTHER);
    CreatesNext(env, [a, b], THIRD);
    AtPrefix(env, [], HISTORY, 0);
    AtPrefix(env, [a], [b, c], 1);
    AtPrefix(env, [a, b], [c], 2);
  }

  // Create `a`, take a snapshot; the replica loads it and is at place 1. The primary restarts on its
  // empty log and numbers from 1 again; it creates `b` in record 1 and `c` in record 2. The replica
  // pulls what comes after 1, accepts record 2, and holds `a` and `c`: no prefix of the history.
  lemma SkippedRecord(env: Env) returns (n1: Node, n2: Node, n3: Node, n4: Node, n5: Node, r: Replica, r': Replica)
    requires Distinct(env)
    ensures OneColumn(DataType.I64).Valid()
    ensures n1 == After(env, FirstNode(), Execute(Create(NAME))) && n2 == After(env, n1, Snap([Made(NAME)]))
    ensures Open(env, AsWritten, n2.disk) == Ok(n3) && !Ahead(env, n3)
    ensures n4 == After(env, n3, Execute(Create(OTHER))) && n5 == After(env, n4, Execute(Create(THIRD)))
    ensures Performed(env, n3.tables, Create(OTHER)).1.Logged? && Performed(env, n4.tables, Create(THIRD)).1.Logged?
    ensures r == Received(env, Replica(map[], None), SnapshotAnswer(EncodeSnapshot([Made(NAME)], 1)))
    ensures r == Replica(n1.tables, Some(1)) && WalSince(n5.disk.wal, 1).Ok?
    ensures r' == Received(env, r, LogAnswer(1, WalSince(n5.disk.wal, 1).value))
    ensures r'.applied == Some(2) && env.key(OTHER) !in r'.tables && env.key(THIRD) in r'.tables
    ensures !Follows(env, HISTORY, r')
  {
    hide Open, EncodeSnapshot, Sound, Writes, Admissible, Performed, EncodeRecord, DecodeRecord, WalSince, Good, At,
         Ahead, Applied;
    n1 := AfterCreate(env, DataType.I64);
    var t := Made(NAME);
    assert Enumerates(env, [t], n1.tables) by {
      assert [t][0] == t;
    }
    n2 := After(env, n1, Snap([t]));
    n3 := RestartAfterSnapshot(env, n1, [t]);
    n4, n5 := TwoMore(env, n3);
    LoadsOne(env, n1.tables, t);
    r := Replica(n1.tables, Some(1));
    CreateAnywhere(env, n1.tables, n4.tables, THIRD);
    PullOne(env, n1.tables, 1, RecordOf(env, n4, Create(THIRD)), THIRD);
    r' := Replica(n1.tables[env.key(THIRD) := Made(THIRD)], Some(2));
    forall j: nat | j <= 3 ensures r'.tables != At(env, HISTORY, j) {
      NoSuchPrefix(env, j);
    }
  }

  lemma LoadsOne(env: Env, ts: Catalog, t: Table)
    requires OneColumn(DataType.I64).Valid() && t == Made(NAME) && ts == map[env.key(NAME) := t]
    ensures forall us :: Loaded(env, us, EncodeSnapshot([t], 1)) == (ts, Ok(1))
  {
    hide EncodeSnapshot, DecodeSnapshot;
    NewTableIsEmpty(NAME, OneColumn(DataType.I64));
    SnapshotRoundTrip([t], 1);
    assert [t][0] == t && [t][1..] == [];
    assert PutAll(env, map[], [t]) == PutAll(env, map[env.key(NAME) := t], []);
  }
}
