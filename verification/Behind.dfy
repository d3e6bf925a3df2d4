/**
 Numbering that falls behind (`src/storage.rs`, `src/db.rs`). The log's open restarts at 1 when the
 log is empty, although the snapshot may be newer; records numbered at or below the snapshot's LSN
 are skipped by the next open. A node is safe exactly when its next LSN lies above the snapshot's.
 */
module Behind {
  import opened Bytes
  import opened Wrappers
  import opened Columns
  import opened Tables
  import opened Codec
  import opened Storage
  import opened Snapshot
  import opened Engine
  import opened Recovery

  // --- sequences of commands ------------------------------------------------------------------------

  // The node after the commands, one after the other.
  function Executed(env: Env, n: Node, cmds: seq<WalRecord>): Node
    decreases |cmds|
  {
    if cmds == [] then n else Executed(env, After(env, n, Execute(cmds[0])), cmds[1..])
  }

  predicate AllAdmissible(env: Env, n: Node, cmds: seq<WalRecord>)
    decreases |cmds|
  {
    cmds == [] ||
    (ActionOk(env, n, Execute(cmds[0])) && AllAdmissible(env, After(env, n, Execute(cmds[0])), cmds[1..]))
  }

  // The record that a command adds to the log, if it is acknowledged.
  function Entry(env: Env, n: Node, cmd: WalRecord): seq<RawRecord> {
    if Performed(env, n.tables, cmd).1.Logged? && EncodeRecord(SchemaIn(env, n.tables), cmd).Ok?
    then [RecordOf(env, n, cmd)] else []
  }

  function Entries(env: Env, n: Node, cmds: seq<WalRecord>): seq<RawRecord>
    decreases |cmds|
  {
    if cmds == [] then [] else Entry(env, n, cmds[0]) + Entries(env, After(env, n, Execute(cmds[0])), cmds[1..])
  }

  lemma EntryLogged(env: Env, n: Node, rs: seq<RawRecord>, cmd: WalRecord)
    requires LogHolds(env, n, rs) && ActionOk(env, n, Execute(cmd))
    ensures var m, more := After(env, n, Execute(cmd)), Entry(env, n, cmd);
      && LogHolds(env, m, rs + more) && m.disk.snapshot == n.disk.snapshot
      && m.next == n.next + |more| && Numbered(more, n.next)
      && (more == [] <==> !Performed(env, n.tables, cmd).1.Logged?)
  {
    hide Frame, Frames, Header, EncodeRecord, DecodeRecord, Performed, Applied, Admissible, CatalogValid;
    PerformedValid(env, n.tables, cmd);
    if Performed(env, n.tables, cmd).1.Logged? {
      LoggedReplays(env, n.tables, cmd);
      var r := RecordOf(env, n, cmd);
      var ws := Writes(env, n, Execute(cmd));
      assert ws == [Append(Frame(r))] && ws[1..] == [];
      assert AllWritten(n.disk, ws) == AllWritten(Written(n.disk, ws[0]), []);
      FramesAppend(rs, [r]);
      OneFrame(r);
      assert (Header() + Frames(rs)) + Frame(r) == Header() + (Frames(rs) + Frame(r));
    } else {
      assert rs + [] == rs;
    }
  }

  lemma {:induction false} EntriesLogged(env: Env, n: Node, rs: seq<RawRecord>, cmds: seq<WalRecord>)
    requires LogHolds(env, n, rs) && AllAdmissible(env, n, cmds)
    ensures var m, more := Executed(env, n, cmds), Entries(env, n, cmds);
      && LogHolds(env, m, rs + more) && m.disk.snapshot == n.disk.snapshot
      && m.next == n.next + |more| && Numbered(more, n.next)
    decreases |cmds|
  {
    hide LogHolds, ActionOk, After, Entry;
    if cmds == [] {
      assert rs + [] == rs;
    } else {
      var m, more := After(env, n, Execute(cmds[0])), Entry(env, n, cmds[0]);
      EntryLogged(env, n, rs, cmds[0]);
      EntriesLogged(env, m, rs + more, cmds[1..]);
      assert (rs + more) + Entries(env, m, cmds[1..]) == rs + (more + Entries(env, m, cmds[1..]));
    }
  }

  // --- what the next open makes of them -----------------------------------------------------------

  // How many of `count` records, numbered from `next` on, lie at or below the snapshot.
  function Skipped(next: nat, lsn: nat, count: nat): (k: nat)
    ensures k <= count
  {
    if next > lsn then 0 else if lsn + 1 - next < count then lsn + 1 - next else count
  }

  lemma {:induction false} SkipLow(env: Env, ts: Catalog, rs: seq<RawRecord>, start: nat, lsn: nat)
    requires Numbered(rs, start)
    ensures Replay(env, ts, rs, lsn) == Replay(env, ts, rs[Skipped(start, lsn, |rs|)..], lsn)
    decreases |rs|
  {
    hide DecodeRecord, Applied, SchemaIn;
    if rs != [] && start <= lsn {
      assert Numbered(rs[1..], start + 1);
      SkipLow(env, ts, rs[1..], start + 1, lsn);
      assert rs[1..][Skipped(start + 1, lsn, |rs| - 1)..] == rs[Skipped(start, lsn, |rs|)..];
    }
  }

  // After any admissible commands on a node whose disk holds its tables: the records numbered at or
  // below the snapshot are skipped, and the others are replayed on the tables before the commands,
  // with whatever that leads to.
  lemma NextOpen(env: Env, n: Node, base: Catalog, lsn: nat, rs: seq<RawRecord>, cmds: seq<WalRecord>)
    requires Sound(env, n, base, lsn, rs) && AllAdmissible(env, n, cmds)
    ensures var m, more := Executed(env, n, cmds), Entries(env, n, cmds);
      var left := more[Skipped(n.next, lsn, |more|)..];
      && Numbered(more, n.next) && m.next == n.next + |more|
      && (forall i :: 0 <= i < |left| ==> left[i].lsn > lsn)
      && Open(env, AsWritten, m.disk)
         == (match Replay(env, n.tables, left, lsn)
             case Ok(us) => Ok(Node(us, NextLsn(rs + more), m.disk))
             case Err(e) => Err(e))
  {
    hide Replay, Base, OpenLog, Header, Frames, CatalogValid, Entries, Executed, AllAdmissible;
    EntriesLogged(env, n, rs, cmds);
    var more := Entries(env, n, cmds);
    ReplayJoin(env, base, rs, more, lsn);
    SkipLow(env, n.tables, more, n.next, lsn);
    OpenWholeLog(rs + more);
  }

  // The next open sees the tables as they are.
  predicate Durable(env: Env, m: Node) {
    Open(env, AsWritten, m.disk).Ok? && Open(env, AsWritten, m.disk).value.tables == m.tables
  }

  lemma {:induction false} AheadStaysDurable(env: Env, n: Node, base: Catalog, lsn: nat, rs: seq<RawRecord>,
                                             cmds: seq<WalRecord>)
    requires Sound(env, n, base, lsn, rs) && n.next > lsn && AllAdmissible(env, n, cmds)
    ensures Durable(env, Executed(env, n, cmds))
    decreases |cmds|
  {
    hide Stores, Performed, Admissible, Writes, Open, EncodeRecord;
    if cmds == [] {
      var o := OpenStoresWhole(env, AsWritten, n.disk, base, lsn, rs, n.tables);
    } else {
      var m := After(env, n, Execute(cmds[0]));
      ExecuteStores(env, n, base, lsn, rs, cmds[0]);
      if Performed(env, n.tables, cmds[0]).1.Logged? {
        AheadStaysDurable(env, m, base, lsn, rs + [RecordOf(env, n, cmds[0])], cmds[1..]);
      } else {
        AheadStaysDurable(env, m, base, lsn, rs, cmds[1..]);
      }
    }
  }

  // --- tables to try it on ------------------------------------------------------------------------

  const NAME: Text := [0x61]
  const OTHER: Text := [0x62]

  // A schema of one column.
  function OneColumn(ty: DataType): Schema {
    Schema([Field(NAME, ty)])
  }

  // Table names short enough for a log frame.
  predicate ShortNames(ts: Catalog) {
    forall k :: k in ts ==> |ts[k].name| + 16 < TWO32
  }

  lemma CreateNamed(env: Env, ts: Catalog, name: Text, ty: DataType)
    requires env.key(name) !in ts && |name| < 0x100 && !ty.Vector?
    ensures Admissible(env, ts, CreateTable(name, OneColumn(ty))) && OneColumn(ty).Valid()
    ensures Performed(env, ts, CreateTable(name, OneColumn(ty)))
         == (ts[env.key(name) := NewTable(name, OneColumn(ty)).value], Logged)
  {
    var fs := OneColumn(ty).fields;
    assert fs[1..] == [] && EncAll(EncField, fs[1..]) == [];
    assert EncAll(EncField, fs) == EncField(fs[0]) + EncAll(EncField, fs[1..]);
  }

  lemma DropAny(env: Env, ts: Catalog, name: Text)
    requires env.key(name) in ts && |name| + 16 < TWO32
    ensures Admissible(env, ts, DropTable(name))
    ensures Performed(env, ts, DropTable(name)) == (ts - {env.key(name)}, Logged)
  {
  }

  // Some command changes the tables: a DROP when there is something to drop, else a CREATE.
  lemma SomethingToDo(env: Env, ts: Catalog) returns (cmd: WalRecord)
    requires CatalogValid(env, ts) && ShortNames(ts)
    ensures Admissible(env, ts, cmd)
    ensures Performed(env, ts, cmd).1.Logged? && Performed(env, ts, cmd).0 != ts
  {
    hide Admissible, Performed;
    if ts == map[] {
      cmd := CreateTable(NAME, OneColumn(DataType.I64));
      CreateNamed(env, map[], NAME, DataType.I64);
      assert env.key(NAME) in Performed(env, ts, cmd).0;
    } else {
      var k :| k in ts;
      cmd := DropTable(ts[k].name);
      DropAny(env, ts, ts[k].name);
      assert k !in Performed(env, ts, cmd).0;
    }
  }

  lemma SoundCatalog(env: Env, n: Node, base: Catalog, lsn: nat, rs: seq<RawRecord>)
    requires Sound(env, n, base, lsn, rs)
    ensures CatalogValid(env, n.tables)
  {
  }

  lemma BehindLoses(env: Env, n: Node, base: Catalog, lsn: nat, rs: seq<RawRecord>, cmd: WalRecord)
    requires Sound(env, n, base, lsn, rs) && n.next <= lsn && n.next < TWO64
    requires Admissible(env, n.tables, cmd) && Performed(env, n.tables, cmd).1.Logged?
    requires Performed(env, n.tables, cmd).0 != n.tables
    ensures AllAdmissible(env, n, [cmd]) && !Durable(env, Executed(env, n, [cmd]))
  {
    hide Stores, Performed, Admissible, Writes, Open, EncodeRecord;
    var m := After(env, n, Execute(cmd));
    assert [cmd][1..] == [];
    assert Executed(env, n, [cmd]) == m == Executed(env, m, []);
    NextOpen(env, n, base, lsn, rs, [cmd]);
  }

  // A node is ahead of its snapshot if and only if the next open sees the outcome of every
  // admissible sequence of commands.
  lemma DurableIffAhead(env: Env, n: Node, base: Catalog, lsn: nat, rs: seq<RawRecord>)
    requires Sound(env, n, base, lsn, rs) && n.next < TWO64 && ShortNames(n.tables)
    ensures Ahead(env, n) <==>
      forall cmds :: AllAdmissible(env, n, cmds) ==> Durable(env, Executed(env, n, cmds))
  {
    hide Performed, Admissible, Durable, Stores, AllAdmissible, Executed;
    AheadMeans(env, n, base, lsn, rs);
    if n.next > lsn {
      forall cmds | AllAdmissible(env, n, cmds) ensures Durable(env, Executed(env, n, cmds)) {
        AheadStaysDurable(env, n, base, lsn, rs, cmds);
      }
    } else {
      var cmd := SomethingToDo(env, n.tables) by {
        SoundCatalog(env, n, base, lsn, rs);
      }
      BehindLoses(env, n, base, lsn, rs, cmd);
    }
  }

  // --- restarting behind a snapshot ---------------------------------------------------------------

  // What the next open makes of records numbered from 1 on, behind a snapshot of `ts` at `lsn`.
  function Reopened(env: Env, ts: Catalog, lsn: nat, more: seq<RawRecord>, disk: Disk): Result<Node> {
    match Replay(env, ts, if lsn < |more| then more[lsn..] else [], lsn)
    case Ok(us) => Ok(Node(us, |more| + 1, disk))
    case Err(e) => Err(e)
  }

  lemma AllNumbered(more: seq<RawRecord>)
    requires Numbered(more, 1)
    ensures [] + more == more && NextLsn(more) == |more| + 1
    ensures more[|more|..] == []
  {
  }

  lemma RestartedThen(env: Env, o: Node, lsn: nat, cmds: seq<WalRecord>)
    requires Sound(env, o, o.tables, lsn, []) && o.next == 1 && lsn >= 1 && AllAdmissible(env, o, cmds)
    ensures Open(env, AsWritten, Executed(env, o, cmds).disk)
         == Reopened(env, o.tables, lsn, Entries(env, o, cmds), Executed(env, o, cmds).disk)
  {
    hide Sound, Open, Replay, Executed, AllAdmissible, Entries;
    NextOpen(env, o, o.tables, lsn, [], cmds);
    AllNumbered(Entries(env, o, cmds));
  }

  // Restarting after a snapshot with nothing written behind it: the numbering falls back to 1. Of
  // the commands then acknowledged, as many as the snapshot's LSN says are skipped at the next open,
  // and the others are replayed without them, with whatever that leads to.
  lemma RestartAfterSnapshot(env: Env, n: Node, order: seq<Table>) returns (o: Node)
    requires Good(env, n) && ActionOk(env, n, Snap(order)) && n.next > 1
    ensures Open(env, AsWritten, After(env, n, Snap(order)).disk) == Ok(o)
    ensures o.tables == n.tables && o.next == 1 && !Ahead(env, o) && Sound(env, o, o.tables, n.next - 1, [])
    ensures forall cmds :: AllAdmissible(env, o, cmds) ==>
      Open(env, AsWritten, Executed(env, o, cmds).disk)
      == Reopened(env, o.tables, n.next - 1, Entries(env, o, cmds), Executed(env, o, cmds).disk)
  {
    hide Stores, Enumerates, EncodeSnapshot, Header, Open, Replay, Executed, AllAdmissible, Entries, Reopened;
    var base, lsn, rs :| Sound(env, n, base, lsn, rs) && n.next > lsn;
    SoundLogs(env, n, base, lsn, rs);
    SnapStores(env, n, rs, order);
    SnapWrites(n.disk, EncodeSnapshot(order, n.next - 1));
    var m := After(env, n, Snap(order));
    o := OpenStoresWhole(env, AsWritten, m.disk, n.tables, n.next - 1, [], n.tables);
    AheadMeans(env, o, n.tables, n.next - 1, []);
    forall cmds | AllAdmissible(env, o, cmds)
      ensures Open(env, AsWritten, Executed(env, o, cmds).disk)
           == Reopened(env, o.tables, n.next - 1, Entries(env, o, cmds), Executed(env, o, cmds).disk)
    {
      RestartedThen(env, o, n.next - 1, cmds);
    }
  }

  // The first node with one empty table of one column.
  lemma AfterCreate(env: Env, ty: DataType) returns (n: Node)
    requires !ty.Vector?
    ensures n == After(env, FirstNode(), Execute(CreateTable(NAME, OneColumn(ty))))
    ensures Good(env, n) && n.next == 2
    ensures OneColumn(ty).Valid() && n.tables == map[env.key(NAME) := NewTable(NAME, OneColumn(ty)).value]
  {
    hide Header, Stores, Performed, Admissible, Writes;
    var create := CreateTable(NAME, OneColumn(ty));
    n := After(env, FirstNode(), Execute(create));
    FirstOpen(env, AsWritten);
    CreateNamed(env, map[], NAME, ty);
    var base, lsn, rs :| Sound(env, FirstNode(), base, lsn, rs) && FirstNode().next > lsn;
    ExecuteStores(env, FirstNode(), base, lsn, rs, create);
  }

  lemma OneCommand(env: Env, n: Node, cmd: WalRecord)
    requires ActionOk(env, n, Execute(cmd))
    ensures AllAdmissible(env, n, [cmd]) && Executed(env, n, [cmd]) == After(env, n, Execute(cmd))
    ensures Entries(env, n, [cmd]) == Entry(env, n, cmd)
  {
    hide ActionOk, After, Entry;
    var m := After(env, n, Execute(cmd));
    assert [cmd][1..] == [];
    assert AllAdmissible(env, m, []) && Executed(env, m, []) == m && Entries(env, m, []) == [];
  }

  lemma TwoCommands(env: Env, n: Node, first: WalRecord, second: WalRecord)
    requires ActionOk(env, n, Execute(first)) && ActionOk(env, After(env, n, Execute(first)), Execute(second))
    ensures var m := After(env, n, Execute(first));
      && AllAdmissible(env, n, [first, second])
      && Executed(env, n, [first, second]) == After(env, m, Execute(second))
      && Entries(env, n, [first, second]) == Entry(env, n, first) + Entry(env, m, second)
  {
    hide ActionOk, After, Entry;
    assert [first, second][1..] == [second];
    OneCommand(env, After(env, n, Execute(first)), second);
  }

  // The smallest history that loses an acknowledged write: create a table, take a snapshot,
  // restart, drop the table, restart. The table is back.
  lemma ForgottenDrop(env: Env) returns (n1: Node, n2: Node, n3: Node, n4: Node, n5: Node)
    ensures OneColumn(DataType.I64).Valid()
    ensures var t := NewTable(NAME, OneColumn(DataType.I64)).value;
      && n1 == After(env, FirstNode(), Execute(CreateTable(NAME, OneColumn(DataType.I64))))
      && n2 == After(env, n1, Snap([t]))
      && Open(env, AsWritten, n2.disk) == Ok(n3)
      && n4 == After(env, n3, Execute(DropTable(NAME)))
      && Performed(env, n3.tables, DropTable(NAME)).1.Logged?
      && Open(env, AsWritten, n4.disk) == Ok(n5)
      && n4.tables == map[]
      && n5.tables == map[env.key(NAME) := t]
  {
    hide Open, Header, EncodeSnapshot, Stores, Writes, Admissible;
    n1 := AfterCreate(env, DataType.I64);
    var t := NewTable(NAME, OneColumn(DataType.I64)).value;
    assert Enumerates(env, [t], n1.tables) by {
      assert [t][0] == t;
    }
    n2 := After(env, n1, Snap([t]));
    n3 := RestartAfterSnapshot(env, n1, [t]);
    DropAny(env, n3.tables, NAME);
    n4 := After(env, n3, Execute(DropTable(NAME)));
    OneCommand(env, n3, DropTable(NAME));
    assert |Entry(env, n3, DropTable(NAME))| <= 1;
    n5 := Open(env, AsWritten, n4.disk).value;
    assert n4.tables == map[];
  }

  const ONE_ROW: seq<Row> := [[Value.I64(7)]]

  lemma InsertOther(env: Env, ts: Catalog)
    requires env.key(OTHER) in ts && OneColumn(DataType.I64).Valid()
    requires ts[env.key(OTHER)] == NewTable(OTHER, OneColumn(DataType.I64)).value
    ensures Admissible(env, ts, WalRecord.Insert(OTHER, ONE_ROW))
    ensures Performed(env, ts, WalRecord.Insert(OTHER, ONE_ROW)).1.Logged?
    ensures EncodeRecord(SchemaIn(env, ts), WalRecord.Insert(OTHER, ONE_ROW)).Ok?
  {
    var t := ts[env.key(OTHER)];
    assert ONE_ROW[1..] == [] && ONE_ROW[0] == [Value.I64(7)];
    assert Accepted(t.schema, ONE_ROW[0]);
    assert EncAll(EncRow, ONE_ROW) == EncRow(ONE_ROW[0]) + EncAll(EncRow, ONE_ROW[1..]);
    assert EncRow(ONE_ROW[0]) == EncValue(ONE_ROW[0][0]) + EncAll(EncValue, ONE_ROW[0][1..]);
    WithRowAllOrNothing(env, t, ONE_ROW[0]);
    var (u, e) := WithRow(env, t, ONE_ROW[0]);
    assert WithRows(env, u, []) == (u, None);
  }

  lemma ReplayFails(env: Env, ts: Catalog, r: RawRecord, lsn: nat)
    requires r.lsn > lsn && DecodeRecord(SchemaIn(env, ts), r.payload).Err?
    ensures Replay(env, ts, [r], lsn) == Err(DecodeRecord(SchemaIn(env, ts), r.payload).error)
  {
  }

  // A node restarted at 1 behind a snapshot at 1: creating a table and inserting into it.
  lemma CreateAndInsert(env: Env, o: Node) returns (m: Node)
    requires Sound(env, o, o.tables, 1, []) && o.next == 1 && env.key(OTHER) !in o.tables
    ensures var create, insert := CreateTable(OTHER, OneColumn(DataType.I64)), WalRecord.Insert(OTHER, ONE_ROW);
      && m == Executed(env, o, [create, insert]) && AllAdmissible(env, o, [create, insert])
      && Performed(env, o.tables, create).1.Logged?
      && Performed(env, After(env, o, Execute(create)).tables, insert).1.Logged?
      && Open(env, AsWritten, m.disk) == Err(UnknownTable)
  {
    hide Open, Sound, LogHolds, Writes, Admissible, Performed, EncodeRecord, DecodeRecord, Entries, Executed, Replay,
         AllAdmissible;
    var create, insert := CreateTable(OTHER, OneColumn(DataType.I64)), WalRecord.Insert(OTHER, ONE_ROW);
    var p := After(env, o, Execute(create));
    CreateNamed(env, o.tables, OTHER, DataType.I64);
    SoundLogs(env, o, o.tables, 1, []);
    EntryLogged(env, o, [], create);
    InsertOther(env, p.tables);
    TwoCommands(env, o, create, insert);
    m := Executed(env, o, [create, insert]);
    var r := RecordOf(env, p, insert);
    assert Entries(env, o, [create, insert])[1..] == [r];
    InsertUnknown(SchemaIn(env, p.tables), SchemaIn(env, o.tables), OTHER, ONE_ROW);
    ReplayFails(env, o.tables, r, 1);
    RestartedThen(env, o, 1, [create, insert]);
  }

  // Two acknowledged commands are enough to make the directory unreadable: create a table, take a
  // snapshot, restart, create another table, insert into it. The creation is skipped, the
  // insertion is not, and open fails on it.
  lemma UnopenableLog(env: Env) returns (o: Node, m: Node)
    requires env.key(NAME) != env.key(OTHER)
    ensures OneColumn(DataType.I64).Valid()
    ensures var t := NewTable(NAME, OneColumn(DataType.I64)).value;
      var create, insert := CreateTable(OTHER, OneColumn(DataType.I64)), WalRecord.Insert(OTHER, ONE_ROW);
      var n := After(env, FirstNode(), Execute(CreateTable(NAME, OneColumn(DataType.I64))));
      && Open(env, AsWritten, After(env, n, Snap([t])).disk) == Ok(o)
      && m == Executed(env, o, [create, insert]) && AllAdmissible(env, o, [create, insert])
      && Performed(env, o.tables, create).1.Logged?
      && Performed(env, After(env, o, Execute(create)).tables, insert).1.Logged?
      && Open(env, AsWritten, m.disk) == Err(UnknownTable)
  {
    hide Open, EncodeSnapshot, Sound, Writes, Admissible, Performed, Executed, AllAdmissible;
    var n := AfterCreate(env, DataType.I64);
    var t := NewTable(NAME, OneColumn(DataType.I64)).value;
    assert Enumerates(env, [t], n.tables) by {
      assert [t][0] == t;
    }
    o := RestartAfterSnapshot(env, n, [t]);
    m := CreateAndInsert(env, o);
  }
}
