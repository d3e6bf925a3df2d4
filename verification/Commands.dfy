/**
 What commands do to tables (`src/db.rs`), and what therefore survives: no command but a DROP of the
 table takes anything away from it.
 */
module Commands {
  import opened Bytes
  import opened Wrappers
  import opened Columns
  import opened Tables
  import opened Storage
  import opened Engine
  import opened Recovery
  import opened Twins

  // --- one command ------------------------------------------------------------------------------------

  // A table is created where there was none, and is empty. A name that is taken is refused.
  lemma CreateMakesEmpty(env: Env, ts: Catalog, name: Text, schema: Schema)
    requires |schema.fields| < TWO64
    ensures var (us, reply) := Performed(env, ts, CreateTable(name, schema));
      var k := env.key(name);
      && (reply.Logged? <==> schema.Valid() && k !in ts)
      && (schema.Valid() && k in ts ==> reply == Refused(TableExists))
      && (reply.Logged? ==>
            && us.Keys == ts.Keys + {k} && (forall j :: j in ts ==> us[j] == ts[j])
            && us[k].Valid() && us[k].name == name && us[k].schema == schema && us[k].Rows() == [])
      && (!reply.Logged? ==> us == ts)
  {
    if schema.Valid() {
      NewTableIsEmpty(name, schema);
    }
  }

  // A table is dropped where there was one, and no other is touched.
  lemma DropTakesOne(env: Env, ts: Catalog, name: Text)
    ensures var (us, reply) := Performed(env, ts, DropTable(name));
      && (reply.Logged? <==> env.key(name) in ts) && (reply.NoSuchTable? <==> env.key(name) !in ts)
      && us.Keys == ts.Keys - {env.key(name)} && forall k :: k in us ==> us[k] == ts[k]
  {
  }

  // Rows go behind those of the table they are for, all of them if they are acknowledged, and no other
  // table is touched.
  lemma InsertAppends(env: Env, ts: Catalog, name: Text, rows: seq<Row>)
    requires CatalogValid(env, ts) && Sized(env, ts, WalRecord.Insert(name, rows))
    ensures var (us, reply) := Performed(env, ts, WalRecord.Insert(name, rows));
      var k := env.key(name);
      && (reply.Logged? <==> k in ts && forall i :: 0 <= i < |rows| ==> Accepted(ts[k].schema, rows[i]))
      && (k !in ts ==> reply == Refused(UnknownTable))
      && us.Keys == ts.Keys && (forall j :: j in us && j != k ==> us[j] == ts[j])
      && (k in ts ==>
            && us[k].Valid() && us[k].name == ts[k].name && us[k].schema == ts[k].schema
            && ts[k].Rows() <= us[k].Rows()
            && (reply.Logged? ==> us[k].Rows() == ts[k].Rows() + WidenedRows(env, ts[k].schema, rows)))
  {
    hide Accepted, RoomForRows, WithRows, EncodeRecord;
    var k := env.key(name);
    if k in ts {
      WithRowsAppends(env, ts[k], rows);
      var n := AcceptedPrefix(ts[k].schema, rows);
      assert n == |rows| ==> rows[..n] == rows;
    }
  }

  // --- a list of commands -----------------------------------------------------------------------------

  predicate Drops(env: Env, cmd: WalRecord, k: Text) {
    cmd.DropTable? && env.key(cmd.name) == k
  }

  // The same table, with more rows behind those it had.
  predicate Grown(t: Table, u: Table) {
    t.Valid() && u.Valid() && u.name == t.name && u.schema == t.schema && t.Rows() <= u.Rows()
  }

  predicate Keeps(a: Catalog, b: Catalog, k: Text) {
    k in a && k in b && Grown(a[k], b[k])
  }

  lemma KeepsOn(a: Catalog, b: Catalog, c: Catalog, k: Text)
    requires Keeps(a, b, k) && Keeps(b, c, k)
    ensures Keeps(a, c, k)
  {
    hide Table.Valid, Table.Rows;
  }

  lemma CommandValid(env: Env, ts: Catalog, cmd: WalRecord)
    requires CatalogValid(env, ts) && Sized(env, ts, cmd)
    ensures CatalogValid(env, Performed(env, ts, cmd).0)
  {
    hide Performed, Sized, CatalogValid, Redone, Logs, TableUnder;
    TwinnedSelf(env, ts);
    TwinsTake(env, ts, ts, cmd);
  }

  lemma CreateKeeps(env: Env, ts: Catalog, cmd: WalRecord, k: Text)
    requires cmd.CreateTable? && CatalogValid(env, ts) && Sized(env, ts, cmd) && k in ts
    ensures Keeps(ts, Performed(env, ts, cmd).0, k)
  {
    ItselfGrown(env, ts, k);
    CreateMakesEmpty(env, ts, cmd.name, cmd.schema);
    hide Performed, Grown, EncodeRecord;
  }

  lemma InsertKeeps(env: Env, ts: Catalog, cmd: WalRecord, k: Text)
    requires cmd.Insert? && CatalogValid(env, ts) && Sized(env, ts, cmd) && k in ts
    ensures Keeps(ts, Performed(env, ts, cmd).0, k)
  {
    ItselfGrown(env, ts, k);
    InsertAppends(env, ts, cmd.table, cmd.rows);
    hide Performed, Sized, Table.Valid, Table.Rows;
  }

  lemma CommandKeeps(env: Env, ts: Catalog, cmd: WalRecord, k: Text)
    requires CatalogValid(env, ts) && Sized(env, ts, cmd) && k in ts && !Drops(env, cmd, k)
    ensures CatalogValid(env, Performed(env, ts, cmd).0) && Keeps(ts, Performed(env, ts, cmd).0, k)
  {
    hide Performed, Sized, Grown, CatalogValid;
    CommandValid(env, ts, cmd);
    match cmd
    case CreateTable(name, schema) => CreateKeeps(env, ts, cmd, k);
    case DropTable(name) =>
      ItselfGrown(env, ts, k);
      DropTakesOne(env, ts, name);
    case Insert(name, rows) => InsertKeeps(env, ts, cmd, k);
  }

  predicate AllSized(env: Env, ts: Catalog, cmds: seq<WalRecord>)
    decreases |cmds|
  {
    cmds == [] || (Sized(env, ts, cmds[0]) && AllSized(env, Performed(env, ts, cmds[0]).0, cmds[1..]))
  }

  // However many commands are executed, one after the other: a table that none of them drops is still
  // there, with its schema, and with the rows it had before all others.
  lemma {:induction false} CommandsKeep(env: Env, ts: Catalog, cmds: seq<WalRecord>, k: Text)
    requires CatalogValid(env, ts) && AllSized(env, ts, cmds) && k in ts
    requires forall i :: 0 <= i < |cmds| ==> !Drops(env, cmds[i], k)
    ensures CatalogValid(env, Ideal(env, ts, cmds)) && Keeps(ts, Ideal(env, ts, cmds), k)
    decreases |cmds|
  {
    hide Performed, Sized, Grown, CatalogValid, Drops;
    if cmds == [] {
      ItselfGrown(env, ts, k);
    } else {
      var us := Performed(env, ts, cmds[0]).0;
      CommandKeeps(env, ts, cmds[0], k);
      assert forall i :: 0 <= i < |cmds[1..]| ==> cmds[1..][i] == cmds[i + 1];
      CommandsKeep(env, us, cmds[1..], k);
      KeepsOn(ts, us, Ideal(env, us, cmds[1..]), k);
    }
  }

  lemma ItselfGrown(env: Env, ts: Catalog, k: Text)
    requires CatalogValid(env, ts) && k in ts
    ensures Keeps(ts, ts, k)
  {
  }

  // --- runs -------------------------------------------------------------------------------------------

  predicate EventDrops(env: Env, ev: Event, k: Text) {
    ev.a.Execute? && Drops(env, ev.a.cmd, k)
  }

  lemma EventKeeps(env: Env, numbering: Numbering, n: Node, ev: Event, k: Text)
    requires Good(env, n) && Possible(env, n, ev) && k in n.tables && !EventDrops(env, ev, k)
    ensures Step(env, numbering, n, ev).Ok? && Keeps(n.tables, Step(env, numbering, n, ev).value.tables, k)
  {
    hide Performed, Sized, Grown, CatalogValid, Drops, Stores, Open, Writes, CrashState, PartialHeader, SameBits,
         InFull, Survives;
    WholeCatalog(env, n);
    StepGood(env, numbering, n, ev);
    var kept := Kept(env, n, ev);
    if kept == [] {
      ItselfGrown(env, n.tables, k);
    } else {
      assert kept == [ev.a.cmd];
      IdealOne(env, n.tables, ev.a.cmd);
      CommandKeeps(env, n.tables, ev.a.cmd, k);
    }
  }

  lemma {:induction false} RunKeeps(env: Env, numbering: Numbering, n: Node, evs: seq<Event>, k: Text)
    requires Whole(env, n) && (evs != [] ==> Good(env, n)) && PossibleRun(env, numbering, n, evs) && k in n.tables
    requires forall i :: 0 <= i < |evs| ==> !EventDrops(env, evs[i], k)
    ensures Run(env, numbering, n, evs).Ok? && Keeps(n.tables, Run(env, numbering, n, evs).value.tables, k)
    decreases |evs|
  {
    hide Performed, Possible, Step, Open, Ahead, Stores, Grown, CatalogValid, EventDrops, Kept;
    if evs == [] {
      WholeCatalog(env, n);
      ItselfGrown(env, n.tables, k);
    } else {
      StepGood(env, numbering, n, evs[0]);
      EventKeeps(env, numbering, n, evs[0], k);
      var m := Step(env, numbering, n, evs[0]).value;
      assert forall i :: 0 <= i < |evs[1..]| ==> evs[1..][i] == evs[i + 1];
      RunKeeps(env, numbering, m, evs[1..], k);
      KeepsOn(n.tables, m.tables, Run(env, numbering, m, evs[1..]).value.tables, k);
    }
  }

  // A run in two parts, the first of which leads to `m`.
  lemma {:induction false} SplitKeeps(env: Env, numbering: Numbering, n: Node, before: seq<Event>, after: seq<Event>,
                                      k: Text)
    returns (m: Node)
    requires Whole(env, n) && (before + after != [] ==> Good(env, n))
    requires PossibleRun(env, numbering, n, before + after)
    ensures Run(env, numbering, n, before) == Ok(m) && Run(env, numbering, n, before + after).Ok?
    ensures k in m.tables && (forall i :: 0 <= i < |after| ==> !EventDrops(env, after[i], k)) ==>
      Keeps(m.tables, Run(env, numbering, n, before + after).value.tables, k)
    decreases |before|
  {
    hide Performed, Possible, Step, Open, Ahead, Stores, Keeps, CatalogValid, EventDrops, Kept;
    if before == [] {
      m := n;
      assert before + after == after;
      RunExact(env, numbering, n, after);
      if k in m.tables && forall i :: 0 <= i < |after| ==> !EventDrops(env, after[i], k) {
        RunKeeps(env, numbering, n, after, k);
      }
    } else {
      assert (before + after)[0] == before[0] && (before + after)[1..] == before[1..] + after;
      StepGood(env, numbering, n, before[0]);
      var next := Step(env, numbering, n, before[0]).value;
      m := SplitKeeps(env, numbering, next, before[1..], after, k);
    }
  }

  // From a new directory, through any run with crashes and restarts: once a table is there, as long as
  // nobody drops it, the next open finds it with the same schema and, before all others, the rows it had.
  lemma RowsAreNeverLost(env: Env, numbering: Numbering, before: seq<Event>, after: seq<Event>, k: Text)
    returns (m: Node, o: Node)
    requires PossibleRun(env, numbering, FirstNode(), before + after)
    ensures Run(env, numbering, FirstNode(), before) == Ok(m)
    ensures Run(env, numbering, FirstNode(), before + after).Ok?
    ensures Open(env, numbering, Run(env, numbering, FirstNode(), before + after).value.disk) == Ok(o)
    ensures k in m.tables && (forall i :: 0 <= i < |after| ==> !EventDrops(env, after[i], k)) ==>
      Keeps(m.tables, o.tables, k)
  {
    hide Open, PossibleRun, Run, Stores, EventDrops, Keeps, AllKept, Ideal;
    FirstOpen(env, numbering);
    RecoveryIsExact(env, numbering, before + after);
    m := SplitKeeps(env, numbering, FirstNode(), before, after, k);
    o := Open(env, numbering, Run(env, numbering, FirstNode(), before + after).value.disk).value;
  }
}
