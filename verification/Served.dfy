/**
 The tables that recovery rebuilds are frames that queries can be computed on: columns of one length
 each, and booleans stored as 0 and 1 only.
 */
module Served {
  import opened Columns
  import opened Tables
  import opened Storage
  import opened Engine
  import opened Recovery
  import opened Evaluation

  predicate CleanTable(t: Table) {
    forall i :: 0 <= i < |t.columns| ==> CleanColumn(t.columns[i])
  }

  predicate CleanCatalog(ts: Catalog) {
    forall k :: k in ts ==> CleanTable(ts[k])
  }

  lemma {:induction false} PushFromClean(env: Env, columns: seq<Column>, row: Row, i: nat)
    requires |columns| == |row| && i <= |row|
    requires forall k :: 0 <= k < |columns| ==> CleanColumn(columns[k])
    ensures forall k :: 0 <= k < |PushFrom(env, columns, row, i).0| ==> CleanColumn(PushFrom(env, columns, row, i).0[k])
    decreases |row| - i
  {
    if i < |row| {
      var r := columns[i].Push(env, row[i]);
      if r.Ok? {
        PushClean(env, columns[i], row[i]);
        hide CleanColumn, Column.Push;
        PushFromClean(env, columns[i := r.value], row, i + 1);
      }
    }
  }

  lemma PushClean(env: Env, c: Column, v: Value)
    requires CleanColumn(c) && c.Push(env, v).Ok?
    ensures CleanColumn(c.Push(env, v).value)
  {
  }

  lemma {:induction false} WithRowsClean(env: Env, t: Table, rows: seq<Row>)
    requires CleanTable(t)
    ensures CleanTable(WithRows(env, t, rows).0)
    decreases |rows|
  {
    if rows != [] {
      if |rows[0]| == |t.columns| {
        PushFromClean(env, t.columns, rows[0], 0);
      }
      hide CleanColumn, PushFrom;
      WithRowsClean(env, WithRow(env, t, rows[0]).0, rows[1..]);
    }
  }

  // Whatever a command does, it stores clean booleans, a refused batch included.
  lemma PerformedClean(env: Env, ts: Catalog, cmd: WalRecord)
    requires CleanCatalog(ts)
    ensures CleanCatalog(Performed(env, ts, cmd).0)
  {
    if cmd.Insert? && env.key(cmd.table) in ts {
      WithRowsClean(env, ts[env.key(cmd.table)], cmd.rows);
    }
  }

  lemma {:induction false} IdealClean(env: Env, ts: Catalog, cmds: seq<WalRecord>)
    requires CleanCatalog(ts)
    ensures CleanCatalog(Ideal(env, ts, cmds))
    decreases |cmds|
  {
    hide Performed, CleanCatalog;
    if cmds != [] {
      PerformedClean(env, ts, cmds[0]);
      IdealClean(env, Performed(env, ts, cmds[0]).0, cmds[1..]);
    }
  }

  lemma TableIsFrame(t: Table)
    requires t.Valid() && CleanTable(t)
    ensures FrameValid(t.columns, t.nrows)
  {
  }

  // Over any run with crashes and restarts, every table in memory, and every table that the next
  // open rebuilds, is a frame that queries can be computed on.
  lemma RecoveredFrames(env: Env, numbering: Numbering, evs: seq<Event>)
    requires PossibleRun(env, numbering, FirstNode(), evs)
    ensures Run(env, numbering, FirstNode(), evs).Ok?
    ensures var m := Run(env, numbering, FirstNode(), evs).value;
      && Open(env, numbering, m.disk).Ok? && Open(env, numbering, m.disk).value.tables == m.tables
      && forall k :: k in m.tables ==> FrameValid(m.tables[k].columns, m.tables[k].nrows)
  {
    hide Open, PossibleRun, Run, AllKept, Ideal, Table.Valid, CleanTable, FrameValid;
    RecoveryIsExact(env, numbering, evs);
    var m := Run(env, numbering, FirstNode(), evs).value;
    IdealClean(env, map[], AllKept(env, numbering, FirstNode(), evs));
    forall k | k in m.tables ensures FrameValid(m.tables[k].columns, m.tables[k].nrows) {
      TableIsFrame(m.tables[k]);
    }
  }
}
