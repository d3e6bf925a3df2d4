/**
 A primary and a replica that pulls its log (`src/replication.rs`). The primary writes, takes
 snapshots and so truncates its log, crashes and is opened again; the replica starts from whatever
 tables its own directory holds, at any time anew; requests and answers may be lost, and the primary
 may move on while an answer is under way.
 */
module Replication {
  import opened Bytes
  import opened Wrappers
  import opened Columns
  import opened Tables
  import opened Storage
  import opened Snapshot
  import opened Engine
  import opened Recovery

  // --- what the two nodes do ------------------------------------------------------------------------

  // `records_after`: the log file is opened and read anew, and filtered.
  function Later(rs: seq<RawRecord>, after: nat): seq<RawRecord>
    decreases |rs|
  {
    if rs == [] then []
    else (if rs[0].lsn > after then [rs[0]] else []) + Later(rs[1..], after)
  }

  function WalSince(wal: bytes, after: nat): Result<seq<RawRecord>> {
    var (_, rs) :- OpenLog(wal);
    Ok(Later(rs, after))
  }

  // `pull_once` on the records received: the tables it leaves, and the new LSN or the error.
  function Pulled(env: Env, ts: Catalog, lsn: nat, records: seq<RawRecord>): (Catalog, Result<nat>)
    decreases |records|
  {
    if records == [] then (ts, Ok(lsn))
    else if records[0].lsn != lsn + 1 then (ts, Err(LsnGap))
    else
      match DecodeRecord(SchemaIn(env, ts), records[0].payload)
      case Err(e) => (ts, Err(e))
      case Ok(rec) =>
        var (us, e) := Applied(env, ts, rec);
        if e.Some? then (us, Err(e.value)) else Pulled(env, us, lsn + 1, records[1..])
  }

  // `load_snapshot_bytes`: everything is replaced, or nothing when the bytes do not decode.
  function Loaded(env: Env, ts: Catalog, raw: bytes): (Catalog, Result<nat>) {
    match DecodeSnapshot(raw)
    case Err(e) => (ts, Err(e))
    case Ok((tables, lsn)) => (PutAll(env, map[], tables), Ok(lsn))
  }

  // --- the two-node machine -------------------------------------------------------------------------

  datatype Replica = Replica(tables: Catalog, applied: Option<nat>)

  datatype Answer = SnapshotAnswer(raw: bytes) | LogAnswer(after: nat, records: seq<RawRecord>)

  // Two ghosts of the machine: `history`, the commands that the primary has logged so far, and
  // `loaded`, whether the replica has taken in a snapshot since it was started.
  datatype Cluster = Cluster(
    primary: Node, history: seq<WalRecord>, replica: Replica, loaded: bool, answer: Option<Answer>)

  datatype Move =
    | Act(a: Action)                      // the primary executes a command or takes a snapshot
    | Restart(a: Action, left: Disk)      // it crashes in the course of one, and is opened again
    | Reboot(tables: Catalog)             // the replica is started, with the tables of its own directory
    | ServeSnapshot(order: seq<Table>)    // the primary answers a bootstrap request
    | ServeLog                            // the primary answers a pull
    | Receive                             // the replica takes the answer in
    | Lose                                // the answer never arrives

  // Under the code's own numbering, a restart must come out ahead of the snapshot.
  ghost predicate Enabled(env: Env, numbering: Numbering, c: Cluster, m: Move) {
    match m
    case Act(a) => ActionOk(env, c.primary, a)
    case Restart(a, left) =>
      && Possible(env, c.primary, Crashed(a, left))
      && var o := Open(env, numbering, left);
         numbering.AsWritten? && o.Ok? ==> Ahead(env, o.value)
    case Reboot(_) => true
    case ServeSnapshot(order) => 0 < c.primary.next <= TWO64 && Enumerates(env, order, c.primary.tables)
    case ServeLog => c.replica.applied.Some? && WalSince(c.primary.disk.wal, c.replica.applied.value).Ok?
    case Receive => c.answer.Some?
    case Lose => true
  }

  // What the follow loop makes of an answer: after a gap it forgets how far it was, after any
  // other error it keeps its place.
  function Received(env: Env, r: Replica, a: Answer): Replica {
    match a
    case SnapshotAnswer(raw) =>
      var (ts, l) := Loaded(env, r.tables, raw);
      Replica(ts, if l.Ok? then Some(l.value) else r.applied)
    case LogAnswer(after, records) =>
      var (ts, l) := Pulled(env, r.tables, after, records);
      Replica(ts, if l.Ok? then Some(l.value) else if l.error == LsnGap then None else r.applied)
  }

  function Moved(env: Env, numbering: Numbering, c: Cluster, m: Move): Cluster
    requires Enabled(env, numbering, c, m)
  {
    match m
    case Act(a) => c.(primary := After(env, c.primary, a), history := c.history + Kept(env, c.primary, Done(a)))
    case Restart(a, left) =>
      (match Open(env, numbering, left)
       case Ok(n) => c.(primary := n, history := c.history + Kept(env, c.primary, Crashed(a, left)))
       case Err(_) => c)
    case Reboot(ts) => c.(replica := Replica(ts, None), loaded := false, answer := None)
    case ServeSnapshot(order) => c.(answer := Some(SnapshotAnswer(EncodeSnapshot(order, c.primary.next - 1))))
    case ServeLog =>
      var after := c.replica.applied.value;
      c.(answer := Some(LogAnswer(after, WalSince(c.primary.disk.wal, after).value)))
    case Receive =>
      var r := Received(env, c.replica, c.answer.value);
      c.(replica := r, loaded := c.loaded || (c.answer.value.SnapshotAnswer? && r.applied.Some?), answer := None)
    case Lose => c.(answer := None)
  }

  // A new primary, and a replica with the tables of its own directory.
  function Start(ts: Catalog): Cluster {
    Cluster(FirstNode(), [], Replica(ts, None), false, None)
  }

  // --- invariant ------------------------------------------------------------------------------------

  // The tables after the first `i` commands of the history.
  function At(env: Env, h: seq<WalRecord>, i: nat): Catalog
    requires i <= |h|
  {
    Ideal(env, map[], h[..i])
  }

  // `r` is the log record of command `i`, and applying it takes the tables one command further.
  predicate IsEntry(env: Env, h: seq<WalRecord>, i: nat, r: RawRecord)
    requires i < |h|
  {
    && r.lsn == i + 1
    && var d := DecodeRecord(SchemaIn(env, At(env, h, i)), r.payload);
       d.Ok? && Applied(env, At(env, h, i), d.value) == (At(env, h, i + 1), None)
  }

  // The records are those of the commands `start`, `start + 1`, and so on.
  predicate AreEntries(env: Env, h: seq<WalRecord>, start: nat, rs: seq<RawRecord>) {
    start + |rs| <= |h| && forall i :: 0 <= i < |rs| ==> IsEntry(env, h, start + i, rs[i])
  }

  // The primary's log is the part of its history from `start` on; it begins behind the last snapshot,
  // or before it, when the primary came back between writing the snapshot and truncating the log.
  predicate PrimaryInv(
    env: Env, n: Node, h: seq<WalRecord>, base: Catalog, lsn: nat, start: nat, rs: seq<RawRecord>)
  {
    && Sound(env, n, base, lsn, rs)
    && n.tables == At(env, h, |h|)
    && n.next == |h| + 1
    && start <= lsn <= |h| && start + |rs| == |h|
    && AreEntries(env, h, start, rs)
  }

  // An answer under way speaks about a prefix of the history, whatever the primary does next.
  ghost predicate AnswerInv(env: Env, h: seq<WalRecord>, r: Replica, a: Answer) {
    match a
    case SnapshotAnswer(raw) =>
      exists j :: 0 <= j <= |h| && forall ts :: Loaded(env, ts, raw) == (At(env, h, j), Ok(j))
    case LogAnswer(after, records) =>
      r.applied == Some(after) && exists start :: after <= start && AreEntries(env, h, start, records)
  }

  // The replica holds the primary's tables as they were after some prefix of its history, and when it
  // knows its place, after exactly that many records.
  ghost predicate Follows(env: Env, h: seq<WalRecord>, r: Replica) {
    exists j :: 0 <= j <= |h| && r.tables == At(env, h, j) && (r.applied.Some? ==> r.applied.value == j)
  }

  // Safety: a replica that has loaded a snapshot follows; one that has not does not know its place.
  ghost predicate Safe(env: Env, c: Cluster) {
    if c.loaded then Follows(env, c.history, c.replica) else c.replica.applied.None?
  }

  ghost predicate Inv(env: Env, c: Cluster) {
    && (exists base, lsn, start, rs :: PrimaryInv(env, c.primary, c.history, base, lsn, start, rs))
    && Safe(env, c)
    && (c.answer.Some? ==> AnswerInv(env, c.history, c.replica, c.answer.value))
  }

  // --- the pull ---------------------------------------------------------------------------------------

  // A pull of records that continue the replica's place applies all of them.
  lemma {:induction false} PullContinues(env: Env, h: seq<WalRecord>, lsn: nat, records: seq<RawRecord>)
    requires AreEntries(env, h, lsn, records)
    ensures Pulled(env, At(env, h, lsn), lsn, records) == (At(env, h, lsn + |records|), Ok(lsn + |records|))
    decreases |records|
  {
    hide At, DecodeRecord, Applied, SchemaIn;
    if records != [] {
      assert IsEntry(env, h, lsn + 0, records[0]);
      forall i | 0 <= i < |records[1..]|
        ensures IsEntry(env, h, lsn + 1 + i, records[1..][i])
      {
        assert IsEntry(env, h, lsn + (i + 1), records[i + 1]);
      }
      PullContinues(env, h, lsn + 1, records[1..]);
    }
  }

  // A pull of records behind a truncation is rejected before any of them is applied.
  lemma PullAcrossGap(env: Env, h: seq<WalRecord>, ts: Catalog, lsn: nat, start: nat, records: seq<RawRecord>)
    requires AreEntries(env, h, start, records) && records != [] && lsn != start
    ensures Pulled(env, ts, lsn, records) == (ts, Err(LsnGap))
  {
    assert IsEntry(env, h, start + 0, records[0]);
  }

  lemma {:induction false} LaterOfNumbered(start: nat, rs: seq<RawRecord>, after: nat)
    requires Numbered(rs, start + 1)
    ensures Later(rs, after)
         == rs[if after <= start then 0 else if after - start <= |rs| then after - start else |rs|..]
    decreases |rs|
  {
    if rs != [] {
      assert Numbered(rs[1..], start + 2);
      LaterOfNumbered(start + 1, rs[1..], after);
    }
  }

  lemma EntriesNumbered(env: Env, h: seq<WalRecord>, start: nat, rs: seq<RawRecord>)
    requires AreEntries(env, h, start, rs)
    ensures Numbered(rs, start + 1)
  {
    hide DecodeRecord, Applied, At, SchemaIn;
    forall i | 0 <= i < |rs|
      ensures rs[i].lsn == start + i + 1
    {
      assert IsEntry(env, h, start + i, rs[i]);
    }
  }

  lemma DropEntries(env: Env, h: seq<WalRecord>, start: nat, rs: seq<RawRecord>, k: nat)
    requires AreEntries(env, h, start, rs) && k <= |rs|
    ensures AreEntries(env, h, start + k, rs[k..])
  {
    hide IsEntry;
    var tail := rs[k..];
    forall i | 0 <= i < |tail|
      ensures IsEntry(env, h, start + k + i, tail[i])
    {
      assert IsEntry(env, h, start + (k + i), rs[k + i]);
    }
  }

  lemma WalSinceEntries(env: Env, n: Node, h: seq<WalRecord>, base: Catalog, lsn: nat, start: nat,
                        rs: seq<RawRecord>, after: nat)
    returns (from: nat)
    requires PrimaryInv(env, n, h, base, lsn, start, rs) && after <= |h|
    ensures from == if after < start then start else after
    ensures WalSince(n.disk.wal, after) == Ok(rs[from - start..])
    ensures AreEntries(env, h, from, rs[from - start..])
  {
    hide Header, Frames, OpenLog, AreEntries, Base, Replay, At;
    OpenWholeLog(rs);
    EntriesNumbered(env, h, start, rs);
    LaterOfNumbered(start, rs, after);
    from := if after < start then start else after;
    DropEntries(env, h, start, rs, from - start);
  }

  // What a pull comes to, for a replica at its place `after`: caught up in full when the log
  // reaches back that far; nothing at all while a truncated log is still empty; otherwise a gap,
  // with the tables as they were.
  lemma PullOutcome(env: Env, n: Node, h: seq<WalRecord>, base: Catalog, lsn: nat, start: nat, rs: seq<RawRecord>,
                    after: nat)
    requires PrimaryInv(env, n, h, base, lsn, start, rs) && after <= |h|
    ensures WalSince(n.disk.wal, after).Ok?
    ensures Pulled(env, At(env, h, after), after, WalSince(n.disk.wal, after).value) ==
      if after >= start then (n.tables, Ok(|h|))
      else if rs == [] then (At(env, h, after), Ok(after))
      else (At(env, h, after), Err(LsnGap))
  {
    hide Header, Frames, OpenLog, IsEntry, Pulled, WalSince, At, Sound;
    var from := WalSinceEntries(env, n, h, base, lsn, start, rs, after);
    if after >= start {
      PullContinues(env, h, after, rs[from - start..]);
    } else if rs != [] {
      PullAcrossGap(env, h, At(env, h, after), after, from, rs);
      assert rs[0..] == rs;
    } else {
      assert Pulled(env, At(env, h, after), after, []) == (At(env, h, after), Ok(after)) by {
        PullNothing(env, At(env, h, after), after);
      }
    }
  }

  lemma PullNothing(env: Env, ts: Catalog, lsn: nat)
    ensures Pulled(env, ts, lsn, []) == (ts, Ok(lsn))
  {
  }

  // --- the invariant is kept --------------------------------------------------------------------------

  lemma AtPrefix(env: Env, h: seq<WalRecord>, more: seq<WalRecord>, i: nat)
    requires i <= |h|
    ensures At(env, h + more, i) == At(env, h, i)
  {
    assert (h + more)[..i] == h[..i];
  }

  lemma AtNext(env: Env, h: seq<WalRecord>, cmd: WalRecord)
    ensures At(env, h + [cmd], |h| + 1) == Performed(env, At(env, h, |h|), cmd).0
  {
    hide Performed;
    assert (h + [cmd])[..|h| + 1] == h[..|h|] + [cmd];
    IdealAppend(env, map[], h[..|h|], [cmd]);
    IdealOne(env, At(env, h, |h|), cmd);
  }

  lemma EntriesPrefix(env: Env, h: seq<WalRecord>, more: seq<WalRecord>, start: nat, rs: seq<RawRecord>)
    requires AreEntries(env, h, start, rs)
    ensures AreEntries(env, h + more, start, rs)
  {
    hide DecodeRecord, Applied, SchemaIn, At;
    forall i | 0 <= i < |rs|
      ensures IsEntry(env, h + more, start + i, rs[i])
    {
      assert IsEntry(env, h, start + i, rs[i]);
      AtPrefix(env, h, more, start + i);
      AtPrefix(env, h, more, start + i + 1);
    }
  }

  lemma EntriesExtend(env: Env, h: seq<WalRecord>, cmd: WalRecord, start: nat, rs: seq<RawRecord>, r: RawRecord)
    requires AreEntries(env, h, start, rs) && start + |rs| == |h| && IsEntry(env, h + [cmd], |h|, r)
    ensures AreEntries(env, h + [cmd], start, rs + [r])
  {
    EntriesPrefix(env, h, [cmd], start, rs);
    hide IsEntry;
    forall i | 0 <= i < |rs + [r]|
      ensures IsEntry(env, h + [cmd], start + i, (rs + [r])[i])
    {
      if i < |rs| {
        assert IsEntry(env, h + [cmd], start + i, rs[i]);
      }
    }
  }

  // A record more, and the command that it stands for.
  lemma OneMoreEntry(env: Env, n: Node, h: seq<WalRecord>, base: Catalog, lsn: nat, start: nat, rs: seq<RawRecord>,
                     cmd: WalRecord)
    requires PrimaryInv(env, n, h, base, lsn, start, rs) && ActionOk(env, n, Execute(cmd))
    requires Performed(env, n.tables, cmd).1.Logged?
    ensures EncodeRecord(SchemaIn(env, n.tables), cmd).Ok?
    ensures AreEntries(env, h + [cmd], start, rs + [RecordOf(env, n, cmd)])
    ensures At(env, h + [cmd], |h| + 1) == Performed(env, n.tables, cmd).0
  {
    hide Sound, Performed, Admissible, At, IsEntry, AreEntries, EncodeRecord, SchemaIn;
    NewEntry(env, n, h, base, lsn, start, rs, cmd);
    EntriesExtend(env, h, cmd, start, rs, RecordOf(env, n, cmd));
    AtNext(env, h, cmd);
  }

  lemma ExecuteKeeps(env: Env, n: Node, h: seq<WalRecord>, base: Catalog, lsn: nat, start: nat, rs: seq<RawRecord>,
                     cmd: WalRecord)
    returns (rs': seq<RawRecord>)
    requires PrimaryInv(env, n, h, base, lsn, start, rs) && ActionOk(env, n, Execute(cmd))
    ensures PrimaryInv(env, After(env, n, Execute(cmd)), h + Kept(env, n, Done(Execute(cmd))), base, lsn, start, rs')
  {
    hide Stores, Performed, Admissible, Writes, At, IsEntry, AreEntries, EncodeRecord, SchemaIn, Frame;
    ExecuteStores(env, n, base, lsn, rs, cmd);
    if Performed(env, n.tables, cmd).1.Logged? {
      rs' := rs + [RecordOf(env, n, cmd)];
      OneMoreEntry(env, n, h, base, lsn, start, rs, cmd);
    } else {
      rs' := rs;
      assert h + [] == h;
    }
  }

  lemma NewEntry(env: Env, n: Node, h: seq<WalRecord>, base: Catalog, lsn: nat, start: nat, rs: seq<RawRecord>,
                 cmd: WalRecord)
    requires PrimaryInv(env, n, h, base, lsn, start, rs) && ActionOk(env, n, Execute(cmd))
    requires Performed(env, n.tables, cmd).1.Logged?
    ensures EncodeRecord(SchemaIn(env, n.tables), cmd).Ok?
    ensures IsEntry(env, h + [cmd], |h|, RecordOf(env, n, cmd))
  {
    hide Frames, Frame, Header, Base, Replay, EncodeRecord, DecodeRecord, Performed, Applied, Admissible, At, SchemaIn;
    LoggedReplays(env, n.tables, cmd);
    AtPrefix(env, h, [cmd], |h|);
    AtNext(env, h, cmd);
  }

  lemma SnapKeeps(env: Env, n: Node, h: seq<WalRecord>, base: Catalog, lsn: nat, start: nat, rs: seq<RawRecord>,
                  order: seq<Table>)
    requires PrimaryInv(env, n, h, base, lsn, start, rs) && ActionOk(env, n, Snap(order))
    ensures PrimaryInv(env, After(env, n, Snap(order)), h, n.tables, |h|, |h|, [])
  {
    hide Stores, Enumerates, EncodeSnapshot, Header, At, IsEntry;
    SoundLogs(env, n, base, lsn, rs);
    SnapStores(env, n, rs, order);
    SnapWrites(n.disk, EncodeSnapshot(order, n.next - 1));
  }

  // The last record has the number of the last command.
  lemma LastEntry(env: Env, h: seq<WalRecord>, start: nat, rs: seq<RawRecord>)
    requires AreEntries(env, h, start, rs) && start + |rs| == |h| && rs != []
    ensures NextLsn(rs) == |h| + 1
  {
    hide DecodeRecord, Applied, At, SchemaIn;
    assert IsEntry(env, h, start + (|rs| - 1), rs[|rs| - 1]);
  }

  // A node opened on this part of the history goes on numbering where it ends.
  lemma Reopened(env: Env, numbering: Numbering, m: Node, h: seq<WalRecord>, base: Catalog, lsn: nat, start: nat,
                 rs: seq<RawRecord>)
    requires Sound(env, m, base, lsn, rs) && m.tables == At(env, h, |h|)
    requires m.next == if numbering.Raised? && NextLsn(rs) <= lsn then lsn + 1 else NextLsn(rs)
    requires start <= lsn <= |h| && start + |rs| == |h| && AreEntries(env, h, start, rs)
    requires numbering.AsWritten? ==> Ahead(env, m)
    ensures PrimaryInv(env, m, h, base, lsn, start, rs)
  {
    hide Stores, At, AreEntries, Ahead;
    AheadMeans(env, m, base, lsn, rs);
    if rs != [] {
      LastEntry(env, h, start, rs);
    }
  }

  lemma CrashInExecuteKeeps(env: Env, numbering: Numbering, n: Node, h: seq<WalRecord>, base: Catalog, lsn: nat,
                            start: nat, rs: seq<RawRecord>, cmd: WalRecord, left: Disk)
    returns (m: Node, rs': seq<RawRecord>)
    requires PrimaryInv(env, n, h, base, lsn, start, rs) && Possible(env, n, Crashed(Execute(cmd), left))
    requires var o := Open(env, numbering, left); numbering.AsWritten? && o.Ok? ==> Ahead(env, o.value)
    ensures Open(env, numbering, left) == Ok(m)
    ensures PrimaryInv(env, m, h + Kept(env, n, Crashed(Execute(cmd), left)), base, lsn, start, rs')
  {
    hide Stores, Performed, Admissible, Writes, At, IsEntry, AreEntries, EncodeRecord, SchemaIn, Frame, Open, Ahead,
         CrashState, PartialHeader;
    ExecuteStores(env, n, base, lsn, rs, cmd);
    if Performed(env, n.tables, cmd).1.Logged? {
      var r, done := RecordOf(env, n, cmd), After(env, n, Execute(cmd));
      m, rs' := CrashInAppend(env, numbering, n.disk, base, lsn, rs, n.tables, r, done.tables, left) by {
        LogWritten(env, n, base, lsn, rs, cmd);
      }
      LogWritten(env, n, base, lsn, rs, cmd);
      if left == done.disk {
        OneMoreEntry(env, n, h, base, lsn, start, rs, cmd);
        Reopened(env, numbering, m, h + [cmd], base, lsn, start, rs');
      } else {
        assert h + [] == h;
        Reopened(env, numbering, m, h, base, lsn, start, rs);
      }
    } else {
      NothingWritten(n.disk, left);
      m := OpenStoresWhole(env, numbering, n.disk, base, lsn, rs, n.tables);
      rs' := rs;
      assert h + [] == h;
      Reopened(env, numbering, m, h, base, lsn, start, rs);
    }
  }

  lemma LogWritten(env: Env, n: Node, base: Catalog, lsn: nat, rs: seq<RawRecord>, cmd: WalRecord)
    requires Sound(env, n, base, lsn, rs) && n.next > lsn && ActionOk(env, n, Execute(cmd))
    requires Performed(env, n.tables, cmd).1.Logged?
    ensures EncodeRecord(SchemaIn(env, n.tables), cmd).Ok?
    ensures var r := RecordOf(env, n, cmd);
      && Writes(env, n, Execute(cmd)) == [Append(Frame(r))]
      && After(env, n, Execute(cmd)).disk == Written(n.disk, Append(Frame(r)))
  {
    hide Stores, Performed, Admissible, EncodeRecord, SchemaIn, Frame;
    ExecuteStores(env, n, base, lsn, rs, cmd);
    var ws := Writes(env, n, Execute(cmd));
    assert ws[1..] == [] && AllWritten(n.disk, ws) == AllWritten(Written(n.disk, ws[0]), []);
  }

  lemma CrashInSnapKeeps(env: Env, numbering: Numbering, n: Node, h: seq<WalRecord>, base: Catalog, lsn: nat,
                         start: nat, rs: seq<RawRecord>, order: seq<Table>, left: Disk)
    returns (m: Node, base': Catalog, lsn': nat, start': nat, rs': seq<RawRecord>)
    requires PrimaryInv(env, n, h, base, lsn, start, rs) && Possible(env, n, Crashed(Snap(order), left))
    requires var o := Open(env, numbering, left); numbering.AsWritten? && o.Ok? ==> Ahead(env, o.value)
    ensures Open(env, numbering, left) == Ok(m)
    ensures PrimaryInv(env, m, h, base', lsn', start', rs')
  {
    hide Stores, Enumerates, Open, EncodeSnapshot, CrashState, PartialHeader, At, AreEntries, Ahead;
    SoundLogs(env, n, base, lsn, rs);
    SnapStores(env, n, rs, order);
    m, base', lsn', rs' := CrashInReplace(env, numbering, n.disk, base, lsn, rs, n.tables,
                                          EncodeSnapshot(order, n.next - 1), n.tables, n.next - 1, left);
    start' := if rs' == rs then start else |h|;
    assert AreEntries(env, h, |h|, []) by {
      NoEntries(env, h);
    }
    Reopened(env, numbering, m, h, base', lsn', start', rs');
  }

  lemma NoEntries(env: Env, h: seq<WalRecord>)
    ensures AreEntries(env, h, |h|, [])
  {
  }

  lemma AnswerOutlivesWrites(env: Env, h: seq<WalRecord>, more: seq<WalRecord>, r: Replica, a: Answer)
    requires AnswerInv(env, h, r, a)
    ensures AnswerInv(env, h + more, r, a)
  {
    hide At, IsEntry, AreEntries, Loaded;
    match a
    case SnapshotAnswer(raw) =>
      var j :| 0 <= j <= |h| && forall ts :: Loaded(env, ts, raw) == (At(env, h, j), Ok(j));
      AtPrefix(env, h, more, j);
      assert j <= |h + more| && forall ts :: Loaded(env, ts, raw) == (At(env, h + more, j), Ok(j));
    case LogAnswer(after, records) =>
      var start :| after <= start && AreEntries(env, h, start, records);
      EntriesPrefix(env, h, more, start, records);
  }

  lemma SafeOutlivesWrites(env: Env, c: Cluster, d: Cluster, more: seq<WalRecord>)
    requires Safe(env, c) && d.history == c.history + more && d.replica == c.replica && d.loaded == c.loaded
    ensures Safe(env, d)
  {
    hide At;
    if c.loaded {
      var j :| 0 <= j <= |c.history| && c.replica.tables == At(env, c.history, j)
        && (c.replica.applied.Some? ==> c.replica.applied.value == j);
      AtPrefix(env, c.history, more, j);
    }
  }

  lemma SnapshotAnswers(env: Env, n: Node, h: seq<WalRecord>, base: Catalog, lsn: nat, rs: seq<RawRecord>,
                        start: nat, order: seq<Table>, r: Replica)
    requires PrimaryInv(env, n, h, base, lsn, start, rs) && n.next <= TWO64 && Enumerates(env, order, n.tables)
    ensures AnswerInv(env, h, r, SnapshotAnswer(EncodeSnapshot(order, n.next - 1)))
  {
    hide EncodeSnapshot, DecodeSnapshot, IsEntry, At, Replay, Header, Frames, Base;
    forall i | 0 <= i < |order|
      ensures order[i].Valid() && order[i].nrows < TWO64
    {
      RowCountFits(order[i]);
    }
    SnapshotRoundTrip(order, n.next - 1);
    PutAllRestores(env, n.tables, order, map[]);
    var raw := EncodeSnapshot(order, n.next - 1);
    assert forall ts :: Loaded(env, ts, raw) == (At(env, h, |h|), Ok(|h|));
  }

  lemma ReceiveKeeps(env: Env, numbering: Numbering, c: Cluster)
    requires Inv(env, c) && c.answer.Some?
    ensures Safe(env, Moved(env, numbering, c, Receive))
  {
    hide At, IsEntry, Loaded, PrimaryInv;
    var h, r := c.history, c.replica;
    match c.answer.value
    case SnapshotAnswer(raw) =>
      var j :| 0 <= j <= |h| && forall ts :: Loaded(env, ts, raw) == (At(env, h, j), Ok(j));
      assert Loaded(env, r.tables, raw) == (At(env, h, j), Ok(j));
    case LogAnswer(after, records) =>
      var start :| after <= start && AreEntries(env, h, start, records);
      if records == [] {
        PullNothing(env, r.tables, after);
      } else if start == after {
        PullContinues(env, h, after, records);
      } else {
        PullAcrossGap(env, h, r.tables, after, start, records);
      }
  }

  // After the primary has moved on: its history is longer by what was kept, and answers under way and
  // the replica are as they were.
  lemma PrimaryMoves(env: Env, c: Cluster, d: Cluster, more: seq<WalRecord>, base: Catalog, lsn: nat, start: nat,
                     rs: seq<RawRecord>)
    requires Inv(env, c) && d == c.(primary := d.primary, history := c.history + more)
    requires PrimaryInv(env, d.primary, d.history, base, lsn, start, rs)
    ensures Inv(env, d)
  {
    hide PrimaryInv, At, AnswerInv;
    SafeOutlivesWrites(env, c, d, more);
    if c.answer.Some? {
      AnswerOutlivesWrites(env, c.history, more, c.replica, c.answer.value);
    }
  }

  lemma MoveKeepsInv(env: Env, numbering: Numbering, c: Cluster, m: Move)
    requires Inv(env, c) && Enabled(env, numbering, c, m)
    ensures Inv(env, Moved(env, numbering, c, m))
  {
    hide PrimaryInv, At, AnswerInv, ActionOk, Enumerates, WalSince, EncodeSnapshot, Received, After, Kept, Follows,
         Possible, Open, Ahead;
    var base, lsn, start, rs :| PrimaryInv(env, c.primary, c.history, base, lsn, start, rs);
    var d := Moved(env, numbering, c, m);
    match m
    case Act(Execute(cmd)) =>
      var rs' := ExecuteKeeps(env, c.primary, c.history, base, lsn, start, rs, cmd);
      PrimaryMoves(env, c, d, Kept(env, c.primary, Done(Execute(cmd))), base, lsn, start, rs');
    case Act(Snap(order)) =>
      SnapKeeps(env, c.primary, c.history, base, lsn, start, rs, order);
      KeptSnap(env, c.primary, order, c.primary.disk);
      assert c.history + [] == c.history;
    case Restart(Execute(cmd), left) =>
      var n, rs' := CrashInExecuteKeeps(env, numbering, c.primary, c.history, base, lsn, start, rs, cmd, left);
      PrimaryMoves(env, c, d, Kept(env, c.primary, Crashed(Execute(cmd), left)), base, lsn, start, rs');
    case Restart(Snap(order), left) =>
      var n, base', lsn', start', rs' :=
        CrashInSnapKeeps(env, numbering, c.primary, c.history, base, lsn, start, rs, order, left);
      KeptSnap(env, c.primary, order, left);
      assert c.history + [] == c.history;
    case Reboot(_) =>
    case ServeSnapshot(order) =>
      NextFits(env, c.primary, c.history, base, lsn, start, rs);
      SnapshotAnswers(env, c.primary, c.history, base, lsn, rs, start, order, c.replica);
    case ServeLog => ServeLogAnswers(env, numbering, c, base, lsn, start, rs);
    case Receive => ReceiveKeeps(env, numbering, c);
    case Lose =>
  }

  lemma KeptSnap(env: Env, n: Node, order: seq<Table>, left: Disk)
    ensures Kept(env, n, Done(Snap(order))) == [] && Kept(env, n, Crashed(Snap(order), left)) == []
  {
  }

  lemma NextFits(env: Env, n: Node, h: seq<WalRecord>, base: Catalog, lsn: nat, start: nat, rs: seq<RawRecord>)
    requires PrimaryInv(env, n, h, base, lsn, start, rs)
    ensures n.next >= 1
  {
  }

  lemma ServeLogAnswers(env: Env, numbering: Numbering, c: Cluster, base: Catalog, lsn: nat, start: nat,
                        rs: seq<RawRecord>)
    requires PrimaryInv(env, c.primary, c.history, base, lsn, start, rs) && Safe(env, c)
    requires Enabled(env, numbering, c, ServeLog)
    ensures AnswerInv(env, c.history, c.replica, Moved(env, numbering, c, ServeLog).answer.value)
  {
    hide At, IsEntry, WalSince, AreEntries, Sound, EncodeSnapshot, After, Kept, Received, Enumerates, ActionOk, Open;
    var after := c.replica.applied.value;
    var from := WalSinceEntries(env, c.primary, c.history, base, lsn, start, rs, after);
  }

  // --- the theorem ------------------------------------------------------------------------------------

  // The machine after some moves.
  ghost predicate Reaches(env: Env, numbering: Numbering, c: Cluster, moves: seq<Move>, d: Cluster)
    decreases |moves|
  {
    if moves == [] then c == d
    else
      && Enabled(env, numbering, c, moves[0])
      && Reaches(env, numbering, Moved(env, numbering, c, moves[0]), moves[1..], d)
  }

  lemma {:induction false} ReachesJoin(env: Env, numbering: Numbering, c: Cluster, a: seq<Move>, d: Cluster,
                                       b: seq<Move>, e: Cluster)
    requires Reaches(env, numbering, c, a, d) && Reaches(env, numbering, d, b, e)
    ensures Reaches(env, numbering, c, a + b, e)
    decreases |a|
  {
    hide Enabled, Moved;
    if a == [] {
      assert a + b == b;
    } else {
      assert (a + b)[0] == a[0] && (a + b)[1..] == a[1..] + b;
      ReachesJoin(env, numbering, Moved(env, numbering, c, a[0]), a[1..], d, b, e);
    }
  }

  lemma TwoMoves(env: Env, numbering: Numbering, c: Cluster, m: Move, d: Cluster, e: Cluster)
    requires Enabled(env, numbering, c, m) && d == Moved(env, numbering, c, m)
    requires Enabled(env, numbering, d, Receive) && e == Moved(env, numbering, d, Receive)
    ensures Reaches(env, numbering, c, [m, Receive], e)
  {
    hide Moved, Enabled;
    assert [m, Receive][1..] == [Receive] && [Receive][1..] == [];
    assert Reaches(env, numbering, d, [Receive], e);
  }

  lemma StartInv(env: Env, ts: Catalog)
    ensures Inv(env, Start(ts))
  {
    hide Header;
    assert Header() + Frames([]) == Header();
    FirstOpen(env, AsWritten);
    assert Stores(env, FirstNode().disk, map[], 0, [], map[]) by {
      assert Base(env, None) == Ok((map[], 0));
    }
    assert PrimaryInv(env, FirstNode(), [], map[], 0, 0, []);
  }

  lemma {:induction false} ReachesInv(env: Env, numbering: Numbering, c: Cluster, moves: seq<Move>, d: Cluster)
    requires Inv(env, c) && Reaches(env, numbering, c, moves, d)
    ensures Inv(env, d)
    decreases |moves|
  {
    hide Inv, Enabled, Moved;
    if moves != [] {
      MoveKeepsInv(env, numbering, c, moves[0]);
      ReachesInv(env, numbering, Moved(env, numbering, c, moves[0]), moves[1..], d);
    }
  }

  // In every reachable state, whatever tables the replica was started with and however often either
  // node was started again: once it has loaded a snapshot, the replica holds the tables that replaying
  // a prefix of the primary's history gives, of `applied` commands when it knows its place; a log
  // answer is applied in full or, across a truncation, not at all. Under the code's own numbering this
  // takes that the primary comes back ahead of its snapshot; under the raised one it takes nothing.
  lemma ReplicaSafety(env: Env, numbering: Numbering, ts: Catalog, moves: seq<Move>, c: Cluster)
    requires Reaches(env, numbering, Start(ts), moves, c)
    ensures c.loaded ==> Follows(env, c.history, c.replica)
    ensures c.replica.applied.Some? ==>
      && c.loaded && c.replica.applied.value <= |c.history|
      && c.replica.tables == Ideal(env, map[], c.history[..c.replica.applied.value])
    ensures c.answer.Some? && c.answer.value.LogAnswer? ==>
      var LogAnswer(after, records) := c.answer.value;
      || Pulled(env, c.replica.tables, after, records).1 == Ok(after + |records|)
      || (Pulled(env, c.replica.tables, after, records) == (c.replica.tables, Err(LsnGap)) && records != [])
  {
    hide Reaches, PrimaryInv, IsEntry, Pulled;
    StartInv(env, ts);
    ReachesInv(env, numbering, Start(ts), moves, c);
    if c.answer.Some? && c.answer.value.LogAnswer? {
      var LogAnswer(after, records) := c.answer.value;
      var from :| after <= from && AreEntries(env, c.history, from, records);
      if records == [] {
        PullNothing(env, c.replica.tables, after);
      } else if from == after {
        PullContinues(env, c.history, after, records);
      } else {
        PullAcrossGap(env, c.history, c.replica.tables, after, from, records);
      }
    }
  }
}
