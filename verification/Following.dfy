/**
 A replica catches up (`src/replication.rs`): what turns of the follow loop come to while the primary
 stands still and answers.
 */
module Following {
  import opened Bytes
  import opened Wrappers
  import opened Columns
  import opened Tables
  import opened Storage
  import opened Snapshot
  import opened Engine
  import opened Recovery
  import opened Replication
  import opened Database

  // The answers of a primary that stands still: its snapshot, and its log behind the place asked for.
  ghost predicate Serves(env: Env, n: Node, snapshot: Result<bytes>, log: nat -> Result<seq<RawRecord>>) {
    && (exists order :: Enumerates(env, order, n.tables) && n.next >= 1
          && snapshot == Ok(EncodeSnapshot(order, n.next - 1)))
    && forall after: nat :: log(after) == Replication.WalSince(n.disk.wal, after)
  }

  // A replica without a place loads the snapshot and has everything, whatever it held before.
  lemma BootsUp(env: Env, n: Node, h: seq<WalRecord>, base: Catalog, lsn: nat, start: nat, rs: seq<RawRecord>,
                ts: Catalog, snapshot: Result<bytes>, log: nat -> Result<seq<RawRecord>>)
    requires PrimaryInv(env, n, h, base, lsn, start, rs) && n.next <= TWO64 && Serves(env, n, snapshot, log)
    ensures Turned(env, Replica(ts, None), snapshot, log) == Replica(n.tables, Some(|h|))
  {
    hide EncodeSnapshot, DecodeSnapshot, AreEntries, At, Sound, Replication.WalSince, Pulled, Loaded, Enumerates;
    var order :| Enumerates(env, order, n.tables) && snapshot == Ok(EncodeSnapshot(order, n.next - 1));
    LoadsAll(env, n, h, base, lsn, start, rs, ts, order);
    PullOutcome(env, n, h, base, lsn, start, rs, |h|);
  }

  lemma LoadsAll(env: Env, n: Node, h: seq<WalRecord>, base: Catalog, lsn: nat, start: nat, rs: seq<RawRecord>,
                 ts: Catalog, order: seq<Table>)
    requires PrimaryInv(env, n, h, base, lsn, start, rs) && n.next <= TWO64 && Enumerates(env, order, n.tables)
    ensures Loaded(env, ts, EncodeSnapshot(order, n.next - 1)) == (n.tables, Ok(|h|))
  {
    hide EncodeSnapshot, DecodeSnapshot, IsEntry, At, Replay, Header, Frames, Base;
    forall i | 0 <= i < |order|
      ensures order[i].Valid() && order[i].nrows < TWO64
    {
      RowCountFits(order[i]);
    }
    SnapshotRoundTrip(order, n.next - 1);
    PutAllRestores(env, n.tables, order, map[]);
  }

  // One turn of a replica at its place: it has everything when the log reaches back that far; while a
  // truncated log is empty it stays; otherwise it forgets its place and keeps its tables.
  lemma TurnFrom(env: Env, n: Node, h: seq<WalRecord>, base: Catalog, lsn: nat, start: nat, rs: seq<RawRecord>,
                 after: nat, snapshot: Result<bytes>, log: nat -> Result<seq<RawRecord>>)
    requires PrimaryInv(env, n, h, base, lsn, start, rs) && after <= |h| && Serves(env, n, snapshot, log)
    ensures Turned(env, Replica(At(env, h, after), Some(after)), snapshot, log) ==
      if after >= start then Replica(n.tables, Some(|h|))
      else if rs == [] then Replica(At(env, h, after), Some(after))
      else Replica(At(env, h, after), None)
  {
    hide EncodeSnapshot, AreEntries, At, Sound, Replication.WalSince, Pulled, Loaded, Enumerates;
    PullOutcome(env, n, h, base, lsn, start, rs, after);
  }

  // Two turns are enough, or none are: after them the replica has the primary's tables and knows its
  // place if and only if the log reaches back to it, or there is anything in the log.
  lemma CatchesUpIff(env: Env, n: Node, h: seq<WalRecord>, base: Catalog, lsn: nat, start: nat, rs: seq<RawRecord>,
                     after: nat, snapshot: Result<bytes>, log: nat -> Result<seq<RawRecord>>)
    requires PrimaryInv(env, n, h, base, lsn, start, rs) && n.next <= TWO64 && after <= |h|
    requires Serves(env, n, snapshot, log)
    ensures var one := Turned(env, Replica(At(env, h, after), Some(after)), snapshot, log);
      var two := Turned(env, one, snapshot, log);
      && (two == Replica(n.tables, Some(|h|)) <==> after >= start || rs != [])
      && (after < start && rs == [] ==> two == Replica(At(env, h, after), Some(after)))
  {
    hide EncodeSnapshot, AreEntries, Sound, Turned, Serves;
    assert At(env, h, |h|) == n.tables;
    hide At;
    TurnFrom(env, n, h, base, lsn, start, rs, after, snapshot, log);
    if after >= start {
      TurnFrom(env, n, h, base, lsn, start, rs, |h|, snapshot, log);
    } else if rs != [] {
      BootsUp(env, n, h, base, lsn, start, rs, At(env, h, after), snapshot, log);
    }
  }

  // A turn forgets the place of the replica if and only if the log served to it begins behind that place.
  lemma ForgetsIff(env: Env, n: Node, h: seq<WalRecord>, base: Catalog, lsn: nat, start: nat, rs: seq<RawRecord>,
                   after: nat, snapshot: Result<bytes>, log: nat -> Result<seq<RawRecord>>)
    requires PrimaryInv(env, n, h, base, lsn, start, rs) && after <= |h| && Serves(env, n, snapshot, log)
    ensures log(after).Ok?
    ensures Turned(env, Replica(At(env, h, after), Some(after)), snapshot, log).applied.None?
       <==> log(after).value != [] && log(after).value[0].lsn > after + 1
  {
    hide EncodeSnapshot, Sound, At, Turned, Pulled, Replication.WalSince, Enumerates, IsEntry;
    TurnFrom(env, n, h, base, lsn, start, rs, after, snapshot, log);
    var from := WalSinceEntries(env, n, h, base, lsn, start, rs, after);
    var served := rs[from - start..];
    if served != [] {
      assert IsEntry(env, h, from + 0, served[0]);
      FirstLsn(env, h, from, served[0]);
    }
  }

  lemma FirstLsn(env: Env, h: seq<WalRecord>, i: nat, r: RawRecord)
    requires i < |h| && IsEntry(env, h, i, r)
    ensures r.lsn == i + 1
  {
  }

  // Whoever serves them: records that do not begin with the next one make the replica forget its place,
  // and its tables stay as they are.
  lemma GapForgets(env: Env, r: Replica, after: nat, records: seq<RawRecord>)
    requires records != [] && records[0].lsn != after + 1
    ensures Received(env, r, LogAnswer(after, records)) == Replica(r.tables, None)
  {
  }
}
