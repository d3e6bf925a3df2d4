/** The log file and its handle (`Wal` in `src/storage.rs`). */
module WalFile {
  import opened Bytes
  import opened Wrappers
  import opened Storage
  import opened Engine
  import opened Replication
  import Crc

  // The data directory: two files. The trail records the writes that a crash may cut short.
  class Files {
    var snapshot: Option<bytes>
    var wal: bytes
    ghost var trail: seq<Write>

    constructor (d: Disk)
      ensures AsDisk() == d && trail == []
    {
      snapshot, wal, trail := d.snapshot, d.wal, [];
    }

    ghost function AsDisk(): Disk
      reads this
    {
      Disk(snapshot, wal)
    }

    // Writing a temporary file and renaming it over the snapshot.
    method Rename(raw: bytes)
      modifies this
      ensures snapshot == Some(raw) && wal == old(wal) && trail == old(trail) + [Replace(raw)]
    {
      snapshot, trail := Some(raw), trail + [Replace(raw)];
    }

    method SetLenZero()
      modifies this
      ensures AsDisk() == Written(old(AsDisk()), Truncate) && trail == old(trail) + [Truncate]
    {
      wal, trail := [], trail + [Truncate];
    }

    method WriteAll(data: bytes)
      modifies this
      ensures AsDisk() == Written(old(AsDisk()), Append(data)) && trail == old(trail) + [Append(data)]
    {
      wal, trail := wal + data, trail + [Append(data)];
    }

    // Dropping a tail that no whole frame starts.
    method Cut(len: nat)
      requires len <= |wal|
      modifies this
      ensures wal == old(wal)[..len] && snapshot == old(snapshot) && trail == old(trail)
    {
      wal := wal[..len];
    }
  }

  // The scan of `Wal::open`, and the file it leaves.
  method ScanFile(files: Files) returns (r: Result<seq<RawRecord>>)
    modifies files
    ensures r.Ok? ==> OpenLog(old(files.wal)) == Ok((files.wal, r.value))
    ensures r.Err? ==> OpenLog(old(files.wal)) == Err(r.error) && files.wal == old(files.wal)
    ensures files.snapshot == old(files.snapshot)
    ensures old(files.wal) != [] ==> files.trail == old(files.trail)
  {
    hide Scan, FrameAt, UnLe, Crc.Crc32;
    var raw := files.wal;
    if raw == [] {
      files.WriteAll(WAL_MAGIC);
      files.WriteAll(VERSION);
      assert [] + WAL_MAGIC + VERSION == Header();
      return Ok([]);
    }
    if |raw| < 12 || raw[..8] != WAL_MAGIC {
      return Err(BadMagic);
    }
    if UnLe(raw[8..12]) != 1 {
      return Err(BadVersion);
    }
    var pos, goodLen := 12, 12;
    var records: seq<RawRecord> := [];
    assert [] + Scan(raw, 12).0 == Scan(raw, 12).0;
    while pos + FRAME_HEADER <= |raw|
      invariant files.wal == raw && files.snapshot == old(files.snapshot) && files.trail == old(files.trail)
      invariant 12 <= pos == goodLen <= |raw|
      invariant Scan(raw, 12) == (records + Scan(raw, pos).0, Scan(raw, pos).1)
      decreases |raw| - pos
    {
      ghost var rest := Scan(raw, pos).0;
      var len := UnLe(raw[pos..pos + 4]);
      var crc := UnLe(raw[pos + 4..pos + 8]);
      var end := pos + FRAME_HEADER + len;
      if end > |raw| {
        NoFrame(raw, pos);
        break;
      }
      var body := raw[pos + 8..end];
      var sum := Crc.ComputeCrc32(body);
      if sum != crc {
        NoFrame(raw, pos);
        break;
      }
      var record := RawRecord(UnLe(body[..8]), body[8..]);
      OneScanned(raw, pos, record);
      assert records + ([record] + Scan(raw, end).0) == records + [record] + Scan(raw, end).0;
      records := records + [record];
      pos := end;
      goodLen := pos;
    }
    ScanEnds(raw, pos);
    assert records + [] == records;
    if goodLen != |raw| {
      files.Cut(goodLen);
    }
    assert raw[..|raw|] == raw;
    r := Ok(records);
  }

  lemma NoFrame(raw: bytes, pos: nat)
    requires pos + FRAME_HEADER <= |raw|
    requires var end := pos + FRAME_HEADER + UnLe(raw[pos..pos + 4]);
      end > |raw| || Crc.Crc32(raw[pos + 8..end]) != UnLe(raw[pos + 4..pos + 8])
    ensures FrameAt(raw, pos).None?
  {
    hide UnLe, Crc.Crc32;
  }

  lemma OneScanned(raw: bytes, pos: nat, r: RawRecord)
    requires pos + FRAME_HEADER <= |raw|
    requires var end := pos + FRAME_HEADER + UnLe(raw[pos..pos + 4]);
      && end <= |raw| && Crc.Crc32(raw[pos + 8..end]) == UnLe(raw[pos + 4..pos + 8])
      && r == RawRecord(UnLe(raw[pos + 8..end][..8]), raw[pos + 8..end][8..])
    ensures pos + FRAME_HEADER + |r.payload| <= |raw|
    ensures var next := pos + FRAME_HEADER + |r.payload|;
      Scan(raw, pos) == ([r] + Scan(raw, next).0, Scan(raw, next).1)
  {
    hide UnLe, Crc.Crc32;
  }

  lemma ScanEnds(raw: bytes, pos: nat)
    requires pos <= |raw|
    requires pos + FRAME_HEADER > |raw| || FrameAt(raw, pos).None?
    ensures Scan(raw, pos) == ([], pos)
  {
    hide UnLe, Crc.Crc32;
  }

  class Wal {
    const files: Files
    var nextLsn: nat

    constructor (files: Files, nextLsn: nat)
      ensures this.files == files && this.nextLsn == nextLsn
    {
      this.files, this.nextLsn := files, nextLsn;
    }

    method Append(payload: bytes) returns (lsn: nat)
      modifies this, files
      ensures lsn == old(nextLsn) && nextLsn == lsn + 1
      ensures files.AsDisk() == Written(old(files.AsDisk()), Write.Append(Frame(RawRecord(lsn, payload))))
      ensures files.trail == old(files.trail) + [Write.Append(Frame(RawRecord(lsn, payload)))]
    {
      lsn := nextLsn;
      var body := Le(lsn, 8) + payload;
      var sum := Crc.ComputeCrc32(body);
      var frame := Le(|payload|, 4) + (Le(sum, 4) + body);
      files.WriteAll(frame);
      nextLsn := nextLsn + 1;
    }

    // Opens the file anew, as replication does, and keeps the records behind `after`.
    method RecordsAfter(after: nat) returns (r: Result<seq<RawRecord>>)
      modifies files
      ensures r == WalSince(old(files.wal), after)
      ensures r.Ok? ==> OpenLog(old(files.wal)).Ok? && files.wal == OpenLog(old(files.wal)).value.0
      ensures r.Err? ==> files.wal == old(files.wal)
      ensures files.snapshot == old(files.snapshot)
    {
      hide OpenLog;
      var all :- ScanFile(files);
      var kept: seq<RawRecord> := [];
      for i := 0 to |all|
        invariant kept + Later(all[i..], after) == Later(all, after)
      {
        assert all[i..][0] == all[i] && all[i..][1..] == all[i + 1..];
        if all[i].lsn > after {
          kept := kept + [all[i]];
        }
      }
      assert kept + Later(all[|all|..], after) == kept;
      r := Ok(kept);
    }

    method Reset()
      modifies files
      ensures files.trail == old(files.trail) + [Truncate, Write.Append(WAL_MAGIC), Write.Append(VERSION)]
      ensures files.wal == Header() && files.snapshot == old(files.snapshot)
    {
      files.SetLenZero();
      files.WriteAll(WAL_MAGIC);
      files.WriteAll(VERSION);
    }
  }
}
