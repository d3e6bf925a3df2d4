/** Log records, log frames and snapshots as bytes (`src/storage.rs`). */
module Storage {
  import opened Bytes
  import opened Wrappers
  import opened Columns
  import opened Tables
  import opened Codec
  import Crc

  // "VELDBSNP", "VELDBWAL", and the format version.
  const SNAPSHOT_MAGIC: bytes := [0x56, 0x45, 0x4C, 0x44, 0x42, 0x53, 0x4E, 0x50]
  const WAL_MAGIC: bytes := [0x56, 0x45, 0x4C, 0x44, 0x42, 0x57, 0x41, 0x4C]
  const VERSION: bytes := [1, 0, 0, 0]

  // --- records ------------------------------------------------------------------------------------

  datatype WalRecord =
    | CreateTable(name: Text, schema: Schema)
    | DropTable(name: Text)
    | Insert(table: Text, rows: seq<Row>)

  type SchemaOf = Text -> Option<Schema>

  function EncodeRecord(schemaOf: SchemaOf, rec: WalRecord): Result<bytes> {
    match rec
    case CreateTable(name, schema) => Ok([1] + (EncBytes(name) + EncSchema(schema)))
    case DropTable(name) => Ok([2] + EncBytes(name))
    case Insert(table, rows) =>
      match schemaOf(table)
      case None => Err(UnknownTable)
      case Some(schema) =>
        if exists i :: 0 <= i < |rows| && |rows[i]| != |schema.fields| then Err(BadArity)
        else Ok([3] + (EncBytes(table) + (Le(|rows|, 8) + EncAll(EncRow, rows))))
  }

  function RowParser(types: seq<DataType>): (bytes, nat) -> Parsed<Row> {
    (data: bytes, pos: nat) => RowAt(types, data, pos)
  }

  function RecordAt(schemaOf: SchemaOf, data: bytes): Parsed<WalRecord> {
    var (tag, p) :- U8At(data, 0);
    match tag
    case 1 =>
      var (name, q) :- StrAt(data, p);
      var (schema, r) :- SchemaAt(data, q);
      Got(CreateTable(name, schema), r)
    case 2 =>
      var (name, q) :- StrAt(data, p);
      Got(DropTable(name), q)
    case 3 =>
      var (table, q) :- StrAt(data, p);
      (match schemaOf(table)
       case None => Bad(UnknownTable, q)
       case Some(schema) =>
         var (n, r) :- U64At(data, q);
         var (rows, t) :- ManyAt(RowParser(schema.Types()), data, r, n, []);
         Got(WalRecord.Insert(table, rows), t))
    case _ => Bad(UnknownRecord, p)
  }

  function DecodeRecord(schemaOf: SchemaOf, payload: bytes): Result<WalRecord> {
    RecordAt(schemaOf, payload).Outcome()
  }

  // The record as the schema at hand will read it back.
  function RereadRows(types: seq<DataType>, rows: seq<Row>): (r: seq<Row>)
    requires forall i :: 0 <= i < |rows| ==> |rows[i]| == |types|
    ensures |r| == |rows|
  {
    seq(|rows|, i requires 0 <= i < |rows| => RereadRow(types, rows[i]))
  }

  // A record that the table it names can take: lengths within what the format can say, and for
  // an insertion rows that the table accepts.
  predicate Loggable(schemaOf: SchemaOf, rec: WalRecord) {
    match rec
    case CreateTable(_, schema) => |schema.fields| < TWO64
    case DropTable(_) => true
    case Insert(table, rows) =>
      && schemaOf(table).Some?
      && |rows| < TWO64
      && forall i :: 0 <= i < |rows| ==> Accepted(schemaOf(table).value, rows[i])
  }

  function RereadRecord(schemaOf: SchemaOf, rec: WalRecord): WalRecord
    requires Loggable(schemaOf, rec)
  {
    match rec
    case Insert(table, rows) => WalRecord.Insert(table, RereadRows(schemaOf(table).value.Types(), rows))
    case _ => rec
  }

  lemma RowsBack(schema: Schema, data: bytes, pos: nat, rows: seq<Row>)
    requires forall i :: 0 <= i < |rows| ==> Accepted(schema, rows[i]) && |rows[i]| == |schema.fields|
    requires Holds(data, pos, EncAll(EncRow, rows))
    ensures ManyAt(RowParser(schema.Types()), data, pos, |rows|, [])
         == Got(RereadRows(schema.Types(), rows), pos + |EncAll(EncRow, rows)|)
  {
    hide Holds, EncRow, RowAt, Accepts, RereadRow;
    var parser, ys := RowParser(schema.Types()), RereadRows(schema.Types(), rows);
    forall i, p: nat | 0 <= i < |rows| && Holds(data, p, EncRow(rows[i]))
      ensures parser(data, p) == Got(ys[i], p + |EncRow(rows[i])|)
    {
      RowBack(schema, data, p, rows[i]);
    }
    ManyBack(EncRow, parser, data, pos, rows, ys, []);
    assert [] + ys == ys;
  }

  lemma TagBack(data: bytes, tag: byte, rest: bytes)
    requires data == [tag] + rest
    ensures U8At(data, 0) == Got(tag, 1) && Holds(data, 1, rest)
  {
    assert data[0..1] == [tag];
    assert data[1..1 + |rest|] == rest;
  }

  // Every record that was logged reads back, under the same schemas, as itself up to the
  // rereading of integers in DOUBLE columns.
  lemma RecordBack(schemaOf: SchemaOf, rec: WalRecord)
    requires Loggable(schemaOf, rec)
    ensures EncodeRecord(schemaOf, rec).Ok?
    ensures DecodeRecord(schemaOf, EncodeRecord(schemaOf, rec).value) == Ok(RereadRecord(schemaOf, rec))
  {
    hide Holds, EncBytes, EncSchema, EncAll, U8At, StrAt, BytesAt, U64At, SchemaAt, ManyAt, RowParser, Accepts;
    assert EncodeRecord(schemaOf, rec).Ok?;
    var data := EncodeRecord(schemaOf, rec).value;
    match rec
    case CreateTable(name, schema) =>
      TagBack(data, 1, EncBytes(name) + EncSchema(schema));
      HoldsSplit(data, 1, EncBytes(name), EncSchema(schema));
      StrBack(data, 1, name);
      SchemaBack(data, 1 + |EncBytes(name)|, schema);
    case DropTable(name) =>
      TagBack(data, 2, EncBytes(name));
      StrBack(data, 1, name);
    case Insert(table, rows) =>
      var q := 1 + |EncBytes(table)|;
      TagBack(data, 3, EncBytes(table) + (Le(|rows|, 8) + EncAll(EncRow, rows)));
      HoldsSplit(data, 1, EncBytes(table), Le(|rows|, 8) + EncAll(EncRow, rows));
      HoldsSplit(data, q, Le(|rows|, 8), EncAll(EncRow, rows));
      StrBack(data, 1, table);
      U64Back(data, q, |rows|);
      RowsBack(schemaOf(table).value, data, q + 8, rows);
  }

  // An insertion read back where its table does not exist.
  lemma InsertUnknown(written: SchemaOf, schemaOf: SchemaOf, table: Text, rows: seq<Row>)
    requires EncodeRecord(written, WalRecord.Insert(table, rows)).Ok? && schemaOf(table).None?
    ensures DecodeRecord(schemaOf, EncodeRecord(written, WalRecord.Insert(table, rows)).value) == Err(UnknownTable)
  {
    hide Holds, EncBytes, EncAll, U8At, StrAt, Le;
    var data := EncodeRecord(written, WalRecord.Insert(table, rows)).value;
    var rest := Le(|rows|, 8) + EncAll(EncRow, rows);
    TagBack(data, 3, EncBytes(table) + rest);
    HoldsSplit(data, 1, EncBytes(table), rest);
    StrBack(data, 1, table);
  }

  lemma StrBack(data: bytes, pos: nat, s: Text)
    requires Holds(data, pos, EncBytes(s))
    ensures StrAt(data, pos) == Got(s, pos + |EncBytes(s)|)
  {
    BytesBack(data, pos, s);
  }

  // --- frames -------------------------------------------------------------------------------------

  const FRAME_HEADER := 16

  function Header(): (h: bytes)
    ensures |h| == 12
  {
    WAL_MAGIC + VERSION
  }

  datatype RawRecord = RawRecord(lsn: nat, payload: bytes)

  function Body(r: RawRecord): bytes {
    Le(r.lsn, 8) + r.payload
  }

  // `len | crc | lsn | payload`; the length is a u32 and wraps for a larger payload.
  function Frame(r: RawRecord): (f: bytes)
    ensures |f| == FRAME_HEADER + |r.payload|
  {
    Le(|r.payload|, 4) + (Le(Crc.Crc32(Body(r)), 4) + Body(r))
  }

  function Frames(rs: seq<RawRecord>): bytes {
    EncAll(Frame, rs)
  }

  // A record whose frame can be read back.
  predicate Framable(r: RawRecord) {
    r.lsn < TWO64 && |r.payload| < TWO32
  }

  predicate AllFramable(rs: seq<RawRecord>) {
    forall i :: 0 <= i < |rs| ==> Framable(rs[i])
  }

  // The frame at `pos`, if there is a whole one with the right sum.
  function FrameAt(raw: bytes, pos: nat): (r: Option<RawRecord>)
    ensures r.Some? ==> pos + FRAME_HEADER + |r.value.payload| <= |raw|
  {
    if pos + FRAME_HEADER > |raw| then None
    else
      var len := UnLe(raw[pos..pos + 4]);
      var end := pos + FRAME_HEADER + len;
      if end > |raw| then None
      else
        var body := raw[pos + 8..end];
        if Crc.Crc32(body) != UnLe(raw[pos + 4..pos + 8]) then None
        else Some(RawRecord(UnLe(body[..8]), body[8..]))
  }

  // The scan of `Wal::open`: the records from `pos` on, and where the last good frame ends.
  function Scan(raw: bytes, pos: nat): (r: (seq<RawRecord>, nat))
    requires pos <= |raw|
    ensures pos <= r.1 <= |raw|
    decreases |raw| - pos
  {
    match FrameAt(raw, pos)
    case None => ([], pos)
    case Some(r) =>
      var (rs, good) := Scan(raw, pos + FRAME_HEADER + |r.payload|);
      ([r] + rs, good)
  }

  // What `Wal::open` makes of a log file: the file it leaves, and the records found in it.
  function OpenLog(raw: bytes): Result<(bytes, seq<RawRecord>)> {
    if raw == [] then Ok((Header(), []))
    else if |raw| < 12 || raw[..8] != WAL_MAGIC then Err(BadMagic)
    else if UnLe(raw[8..12]) != 1 then Err(BadVersion)
    else
      var (rs, good) := Scan(raw, 12);
      Ok((raw[..good], rs))
  }

  // LSN of the next record: one more than that of the last, or 1 in an empty log.
  function NextLsn(rs: seq<RawRecord>): nat {
    if rs == [] then 1 else rs[|rs| - 1].lsn + 1
  }

  lemma FrameBack(raw: bytes, pos: nat, r: RawRecord)
    requires Framable(r) && Holds(raw, pos, Frame(r))
    ensures FrameAt(raw, pos) == Some(r)
  {
    hide Le, UnLe, Crc.Crc32;
    var sum := Crc.Crc32(Body(r));
    HoldsSplit(raw, pos, Le(|r.payload|, 4), Le(sum, 4) + Body(r));
    HoldsSplit(raw, pos + 4, Le(sum, 4), Body(r));
    U32RoundTrip(|r.payload|);
    U32RoundTrip(sum);
    U64RoundTrip(r.lsn);
    assert Body(r)[..8] == Le(r.lsn, 8) && Body(r)[8..] == r.payload;
  }

  // Whole frames are found one after the other; the scan ends where no whole frame follows.
  lemma {:induction false} ScanFrames(raw: bytes, pos: nat, rs: seq<RawRecord>)
    requires AllFramable(rs) && Holds(raw, pos, Frames(rs))
    requires FrameAt(raw, pos + |Frames(rs)|).None?
    ensures Scan(raw, pos) == (rs, pos + |Frames(rs)|)
    decreases |rs|
  {
    hide Holds, Frame, FrameAt;
    assert pos <= |raw| by { HoldsBound(raw, pos, Frames(rs)); }
    if rs != [] {
      HoldsSplit(raw, pos, Frame(rs[0]), Frames(rs[1..]));
      FrameBack(raw, pos, rs[0]);
      ScanFrames(raw, pos + |Frame(rs[0])|, rs[1..]);
      assert [rs[0]] + rs[1..] == rs;
    }
  }

  lemma HoldsBound(raw: bytes, pos: nat, e: bytes)
    requires Holds(raw, pos, e)
    ensures pos + |e| <= |raw|
  {
  }

  // A file that starts with the header and whole frames, followed by something that is no frame.
  lemma OpenFrames(rs: seq<RawRecord>, tail: bytes)
    requires AllFramable(rs)
    requires FrameAt(Header() + Frames(rs) + tail, 12 + |Frames(rs)|).None?
    ensures OpenLog(Header() + Frames(rs) + tail) == Ok((Header() + Frames(rs), rs))
  {
    hide Scan, FrameAt, Frames;
    var raw := Header() + Frames(rs) + tail;
    assert raw[..8] == WAL_MAGIC && raw[8..12] == VERSION;
    assert UnLe(VERSION) == 1 by {
      assert VERSION[1..][1..] == [0, 0];
      assert UnLe([0, 0]) == 0;
    }
    assert Holds(raw, 12, Frames(rs));
    ScanFrames(raw, 12, rs);
    assert raw[..12 + |Frames(rs)|] == Header() + Frames(rs);
  }

  lemma OpenWholeLog(rs: seq<RawRecord>)
    requires AllFramable(rs)
    ensures OpenLog(Header() + Frames(rs)) == Ok((Header() + Frames(rs), rs))
  {
    OpenFrames(rs, []);
    assert Header() + Frames(rs) + [] == Header() + Frames(rs);
  }

  lemma {:induction false} FramesAppend(a: seq<RawRecord>, b: seq<RawRecord>)
    ensures Frames(a + b) == Frames(a) + Frames(b)
    decreases |a|
  {
    hide Frame;
    if a == [] {
      assert a + b == b;
    } else {
      assert (a + b)[1..] == a[1..] + b;
      FramesAppend(a[1..], b);
    }
  }

  lemma OneFrame(r: RawRecord)
    ensures Frames([r]) == Frame(r)
  {
    hide Frame;
    assert EncAll(Frame, [r][1..]) == [];
  }

  // --- torn logs ------------------------------------------------------------------------------------

  // A frame that the file does not hold in full is not read.
  lemma TornFrame(before: bytes, r: RawRecord, k: nat)
    requires Framable(r) && k < |Frame(r)|
    ensures FrameAt(before + Frame(r)[..k], |before|).None?
  {
    var raw, pos := before + Frame(r)[..k], |before|;
    if k >= FRAME_HEADER {
      assert raw[pos..pos + 4] == Frame(r)[..4] == Le(|r.payload|, 4);
      U32RoundTrip(|r.payload|);
    }
  }

  // How many whole frames the first `n` bytes hold.
  function WholeFrames(rs: seq<RawRecord>, n: nat): (k: nat)
    ensures k <= |rs|
    decreases |rs|
  {
    if rs == [] || |Frame(rs[0])| > n then 0
    else 1 + WholeFrames(rs[1..], n - |Frame(rs[0])|)
  }

  // Cutting after `n` bytes leaves those whole frames and a proper prefix of the next one.
  lemma {:induction false} CutFrames(rs: seq<RawRecord>, n: nat)
    requires n <= |Frames(rs)|
    ensures var k := WholeFrames(rs, n);
      && |Frames(rs[..k])| <= n
      && (k == |rs| ==> Frames(rs)[..n] == Frames(rs[..k]))
      && (k < |rs| ==> n - |Frames(rs[..k])| < |Frame(rs[k])|)
      && (k < |rs| ==> Frames(rs)[..n] == Frames(rs[..k]) + Frame(rs[k])[..n - |Frames(rs[..k])|])
    decreases |rs|
  {
    hide Frame;
    if rs != [] && |Frame(rs[0])| <= n {
      var f := Frame(rs[0]);
      var k := WholeFrames(rs, n);
      CutFrames(rs[1..], n - |f|);
      assert rs[..k] == [rs[0]] + rs[1..][..k - 1];
      assert Frames(rs[..k]) == f + Frames(rs[1..][..k - 1]) by {
        assert rs[..k][0] == rs[0] && rs[..k][1..] == rs[1..][..k - 1];
      }
      assert Frames(rs)[..n] == f + Frames(rs[1..])[..n - |f|];
      if k < |rs| {
        assert rs[1..][k - 1] == rs[k];
      }
    } else if rs != [] {
      assert rs[..0] == [];
      assert Frames(rs)[..n] == Frame(rs[0])[..n];
    }
  }

  lemma CutLog(rs: seq<RawRecord>, cut: nat) returns (tail: bytes)
    requires AllFramable(rs) && 12 <= cut <= |Header() + Frames(rs)|
    ensures var kept := Header() + Frames(rs[..WholeFrames(rs, cut - 12)]);
      && (Header() + Frames(rs))[..cut] == kept + tail
      && FrameAt(kept + tail, |kept|).None?
  {
    hide Frame, Frames, Header, FrameAt;
    var n := cut - 12;
    var k := WholeFrames(rs, n);
    CutFrames(rs, n);
    var kept := Header() + Frames(rs[..k]);
    if k == |rs| {
      tail := [];
      assert (Header() + Frames(rs))[..cut] == Header() + Frames(rs)[..n];
      NoFrameAtEnd(kept + tail, |kept|);
    } else {
      tail := Frame(rs[k])[..n - |Frames(rs[..k])|];
      assert (Header() + Frames(rs))[..cut] == Header() + Frames(rs)[..n];
      assert Header() + (Frames(rs[..k]) + tail) == kept + tail;
      TornFrame(kept, rs[k], |tail|);
    }
  }

  lemma NoFrameAtEnd(raw: bytes, pos: nat)
    requires pos == |raw|
    ensures FrameAt(raw, pos).None?
  {
  }

  // A log cut anywhere behind its header opens with exactly the records whose frames fit before
  // the cut, and the file is cut back to them.
  lemma TornLog(rs: seq<RawRecord>, cut: nat)
    requires AllFramable(rs) && 12 <= cut <= |Header() + Frames(rs)|
    ensures var k := WholeFrames(rs, cut - 12);
      && OpenLog((Header() + Frames(rs))[..cut]) == Ok((Header() + Frames(rs[..k]), rs[..k]))
      && |Header() + Frames(rs[..k])| <= cut
      && (k < |rs| ==> cut < |Header() + Frames(rs[..k + 1])|)
  {
    hide Frame, Frames, OpenLog, Header, FrameAt;
    var k := WholeFrames(rs, cut - 12);
    var tail := CutLog(rs, cut);
    OpenFrames(rs[..k], tail);
    CutFrames(rs, cut - 12);
    if k < |rs| {
      FramesAppend(rs[..k], [rs[k]]);
      OneFrame(rs[k]);
      assert rs[..k] + [rs[k]] == rs[..k + 1];
    }
  }

  // Frames written after that are found behind the surviving ones on the next open.
  lemma FramesAfterTear(rs: seq<RawRecord>, cut: nat, more: seq<RawRecord>)
    requires AllFramable(rs) && AllFramable(more) && 12 <= cut <= |Header() + Frames(rs)|
    ensures var k := WholeFrames(rs, cut - 12);
      && OpenLog((Header() + Frames(rs))[..cut]).Ok?
      && var file := OpenLog((Header() + Frames(rs))[..cut]).value.0;
         OpenLog(file + Frames(more)) == Ok((file + Frames(more), rs[..k] + more))
  {
    hide Frame, Frames, OpenLog, Header;
    TornLog(rs, cut);
    var kept := rs[..WholeFrames(rs, cut - 12)];
    FramesAppend(kept, more);
    OpenWholeLog(kept + more);
    assert Header() + Frames(kept) + Frames(more) == Header() + (Frames(kept) + Frames(more));
  }

  // The LSNs count up from `start`.
  predicate Numbered(rs: seq<RawRecord>, start: nat) {
    forall i :: 0 <= i < |rs| ==> rs[i].lsn == start + i
  }

  // The records that appending these payloads makes, when the next LSN is `start`.
  function Stamped(payloads: seq<bytes>, start: nat): (rs: seq<RawRecord>)
    ensures |rs| == |payloads| && Numbered(rs, start)
    ensures forall i :: 0 <= i < |rs| ==> rs[i].payload == payloads[i]
  {
    seq(|payloads|, i requires 0 <= i < |payloads| => RawRecord(start + i, payloads[i]))
  }

  // What is appended to a torn and reopened log, numbered from its next LSN on, is found behind the
  // surviving records on the next open; the LSNs go on by one from the last survivor, and so does
  // the numbering after that open.
  lemma AppendAfterTear(rs: seq<RawRecord>, cut: nat, payloads: seq<bytes>)
    requires AllFramable(rs) && 12 <= cut <= |Header() + Frames(rs)|
    requires forall i :: 0 <= i < |payloads| ==> |payloads[i]| < TWO32
    requires NextLsn(rs[..WholeFrames(rs, cut - 12)]) + |payloads| <= TWO64
    ensures var kept := rs[..WholeFrames(rs, cut - 12)];
      var more := Stamped(payloads, NextLsn(kept));
      && OpenLog((Header() + Frames(rs))[..cut]) == Ok((Header() + Frames(kept), kept))
      && OpenLog(Header() + Frames(kept) + Frames(more)) == Ok((Header() + Frames(kept) + Frames(more), kept + more))
      && NextLsn(kept + more) == NextLsn(kept) + |payloads|
      && (forall i :: |kept| <= i < |kept + more| && i > 0 ==> (kept + more)[i].lsn == (kept + more)[i - 1].lsn + 1)
  {
    hide Frame, Frames, OpenLog, Header, WholeFrames;
    var kept := rs[..WholeFrames(rs, cut - 12)];
    TornLog(rs, cut);
    FramesAfterTear(rs, cut, Stamped(payloads, NextLsn(kept)));
  }

  // --- damaged logs ---------------------------------------------------------------------------------

  // The frame of `r` with the bytes of its body from `at` on replaced by those of `x`.
  function Damaged(r: RawRecord, at: nat, x: bytes): bytes
    requires at + |x| <= |Body(r)|
  {
    Frame(r)[..8] + (Body(r)[..at] + x + Body(r)[at + |x|..])
  }

  lemma DamagedSum(r: RawRecord, at: nat, x: bytes)
    requires at + |x| <= |Body(r)| && |x| <= 4
    requires Body(r)[at..at + |x|] != x
    ensures Crc.Crc32(Body(r)[..at] + x + Body(r)[at + |x|..]) != Crc.Crc32(Body(r))
  {
    hide Crc.Crc32, Body;
    var b := Body(r);
    assert b == b[..at] + b[at..at + |x|] + b[at + |x|..];
    Crc.BurstChangesCrc(b[..at], b[at..at + |x|], x, b[at + |x|..]);
  }

  lemma DamagedFrame(before: bytes, r: RawRecord, at: nat, x: bytes, after: bytes)
    requires Framable(r) && at + |x| <= |Body(r)| && |x| <= 4
    requires Body(r)[at..at + |x|] != x
    ensures FrameAt(before + Damaged(r, at, x) + after, |before|).None?
  {
    hide Le, UnLe, Crc.Crc32;
    var sum := Crc.Crc32(Body(r));
    var bad := Body(r)[..at] + x + Body(r)[at + |x|..];
    var raw, pos := before + Damaged(r, at, x) + after, |before|;
    DamagedSum(r, at, x);
    U32RoundTrip(|r.payload|);
    U32RoundTrip(sum);
    var head := Frame(r)[..8];
    assert head[..4] == Le(|r.payload|, 4) && head[4..] == Le(sum, 4);
    assert raw[pos..pos + 4] == head[..4];
    assert raw[pos + 4..pos + 8] == head[4..];
    assert raw[pos + 8..pos + FRAME_HEADER + |r.payload|] == bad;
  }

  // A burst of at most four changed bytes in the body of record `i`: open returns exactly the
  // records before it and cuts the file there.
  lemma DamagedLog(rs: seq<RawRecord>, i: nat, at: nat, x: bytes)
    requires AllFramable(rs) && i < |rs|
    requires at + |x| <= |Body(rs[i])| && |x| <= 4 && Body(rs[i])[at..at + |x|] != x
    ensures OpenLog(Header() + Frames(rs[..i]) + (Damaged(rs[i], at, x) + Frames(rs[i + 1..])))
         == Ok((Header() + Frames(rs[..i]), rs[..i]))
  {
    hide Header, Frames, OpenLog, Body, Damaged, Frame, FrameAt;
    var before, after := Header() + Frames(rs[..i]), Frames(rs[i + 1..]);
    DamagedFrame(before, rs[i], at, x, after);
    var tail := Damaged(rs[i], at, x) + after;
    assert before + tail == before + Damaged(rs[i], at, x) + after;
    OpenFrames(rs[..i], tail);
  }
}
