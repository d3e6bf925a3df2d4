/** Snapshots as bytes: the encoder, the decoder, and the round trip (`src/storage.rs`). */
module Snapshot {
  import opened Bytes
  import opened Wrappers
  import opened Tables
  import opened Codec
  import opened Storage
  import Crc

  function EncTable(t: Table): bytes {
    EncBytes(t.name) + (EncSchema(t.schema) + (Le(t.nrows, 8) + EncAll(EncColumn, t.columns)))
  }

  function SnapshotBody(tables: seq<Table>, lsn: nat): bytes {
    (SNAPSHOT_MAGIC + VERSION) + (Le(lsn, 8) + (Le(|tables|, 8) + EncAll(EncTable, tables)))
  }

  function EncodeSnapshot(tables: seq<Table>, lsn: nat): bytes {
    SnapshotBody(tables, lsn) + Le(Crc.Crc32(SnapshotBody(tables, lsn)), 4)
  }

  function TableAt(data: bytes, pos: nat): Parsed<Table> {
    var (name, p) :- StrAt(data, pos);
    var (schema, q) :- SchemaAt(data, p);
    var (nrows, r) :- U64At(data, q);
    var (columns, s) :- EachAt(ColumnAt, schema.Types(), data, r, []);
    var t := FromColumns(name, schema, columns);
    if t.Err? then Bad(t.error, s)
    else if t.value.nrows != nrows then Bad(BadRowCount, s)
    else Got(t.value, s)
  }

  // The reader's part of `decode_snapshot`, behind the signature.
  function SnapshotAt(body: bytes): Parsed<(seq<Table>, u64)> {
    var (_, o) :- TakeAt(body, 0, 8);
    var (version, p) :- U32At(body, o);
    if version != 1 then Bad(BadVersion, p)
    else
      var (lsn, q) :- U64At(body, p);
      var (n, r) :- U64At(body, q);
      var (tables, s) :- ManyAt(TableAt, body, r, n, []);
      Got((tables, lsn), s)
  }

  function DecodeSnapshot(raw: bytes): Result<(seq<Table>, u64)> {
    if |raw| < 28 || raw[..8] != SNAPSHOT_MAGIC then Err(BadMagic)
    else
      var body := raw[..|raw| - 4];
      if Crc.Crc32(body) != UnLe(raw[|raw| - 4..]) then Err(BadChecksum)
      else SnapshotAt(body).Outcome()
  }

  // A valid table reads back as itself, whatever follows it.
  lemma TableBack(data: bytes, pos: nat, t: Table)
    requires t.Valid() && t.nrows < TWO64
    requires Holds(data, pos, EncTable(t))
    ensures TableAt(data, pos) == Got(t, pos + |EncTable(t)|)
  {
    hide Holds, EncBytes, EncSchema, EncColumn, Le, StrAt, SchemaAt, U64At, ColumnAt, EachAt, EncAll, FromColumns;
    var cols := EncAll(EncColumn, t.columns);
    var p := pos + |EncBytes(t.name)|;
    var q := p + |EncSchema(t.schema)|;
    HoldsSplit(data, pos, EncBytes(t.name), EncSchema(t.schema) + (Le(t.nrows, 8) + cols));
    HoldsSplit(data, p, EncSchema(t.schema), Le(t.nrows, 8) + cols);
    HoldsSplit(data, q, Le(t.nrows, 8), cols);
    StrBack(data, pos, t.name);
    SchemaBack(data, p, t.schema);
    U64Back(data, q, t.nrows);
    ColumnsBack(data, q + 8, t);
    FromColumnsRestores(t);
  }

  lemma ColumnsBack(data: bytes, pos: nat, t: Table)
    requires t.Valid()
    requires Holds(data, pos, EncAll(EncColumn, t.columns))
    ensures EachAt(ColumnAt, t.schema.Types(), data, pos, [])
         == Got(t.columns, pos + |EncAll(EncColumn, t.columns)|)
  {
    hide Holds, EncColumn, ColumnAt, EncAll, EachAt;
    var types := t.schema.Types();
    forall i, p: nat | 0 <= i < |t.columns| && Holds(data, p, EncColumn(t.columns[i]))
      ensures ColumnAt(types[i], data, p) == Got(t.columns[i], p + |EncColumn(t.columns[i])|)
    {
      ColumnBack(data, p, t.columns[i]);
    }
    EachBack(EncColumn, ColumnAt, types, data, pos, t.columns, t.columns, []);
    assert [] + t.columns == t.columns;
  }

  predicate Storable(tables: seq<Table>) {
    |tables| < TWO64 && forall i :: 0 <= i < |tables| ==> tables[i].Valid() && tables[i].nrows < TWO64
  }

  lemma TablesBack(data: bytes, pos: nat, tables: seq<Table>)
    requires Storable(tables)
    requires Holds(data, pos, EncAll(EncTable, tables))
    ensures ManyAt(TableAt, data, pos, |tables|, []) == Got(tables, pos + |EncAll(EncTable, tables)|)
  {
    hide Holds, EncTable, TableAt, EncAll, ManyAt;
    forall i, p: nat | 0 <= i < |tables| && Holds(data, p, EncTable(tables[i]))
      ensures TableAt(data, p) == Got(tables[i], p + |EncTable(tables[i])|)
    {
      TableBack(data, p, tables[i]);
    }
    ManyBack(EncTable, TableAt, data, pos, tables, tables, []);
    assert [] + tables == tables;
  }

  lemma BodyBack(tables: seq<Table>, lsn: u64)
    requires Storable(tables)
    ensures SnapshotAt(SnapshotBody(tables, lsn)).Outcome() == Ok((tables, lsn))
  {
    hide Holds, EncTable, TableAt, EncAll, ManyAt, U64At, Le;
    var body := SnapshotBody(tables, lsn);
    var rest := EncAll(EncTable, tables);
    assert Holds(body, 0, SnapshotBody(tables, lsn)) by { WholeHolds(body); }
    HoldsSplit(body, 0, SNAPSHOT_MAGIC + VERSION, Le(lsn, 8) + (Le(|tables|, 8) + rest));
    HoldsSplit(body, 12, Le(lsn, 8), Le(|tables|, 8) + rest);
    HoldsSplit(body, 20, Le(|tables|, 8), rest);
    VersionBack(body, Le(lsn, 8) + (Le(|tables|, 8) + rest));
    U64Back(body, 12, lsn);
    U64Back(body, 20, |tables|);
    TablesBack(body, 28, tables);
  }

  lemma WholeHolds(data: bytes)
    ensures Holds(data, 0, data)
  {
  }

  lemma VersionBack(data: bytes, rest: bytes)
    requires data == (SNAPSHOT_MAGIC + VERSION) + rest
    ensures TakeAt(data, 0, 8) == Got(SNAPSHOT_MAGIC, 8) && U32At(data, 8) == Got(1, 12)
  {
    assert data[0..8] == SNAPSHOT_MAGIC;
    assert data[8..12] == VERSION == Le(1, 4) by {
      assert Le(0, 3) == [0, 0, 0];
    }
    U32RoundTrip(1);
  }

  // Decoding an encoded snapshot gives back the same tables, in the same order, and the LSN.
  lemma SnapshotRoundTrip(tables: seq<Table>, lsn: u64)
    requires Storable(tables)
    ensures DecodeSnapshot(EncodeSnapshot(tables, lsn)) == Ok((tables, lsn))
  {
    hide Crc.Crc32, EncTable, EncAll, Le, UnLe, SnapshotAt;
    var body := SnapshotBody(tables, lsn);
    var raw := EncodeSnapshot(tables, lsn);
    U32RoundTrip(Crc.Crc32(body));
    assert raw[..|raw| - 4] == body && raw[|raw| - 4..] == Le(Crc.Crc32(body), 4);
    assert raw[..8] == SNAPSHOT_MAGIC;
    BodyBack(tables, lsn);
  }

  // --- damage ---------------------------------------------------------------------------------------

  // The bytes from `at` on replaced by those of `x`.
  function Overwritten(raw: bytes, at: nat, x: bytes): (r: bytes)
    requires at + |x| <= |raw|
    ensures |r| == |raw|
  {
    raw[..at] + x + raw[at + |x|..]
  }

  lemma StoredSum(b: bytes)
    requires |b| == 4
    ensures Le(UnLe(b), 4) == b
  {
    UnLeRoundTrip(b);
  }

  // Damage in the data: the sum changes.
  lemma DataDamaged(body: bytes, sum: bytes, at: nat, x: bytes)
    requires sum == Le(Crc.Crc32(body), 4) && |x| <= 4 && at + |x| <= |body| && body[at..at + |x|] != x
    ensures Crc.Crc32(Overwritten(body, at, x)) != UnLe(sum)
  {
    hide Crc.Crc32, Le, UnLe;
    assert body == body[..at] + body[at..at + |x|] + body[at + |x|..];
    Crc.BurstChangesCrc(body[..at], body[at..at + |x|], x, body[at + |x|..]);
    U32RoundTrip(Crc.Crc32(body));
  }

  // Damage in the stored sum alone.
  lemma SumDamaged(body: bytes, bad: bytes)
    requires |bad| == 4 && bad != Le(Crc.Crc32(body), 4)
    ensures Crc.Crc32(body) != UnLe(bad)
  {
    hide Crc.Crc32, Le, UnLe;
    StoredSum(bad);
  }

  // Damage at the end of the data and the beginning of the stored sum: the new sum would have to
  // agree with the bytes of the old one that are still there.
  lemma BothDamaged(before: bytes, y: bytes, x: bytes, z: bytes)
    requires |x| == |y| && x != y && |x| + |z| <= 4
    ensures var sum := Le(Crc.Crc32(before + y), 4);
      Crc.Crc32(before + x) != UnLe(z + sum[|z|..])
  {
    hide Crc.Crc32, Le, UnLe;
    var sum := Le(Crc.Crc32(before + y), 4);
    Crc.BurstAcrossSum(before, x, y, |z|);
    StoredSum(z + sum[|z|..]);
    assert Crc.SameFrom(z + sum[|z|..], sum, |z|);
  }

  lemma OverwrittenLeft(b: bytes, s: bytes, at: nat, x: bytes)
    requires at + |x| <= |b|
    ensures Overwritten(b + s, at, x) == Overwritten(b, at, x) + s && (b + s)[at..at + |x|] == b[at..at + |x|]
  {
  }

  lemma OverwrittenRight(b: bytes, s: bytes, i: nat, x: bytes)
    requires i + |x| <= |s|
    ensures Overwritten(b + s, |b| + i, x) == b + Overwritten(s, i, x)
    ensures (b + s)[|b| + i..|b| + i + |x|] == s[i..i + |x|]
  {
  }

  lemma OverwrittenAcross(b: bytes, y: bytes, s: bytes, x: bytes, z: bytes)
    requires |x| == |y| && |z| <= |s|
    ensures Overwritten(b + y + s, |b|, x + z) == (b + x) + (z + s[|z|..])
    ensures (b + y + s)[|b|..|b| + |x + z|] == y + s[..|z|]
  {
  }

  lemma OverwrittenDiffers(s: bytes, i: nat, x: bytes)
    requires i + |x| <= |s| && s[i..i + |x|] != x
    ensures Overwritten(s, i, x) != s
  {
    assert Overwritten(s, i, x)[i..i + |x|] == x;
  }

  // The sum does not fit the data, whatever whole it is split off from.
  lemma Refuses(whole: bytes, data: bytes, sum: bytes)
    requires whole == data + sum && Crc.Crc32(data) != UnLe(sum)
    ensures Crc.Crc32(whole[..|data|]) != UnLe(whole[|data|..])
  {
    assert whole[..|data|] == data && whole[|data|..] == sum;
  }

  lemma AcrossNoticed(before: bytes, y: bytes, x: bytes, z: bytes)
    requires |x| == |y| && |x| + |z| <= 4
    requires y + Le(Crc.Crc32(before + y), 4)[..|z|] != x + z
    ensures var sum := Le(Crc.Crc32(before + y), 4);
      Crc.Crc32(before + x) != UnLe(z + sum[|z|..])
  {
    hide Crc.Crc32, Le, UnLe;
    var sum := Le(Crc.Crc32(before + y), 4);
    if x == y {
      assert (z + sum[|z|..])[..|z|] == z;
      SumDamaged(before + y, z + sum[|z|..]);
    } else {
      BothDamaged(before, y, x, z);
    }
  }

  // Data with its sum behind it: no burst of at most four bytes, wherever it lies, goes unnoticed.
  lemma DamageNoticed(body: bytes, at: nat, x: bytes)
    requires var raw := body + Le(Crc.Crc32(body), 4);
      |x| <= 4 && at + |x| <= |raw| && raw[at..at + |x|] != x
    ensures var bad := Overwritten(body + Le(Crc.Crc32(body), 4), at, x);
      Crc.Crc32(bad[..|body|]) != UnLe(bad[|body|..])
  {
    hide Crc.Crc32, Le, UnLe, Overwritten;
    var n, sum := |body|, Le(Crc.Crc32(body), 4);
    var bad := Overwritten(body + sum, at, x);
    if at + |x| <= n {
      OverwrittenLeft(body, sum, at, x);
      DataDamaged(body, sum, at, x);
      Refuses(bad, Overwritten(body, at, x), sum);
    } else if at >= n {
      OverwrittenRight(body, sum, at - n, x);
      OverwrittenDiffers(sum, at - n, x);
      SumDamaged(body, Overwritten(sum, at - n, x));
      Refuses(bad, body, Overwritten(sum, at - n, x));
    } else {
      var b, y, x1, z := body[..at], body[at..], x[..n - at], x[n - at..];
      assert body == b + y && x == x1 + z;
      OverwrittenAcross(b, y, sum, x1, z);
      AcrossNoticed(b, y, x1, z);
      Refuses(bad, b + x1, z + sum[|z|..]);
    }
  }

  // Up to four consecutive damaged bytes anywhere in a snapshot, in its signature, its body, its sum
  // or across them, make it unreadable, never misread.
  lemma DamagedSnapshotRefused(tables: seq<Table>, lsn: u64, at: nat, x: bytes)
    requires |x| <= 4 && at + |x| <= |EncodeSnapshot(tables, lsn)|
    requires EncodeSnapshot(tables, lsn)[at..at + |x|] != x
    ensures DecodeSnapshot(Overwritten(EncodeSnapshot(tables, lsn), at, x)).Err?
    ensures at >= 8 ==> DecodeSnapshot(Overwritten(EncodeSnapshot(tables, lsn), at, x)) == Err(BadChecksum)
  {
    hide Crc.Crc32, EncTable, EncAll, Le, UnLe, SnapshotAt;
    var raw := EncodeSnapshot(tables, lsn);
    var body := SnapshotBody(tables, lsn);
    DamageNoticed(body, at, x);
    var bad := Overwritten(raw, at, x);
    assert |bad| - 4 == |body|;
    assert at >= 8 ==> bad[..8] == raw[..8] == SNAPSHOT_MAGIC;
  }
}
