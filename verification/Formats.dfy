/**
 The bytes of the format, spelled out (`src/codec.rs`, `src/storage.rs`): where each part of a frame
 stands, and the whole of a record of each kind and of a snapshot, with values of every type.
 */
module Formats {
  import opened Bytes
  import opened Wrappers
  import opened Columns
  import opened Tables
  import opened Codec
  import opened Storage
  import opened Snapshot
  import Crc

  // --- integers ---------------------------------------------------------------------------------------

  // Octet `i` counts 256 to the power of `i`.
  lemma {:induction false} OctetAt(v: nat, k: nat, i: nat)
    requires i < k
    ensures Pow256(i) > 0 && Le(v, k)[i] == v / Pow256(i) % 0x100
  {
    if i > 0 {
      OctetAt(v / 0x100, k - 1, i - 1);
      DivideTwice(v, Pow256(i - 1));
    }
  }

  lemma DivideTwice(v: nat, p: nat)
    requires p > 0
    ensures v / 0x100 / p == v / (0x100 * p)
  {
    var q := v / 0x100 / p;
    assert v / 0x100 == q * p + v / 0x100 % p;
    assert q * (0x100 * p) == 0x100 * (q * p) && (q + 1) * (0x100 * p) == 0x100 * (q * p) + 0x100 * p;
    QuotientIs(v, 0x100 * p, q);
  }

  // Small numbers in four and in eight octets.
  function W4(v: byte): bytes {
    [v, 0, 0, 0]
  }

  function W8(v: byte): bytes {
    [v, 0, 0, 0, 0, 0, 0, 0]
  }

  lemma SmallWords(v: byte)
    ensures Le(v, 4) == W4(v) && Le(v, 8) == W8(v)
  {
    assert Le(0, 3) == [0] + Le(0, 2) && Le(0, 2) == [0] + Le(0, 1);
    assert Le(v, 4) == [v] + Le(0, 3);
    assert Le(0, 7) == [0] + Le(0, 6) && Le(0, 6) == [0] + Le(0, 5) && Le(0, 5) == [0] + Le(0, 4);
    assert Le(0, 4) == [0] + Le(0, 3);
    assert Le(v, 8) == [v] + Le(0, 7);
  }

  // --- the log ----------------------------------------------------------------------------------------

  // The log begins with "VELDBWAL" and the version 1.
  lemma HeaderLayout()
    ensures |WAL_MAGIC| == |"VELDBWAL"| && forall i :: 0 <= i < 8 ==> Header()[i] == "VELDBWAL"[i] as int
    ensures Header()[8..] == [1, 0, 0, 0]
  {
  }

  // A frame is the length of the payload, the sum of all that follows the sum, the LSN, the payload.
  lemma FrameLayout(r: RawRecord)
    ensures var f := Frame(r);
      && f[0..4] == Le(|r.payload|, 4) && f[4..8] == Le(Crc.Crc32(f[8..]), 4) && f[8..16] == Le(r.lsn, 8)
      && f[16..] == r.payload
  {
    var f, body := Frame(r), Body(r);
    hide Crc.Crc32, Le, Frame, Body;
    FrameParts(r);
    Split(Le(|r.payload|, 4), Le(Crc.Crc32(body), 4), body, 4, 8);
    Split(Le(r.lsn, 8), r.payload, [], 8, |body|);
    assert r.payload + [] == r.payload;
    assert f[8..16] == f[8..][..8] && f[16..] == f[8..][8..];
    assert body[..|body|] == body && body[8..|body|] == body[8..];
  }

  lemma FrameParts(r: RawRecord)
    ensures Frame(r) == Le(|r.payload|, 4) + (Le(Crc.Crc32(Body(r)), 4) + Body(r))
    ensures Body(r) == Le(r.lsn, 8) + r.payload
  {
  }

  lemma Split(a: bytes, b: bytes, c: bytes, i: nat, j: nat)
    requires i == |a| && j == |a| + |b|
    ensures var s := a + (b + c);
      s[0..i] == a && s[i..j] == b && s[j..] == c && s[..i] == a
  {
  }

  // --- values and columns -----------------------------------------------------------------------------

  const HI: Text := [0x68, 0x69]

  // Integers and doubles by their 64 bits, booleans by one octet, texts behind their length, vectors
  // behind their number of entries of 32 bits.
  lemma ValueBytes()
    ensures EncValue(Value.I64(7)) == W8(7) && EncValue(Value.I64(-1)) == Le(0xFFFF_FFFF_FFFF_FFFF, 8)
    ensures EncValue(Value.F64(9)) == W8(9)
    ensures EncValue(Value.Bool(true)) == [1] && EncValue(Value.Bool(false)) == [0]
    ensures EncValue(Value.Str(HI)) == W8(2) + [0x68, 0x69]
    ensures EncValue(Value.Vector([5, 6])) == W8(2) + (W4(5) + W4(6))
  {
    SmallWords(7);
    SmallWords(9);
    SmallWords(2);
    TwoWords(5, 6);
    hide Le, W4, W8;
  }

  lemma TwoWords(a: byte, b: byte)
    ensures EncWords([a, b], 4) == W4(a) + W4(b)
  {
    SmallWords(a);
    SmallWords(b);
    hide Le, W4, W8;
    assert [a, b][1..] == [b] && [b][1..] == [] && EncWords([], 4) == [];
    assert EncWords([b], 4) == Le(b, 4) + [];
    assert W4(b) + [] == W4(b);
  }

  lemma TypeBytes()
    ensures EncType(DataType.I64) == [1] && EncType(DataType.F64) == [2] && EncType(DataType.Bool) == [3]
    ensures EncType(DataType.Str) == [4] && EncType(DataType.Vector(2)) == [5] + W8(2)
  {
    SmallWords(2);
    hide Le, W4, W8;
  }

  // A column of numbers is their count and the numbers; one of texts its offsets, then its buffer; one
  // of vectors its dimension, then all entries.
  lemma ColumnBytes()
    ensures EncColumn(Column.I64([7])) == W8(1) + W8(7)
    ensures EncColumn(Column.Bool([1, 0])) == W8(2) + [1, 0]
    ensures EncColumn(Column.Str(StrColumn(HI, [0, 2]))) == (W8(2) + (W4(0) + W4(2))) + (W8(2) + [0x68, 0x69])
    ensures EncColumn(Column.Vector(2, [5, 6])) == W8(2) + (W8(2) + (W4(5) + W4(6)))
  {
    SmallWords(1);
    SmallWords(2);
    TwoWords(0, 2);
    TwoWords(5, 6);
    OneLong();
    hide Le, W4, W8, EncWords;
  }

  lemma OneLong()
    ensures EncWords(Unsigned([7]), 8) == W8(7)
  {
    SmallWords(7);
    hide Le, W4, W8;
    assert Unsigned([7]) == [7] && [7][1..] == [] && EncWords([], 8) == [];
    assert W8(7) + [] == W8(7);
  }

  // --- records ----------------------------------------------------------------------------------------

  const T: Text := [0x74]

  function OneInteger(): Schema {
    Schema([Field(T, DataType.I64)])
  }

  lemma NameBytes()
    ensures EncBytes(T) == W8(1) + [0x74] && Le(1, 8) == W8(1)
  {
    SmallWords(1);
    hide Le, W4, W8;
  }

  // The number of columns, then each with its name and its type.
  lemma SchemaBytes()
    ensures EncSchema(OneInteger()) == W8(1) + ((W8(1) + [0x74]) + [1])
  {
    NameBytes();
    hide Le, EncBytes, W4, W8;
    OneItem(EncField, OneInteger().fields[0]);
  }

  lemma OneItem<A>(enc: A -> bytes, a: A)
    ensures EncAll(enc, [a]) == enc(a)
  {
    assert [a][1..] == [] && EncAll(enc, []) == [];
    assert enc(a) + [] == enc(a);
  }

  // CREATE is 1, DROP is 2, INSERT is 3; then the name, and what belongs to it.
  lemma RecordBytes(schemaOf: SchemaOf)
    requires schemaOf(T) == Some(OneInteger())
    ensures EncodeRecord(schemaOf, CreateTable(T, OneInteger()))
         == Ok([1] + ((W8(1) + [0x74]) + (W8(1) + ((W8(1) + [0x74]) + [1]))))
    ensures EncodeRecord(schemaOf, DropTable(T)) == Ok([2] + (W8(1) + [0x74]))
    ensures EncodeRecord(schemaOf, WalRecord.Insert(T, [[Value.I64(7)]]))
         == Ok([3] + ((W8(1) + [0x74]) + (W8(1) + W8(7))))
  {
    NameBytes();
    SchemaBytes();
    ValueBytes();
    hide Le, EncBytes, EncSchema, W4, W8, EncValue, EncAll;
    OneItem(EncValue, Value.I64(7));
    OneItem(EncRow, [Value.I64(7)]);
    assert EncRow([Value.I64(7)]) == W8(7);
  }

  // --- snapshots --------------------------------------------------------------------------------------

  function OneTable(): Table {
    Table(T, OneInteger(), [Column.I64([7])], 1)
  }

  // "VELDBSNP", the version, the LSN, the number of tables; of each table its name, its schema, the
  // number of its rows, its columns; and the sum of all that.
  function SnapshotBytes(): bytes {
    ([0x56, 0x45, 0x4C, 0x44, 0x42, 0x53, 0x4E, 0x50] + W4(1)) +
    (W8(3) + (W8(1) + ((W8(1) + [0x74]) + ((W8(1) + ((W8(1) + [0x74]) + [1])) + (W8(1) + (W8(1) + W8(7)))))))
  }

  lemma SnapshotIs()
    ensures EncodeSnapshot([OneTable()], 3) == SnapshotBytes() + Le(Crc.Crc32(SnapshotBytes()), 4)
  {
    NameBytes();
    SchemaBytes();
    SmallWords(3);
    ColumnBytes();
    assert VERSION == W4(1);
    hide Le, EncBytes, EncSchema, EncColumn, Crc.Crc32, EncAll, W4, W8;
    OneItem(EncColumn, Column.I64([7]));
    OneItem(EncTable, OneTable());
  }
}
