/**
 The writer and the reader of `src/codec.rs` as the mutable objects they are. The functions of
 Codec say what a writer appends and where a reader, succeeding or failing, ends up.
 */
module Streams {
  import opened Bytes
  import opened Wrappers
  import opened Columns
  import opened Tables
  import opened Codec

  class Writer {
    var buf: bytes

    constructor ()
      ensures buf == []
    {
      buf := [];
    }

    method U8(v: byte)
      modifies this
      ensures buf == old(buf) + [v]
    {
      buf := buf + [v];
    }

    method U32(v: u32)
      modifies this
      ensures buf == old(buf) + Le(v, 4)
    {
      buf := buf + Le(v, 4);
    }

    method U64(v: nat)
      modifies this
      ensures buf == old(buf) + Le(v, 8)
    {
      buf := buf + Le(v, 8);
    }

    method Bytes(v: bytes)
      modifies this
      ensures buf == old(buf) + EncBytes(v)
    {
      U64(|v|);
      buf := buf + v;
    }

    method Raw(ws: seq<nat>, width: nat)
      modifies this
      ensures buf == old(buf) + EncRaw(ws, width)
    {
      U64(|ws|);
      buf := buf + EncWords(ws, width);
    }

    method Type(ty: DataType)
      modifies this
      ensures buf == old(buf) + EncType(ty)
    {
      match ty
      case I64 => U8(1);
      case F64 => U8(2);
      case Bool => U8(3);
      case Str => U8(4);
      case Vector(d) =>
        U8(5);
        U64(d);
        assert old(buf) + [5] + Le(d, 8) == old(buf) + ([5] + Le(d, 8));
    }

    method Schema(s: Schema)
      modifies this
      ensures buf == old(buf) + EncSchema(s)
    {
      hide EncField, Le;
      U64(|s.fields|);
      for i := 0 to |s.fields|
        invariant buf + EncAll(EncField, s.fields[i..]) == old(buf) + EncSchema(s)
      {
        ghost var before := buf;
        var f := s.fields[i];
        Bytes(f.name);
        Type(f.ty);
        assert s.fields[i..][0] == f && s.fields[i..][1..] == s.fields[i + 1..];
        FieldWritten(before, buf, f, EncAll(EncField, s.fields[i + 1..]));
      }
      assert buf + EncAll(EncField, []) == buf;
    }

    method Value(v: Value)
      modifies this
      ensures buf == old(buf) + EncValue(v)
    {
      match v
      case I64(x) => U64(AsU64(x));
      case F64(x) => U64(x);
      case Bool(x) => U8(if x then 1 else 0);
      case Str(x) => Bytes(x);
      case Vector(x) => Raw(x, 4);
    }

    method Column(c: Column)
      modifies this
      ensures buf == old(buf) + EncColumn(c)
    {
      hide Le, EncBytes, EncRaw;
      match c
      case I64(v) => Raw(Unsigned(v), 8);
      case F64(v) => Raw(v, 8);
      case Bool(v) => Bytes(v);
      case Vector(dim, data) =>
        U64(dim);
        Raw(data, 4);
        Assoc(old(buf), Le(dim, 8), EncRaw(data, 4));
      case Str(s) =>
        Raw(s.offsets, 4);
        Bytes(s.buf);
        Assoc(old(buf), EncRaw(s.offsets, 4), EncBytes(s.buf));
    }
  }

  lemma FieldWritten(before: bytes, after: bytes, f: Field, rest: bytes)
    requires after == before + EncBytes(f.name) + EncType(f.ty)
    ensures after + rest == before + (EncField(f) + rest)
  {
  }

  class Reader {
    const data: bytes
    var pos: nat

    constructor (data: bytes)
      ensures this.data == data && pos == 0
    {
      this.data := data;
      pos := 0;
    }

    method Take(n: nat) returns (r: Result<bytes>)
      modifies this
      ensures r == TakeAt(data, old(pos), n).Outcome() && pos == TakeAt(data, old(pos), n).pos
    {
      if pos + n > |data| {
        return Err(Truncated);
      }
      r := Ok(data[pos..pos + n]);
      pos := pos + n;
    }

    method U8() returns (r: Result<byte>)
      modifies this
      ensures r == U8At(data, old(pos)).Outcome() && pos == U8At(data, old(pos)).pos
    {
      var b :- Take(1);
      r := Ok(b[0]);
    }

    method U32() returns (r: Result<u32>)
      modifies this
      ensures r == U32At(data, old(pos)).Outcome() && pos == U32At(data, old(pos)).pos
    {
      var b :- Take(4);
      UnLe4(b);
      r := Ok(UnLe(b));
    }

    method U64() returns (r: Result<u64>)
      modifies this
      ensures r == U64At(data, old(pos)).Outcome() && pos == U64At(data, old(pos)).pos
    {
      var b :- Take(8);
      UnLe8(b);
      r := Ok(UnLe(b));
    }

    method Bytes() returns (r: Result<bytes>)
      modifies this
      ensures r == BytesAt(data, old(pos)).Outcome() && pos == BytesAt(data, old(pos)).pos
    {
      var n :- U64();
      r := Take(n);
    }

    method Str() returns (r: Result<Text>)
      modifies this
      ensures r == StrAt(data, old(pos)).Outcome() && pos == StrAt(data, old(pos)).pos
    {
      var b :- Bytes();
      r := if Utf8(b) && |b| < TWO64 then Ok(b) else Err(NotUtf8);
    }

    method Raw64() returns (r: Result<seq<u64>>)
      modifies this
      ensures r == Raw64At(data, old(pos)).Outcome() && pos == Raw64At(data, old(pos)).pos
    {
      var n :- U64();
      var b :- Take(n as nat * 8);
      Pow256Values();
      r := Ok(WordsOf(b, 8));
    }

    method Raw32() returns (r: Result<seq<u32>>)
      modifies this
      ensures r == Raw32At(data, old(pos)).Outcome() && pos == Raw32At(data, old(pos)).pos
    {
      var n :- U64();
      var b :- Take(n as nat * 4);
      Pow256Values();
      r := Ok(WordsOf(b, 4));
    }

    method Type() returns (r: Result<DataType>)
      modifies this
      ensures r == TypeAt(data, old(pos)).Outcome() && pos == TypeAt(data, old(pos)).pos
    {
      var tag :- U8();
      match tag
      case 1 => r := Ok(DataType.I64);
      case 2 => r := Ok(DataType.F64);
      case 3 => r := Ok(DataType.Bool);
      case 4 => r := Ok(DataType.Str);
      case 5 =>
        var d :- U64();
        r := Ok(DataType.Vector(d));
      case _ => r := Err(UnknownType);
    }

    method Schema() returns (r: Result<Schema>)
      modifies this
      ensures r == SchemaAt(data, old(pos)).Outcome() && pos == SchemaAt(data, old(pos)).pos
    {
      hide StrAt, TypeAt, U64At;
      var n :- U64();
      var fields: seq<Field> := [];
      ghost var all := ManyAt(FieldAt, data, pos, n, []);
      for i := 0 to n
        invariant ManyAt(FieldAt, data, pos, n - i, fields) == all
      {
        var name :- Str();
        var ty :- Type();
        fields := fields + [Field(name, ty)];
      }
      r := Ok(Tables.Schema.Schema(fields));
    }

    method Value(ty: DataType) returns (r: Result<Value>)
      modifies this
      ensures r == ValueAt(ty, data, old(pos)).Outcome() && pos == ValueAt(ty, data, old(pos)).pos
    {
      hide StrAt, U64At, U8At, Raw32At;
      match ty
      case I64 =>
        var x :- U64();
        r := Ok(Columns.Value.I64(AsI64(x)));
      case F64 =>
        var x :- U64();
        r := Ok(Columns.Value.F64(x));
      case Bool =>
        var x :- U8();
        r := Ok(Columns.Value.Bool(x != 0));
      case Str =>
        var x :- Str();
        r := Ok(Columns.Value.Str(x));
      case Vector(dim) =>
        var x :- Raw32();
        r := if |x| != dim then Err(BadDimension) else Ok(Columns.Value.Vector(x));
    }

    // The values of one row, by the types of the schema.
    method Row(types: seq<DataType>) returns (r: Result<Row>)
      modifies this
      ensures r == RowAt(types, data, old(pos)).Outcome() && pos == RowAt(types, data, old(pos)).pos
    {
      hide ValueAt;
      var row: Row := [];
      for i := 0 to |types|
        invariant EachAt(ValueAt, types[i..], data, pos, row) == RowAt(types, data, old(pos))
      {
        assert types[i..][0] == types[i] && types[i..][1..] == types[i + 1..];
        var v :- Value(types[i]);
        row := row + [v];
      }
      r := Ok(row);
    }

    method Column(ty: DataType) returns (r: Result<Column>)
      modifies this
      ensures r == ColumnAt(ty, data, old(pos)).Outcome() && pos == ColumnAt(ty, data, old(pos)).pos
    {
      hide U64At, Raw32At, Raw64At, BytesAt, StrColumn.FromParts;
      match ty
      case I64 =>
        var v :- Raw64();
        r := Ok(Columns.Column.I64(Signed(v)));
      case F64 =>
        var v :- Raw64();
        r := Ok(Columns.Column.F64(v));
      case Bool =>
        var v :- Bytes();
        r := Ok(Columns.Column.Bool(v));
      case Str =>
        var offsets :- Raw32();
        var b :- Bytes();
        var s :- StrColumn.FromParts(b, offsets);
        r := Ok(Columns.Column.Str(s));
      case Vector(dim) =>
        var stored :- U64();
        if stored != dim {
          return Err(BadDimension);
        }
        var v :- Raw32();
        r := if dim == 0 || |v| % dim != 0 then Err(BadDimension) else Ok(Columns.Column.Vector(dim, v));
    }
  }
}
