/**
 The binary format (`src/codec.rs`): what the writer appends, what the reader takes, and that
 the second undoes the first whatever follows. Values and columns carry no type tag.
 */
module Codec {
  import opened Bytes
  import opened Wrappers
  import opened Columns
  import opened Tables

  // --- what is written ----------------------------------------------------------------------------

  function EncBytes(b: bytes): bytes {
    Le(|b|, 8) + b
  }

  function EncWords(ws: seq<nat>, width: nat): (b: bytes)
    ensures |b| == |ws| * width
  {
    if ws == [] then [] else Le(ws[0], width) + EncWords(ws[1..], width)
  }

  // `Writer::raw`: the number of elements, then each of them.
  function EncRaw(ws: seq<nat>, width: nat): bytes {
    Le(|ws|, 8) + EncWords(ws, width)
  }

  function EncType(ty: DataType): bytes {
    match ty
    case I64 => [1]
    case F64 => [2]
    case Bool => [3]
    case Str => [4]
    case Vector(d) => [5] + Le(d, 8)
  }

  function EncField(f: Field): bytes {
    EncBytes(f.name) + EncType(f.ty)
  }

  function EncAll<T>(enc: T -> bytes, xs: seq<T>): bytes {
    if xs == [] then [] else enc(xs[0]) + EncAll(enc, xs[1..])
  }

  function EncSchema(s: Schema): bytes {
    Le(|s.fields|, 8) + EncAll(EncField, s.fields)
  }

  function Unsigned(xs: seq<i64>): (us: seq<u64>)
    ensures |us| == |xs|
  {
    seq(|xs|, i requires 0 <= i < |xs| => AsU64(xs[i]))
  }

  function Signed(us: seq<u64>): (xs: seq<i64>)
    ensures |us| == |xs|
  {
    seq(|us|, i requires 0 <= i < |us| => AsI64(us[i]))
  }

  function EncValue(v: Value): bytes {
    match v
    case I64(x) => Le(AsU64(x), 8)
    case F64(x) => Le(x, 8)
    case Bool(x) => [if x then 1 else 0]
    case Str(x) => EncBytes(x)
    case Vector(x) => EncRaw(x, 4)
  }

  function EncRow(row: Row): bytes {
    EncAll(EncValue, row)
  }

  function EncColumn(c: Column): bytes {
    match c
    case I64(v) => EncRaw(Unsigned(v), 8)
    case F64(v) => EncRaw(v, 8)
    case Bool(v) => EncBytes(v)
    case Vector(dim, data) => Le(dim, 8) + EncRaw(data, 4)
    case Str(s) => EncRaw(s.offsets, 4) + EncBytes(s.buf)
  }

  // --- what is read -------------------------------------------------------------------------------

  // The outcome of a read and the position where it leaves the reader.
  datatype Parsed<+T> = Got(value: T, pos: nat) | Bad(error: Error, pos: nat) {
    predicate IsFailure() {
      Bad?
    }

    function PropagateFailure<U>(): Parsed<U>
      requires Bad?
    {
      Bad(error, pos)
    }

    function Extract(): (T, nat)
      requires Got?
    {
      (value, pos)
    }

    function Outcome(): Result<T> {
      if Got? then Ok(value) else Err(error)
    }
  }

  function TakeAt(data: bytes, pos: nat, n: nat): Parsed<bytes> {
    if pos + n <= |data| then Got(data[pos..pos + n], pos + n) else Bad(Truncated, pos)
  }

  function U8At(data: bytes, pos: nat): Parsed<byte> {
    var (b, p) :- TakeAt(data, pos, 1);
    Got(b[0], p)
  }

  function U32At(data: bytes, pos: nat): Parsed<u32> {
    var (b, p) :- TakeAt(data, pos, 4);
    UnLe4(b);
    Got(UnLe(b), p)
  }

  function U64At(data: bytes, pos: nat): Parsed<u64> {
    var (b, p) :- TakeAt(data, pos, 8);
    UnLe8(b);
    Got(UnLe(b), p)
  }

  function BytesAt(data: bytes, pos: nat): Parsed<bytes> {
    var (n, p) :- U64At(data, pos);
    TakeAt(data, p, n)
  }

  function StrAt(data: bytes, pos: nat): Parsed<Text> {
    var (b, p) :- BytesAt(data, pos);
    if Utf8(b) && |b| < TWO64 then Got(b, p) else Bad(NotUtf8, p)
  }

  // `chunks_exact(width)` with each chunk read as an unsigned number.
  function WordsOf(b: bytes, width: nat): (ws: seq<nat>)
    requires width > 0
    ensures forall i :: 0 <= i < |ws| ==> ws[i] < Pow256(width)
    decreases |b|
  {
    if |b| < width then []
    else
      UnLeBound(b[..width]);
      [UnLe(b[..width])] + WordsOf(b[width..], width)
  }

  function RawAt(data: bytes, pos: nat, width: nat): (r: Parsed<seq<nat>>)
    requires width > 0
    ensures r.Got? ==> forall i :: 0 <= i < |r.value| ==> r.value[i] < Pow256(width)
  {
    var (n, p) :- U64At(data, pos);
    var (b, q) :- TakeAt(data, p, n * width);
    Got(WordsOf(b, width), q)
  }

  function Raw64At(data: bytes, pos: nat): Parsed<seq<u64>> {
    var (ws, p) :- RawAt(data, pos, 8);
    Pow256Values();
    Got(ws, p)
  }

  function Raw32At(data: bytes, pos: nat): Parsed<seq<u32>> {
    var (ws, p) :- RawAt(data, pos, 4);
    Pow256Values();
    Got(ws, p)
  }

  function TypeAt(data: bytes, pos: nat): Parsed<DataType> {
    var (tag, p) :- U8At(data, pos);
    match tag
    case 1 => Got(DataType.I64, p)
    case 2 => Got(DataType.F64, p)
    case 3 => Got(DataType.Bool, p)
    case 4 => Got(DataType.Str, p)
    case 5 => var (d, q) :- U64At(data, p); Got(DataType.Vector(d), q)
    case _ => Bad(UnknownType, p)
  }

  function FieldAt(data: bytes, pos: nat): Parsed<Field> {
    var (name, p) :- StrAt(data, pos);
    var (ty, q) :- TypeAt(data, p);
    Got(Field(name, ty), q)
  }

  // `n` items in a row, after those already in `acc`.
  function ManyAt<T>(item: (bytes, nat) -> Parsed<T>, data: bytes, pos: nat, n: nat, acc: seq<T>): Parsed<seq<T>>
    decreases n
  {
    if n == 0 then Got(acc, pos)
    else
      var (x, p) :- item(data, pos);
      ManyAt(item, data, p, n - 1, acc + [x])
  }

  // One item for each of the types, after those already in `acc`.
  function EachAt<T>(item: (DataType, bytes, nat) -> Parsed<T>, types: seq<DataType>, data: bytes, pos: nat,
                     acc: seq<T>):
    (r: Parsed<seq<T>>)
    ensures r.Got? ==> |r.value| == |acc| + |types|
    decreases |types|
  {
    if types == [] then Got(acc, pos)
    else
      var (x, p) :- item(types[0], data, pos);
      EachAt(item, types[1..], data, p, acc + [x])
  }

  function SchemaAt(data: bytes, pos: nat): Parsed<Schema> {
    var (n, p) :- U64At(data, pos);
    var (fields, q) :- ManyAt(FieldAt, data, p, n, []);
    Got(Schema(fields), q)
  }

  function ValueAt(ty: DataType, data: bytes, pos: nat): Parsed<Value> {
    match ty
    case I64 => var (x, p) :- U64At(data, pos); Got(Value.I64(AsI64(x)), p)
    case F64 => var (x, p) :- U64At(data, pos); Got(Value.F64(x), p)
    case Bool => var (x, p) :- U8At(data, pos); Got(Value.Bool(x != 0), p)
    case Str => var (x, p) :- StrAt(data, pos); Got(Value.Str(x), p)
    case Vector(dim) =>
      var (x, p) :- Raw32At(data, pos);
      if |x| != dim then Bad(BadDimension, p) else Got(Value.Vector(x), p)
  }

  function RowAt(types: seq<DataType>, data: bytes, pos: nat): Parsed<Row> {
    EachAt(ValueAt, types, data, pos, [])
  }

  function ColumnAt(ty: DataType, data: bytes, pos: nat): Parsed<Column> {
    match ty
    case I64 => var (v, p) :- Raw64At(data, pos); Got(Column.I64(Signed(v)), p)
    case F64 => var (v, p) :- Raw64At(data, pos); Got(Column.F64(v), p)
    case Bool => var (v, p) :- BytesAt(data, pos); Got(Column.Bool(v), p)
    case Str =>
      var (offsets, p) :- Raw32At(data, pos);
      var (buf, q) :- BytesAt(data, p);
      var s := StrColumn.FromParts(buf, offsets);
      if s.Err? then Bad(s.error, q) else Got(Column.Str(s.value), q)
    case Vector(dim) =>
      var (stored, p) :- U64At(data, pos);
      if stored != dim then Bad(BadDimension, p)
      else
        var (v, q) :- Raw32At(data, p);
        if dim == 0 || |v| % dim != 0 then Bad(BadDimension, q) else Got(Column.Vector(dim, v), q)
  }

  // --- bytes in place -----------------------------------------------------------------------------

  // The bytes `e` stand at position `pos`.
  predicate Holds(data: bytes, pos: nat, e: bytes) {
    pos + |e| <= |data| && data[pos..pos + |e|] == e
  }

  lemma HoldsSplit(data: bytes, pos: nat, a: bytes, b: bytes)
    ensures Holds(data, pos, a + b) <==> Holds(data, pos, a) && Holds(data, pos + |a|, b)
  {
    if pos + |a| + |b| <= |data| {
      assert data[pos..pos + |a + b|] == data[pos..pos + |a|] + data[pos + |a|..pos + |a| + |b|];
      if Holds(data, pos, a + b) {
        assert data[pos..pos + |a|] == (a + b)[..|a|] == a;
        assert data[pos + |a|..pos + |a| + |b|] == (a + b)[|a|..] == b;
      }
    }
  }

  lemma UnLe4(b: bytes)
    requires |b| == 4
    ensures UnLe(b) < TWO32
  {
    Pow256Values();
    UnLeBound(b);
  }

  lemma UnLe8(b: bytes)
    requires |b| == 8
    ensures UnLe(b) < TWO64
  {
    Pow256Values();
    UnLeBound(b);
  }

  lemma U64Back(data: bytes, pos: nat, v: u64)
    requires Holds(data, pos, Le(v, 8))
    ensures U64At(data, pos) == Got(v, pos + 8)
  {
    U64RoundTrip(v);
  }

  lemma BytesBack(data: bytes, pos: nat, b: bytes)
    requires |b| < TWO64 && Holds(data, pos, EncBytes(b))
    ensures BytesAt(data, pos) == Got(b, pos + |EncBytes(b)|)
  {
    HoldsSplit(data, pos, Le(|b|, 8), b);
    U64Back(data, pos, |b|);
  }

  lemma {:induction false} WordsBack(ws: seq<nat>, width: nat)
    requires width > 0 && forall i :: 0 <= i < |ws| ==> ws[i] < Pow256(width)
    ensures WordsOf(EncWords(ws, width), width) == ws
  {
    if ws != [] {
      var b := EncWords(ws, width);
      LeRoundTrip(ws[0], width);
      assert b[..width] == Le(ws[0], width) && b[width..] == EncWords(ws[1..], width);
      WordsBack(ws[1..], width);
    }
  }

  lemma RawBack(data: bytes, pos: nat, ws: seq<nat>, width: nat)
    requires width > 0 && forall i :: 0 <= i < |ws| ==> ws[i] < Pow256(width)
    requires |ws| < TWO64 && Holds(data, pos, EncRaw(ws, width))
    ensures RawAt(data, pos, width) == Got(ws, pos + |EncRaw(ws, width)|)
  {
    HoldsSplit(data, pos, Le(|ws|, 8), EncWords(ws, width));
    U64Back(data, pos, |ws|);
    WordsBack(ws, width);
  }

  lemma Raw64Back(data: bytes, pos: nat, ws: seq<u64>)
    requires |ws| < TWO64 && Holds(data, pos, EncRaw(ws, 8))
    ensures Raw64At(data, pos) == Got(ws, pos + |EncRaw(ws, 8)|)
  {
    Pow256Values();
    RawBack(data, pos, ws, 8);
  }

  lemma Raw32Back(data: bytes, pos: nat, ws: seq<u32>)
    requires |ws| < TWO64 && Holds(data, pos, EncRaw(ws, 4))
    ensures Raw32At(data, pos) == Got(ws, pos + |EncRaw(ws, 4)|)
  {
    Pow256Values();
    RawBack(data, pos, ws, 4);
  }

  lemma TypeBack(data: bytes, pos: nat, ty: DataType)
    requires Holds(data, pos, EncType(ty))
    ensures TypeAt(data, pos) == Got(ty, pos + |EncType(ty)|)
  {
    assert data[pos] == data[pos..pos + |EncType(ty)|][0] == EncType(ty)[0];
    if ty.Vector? {
      HoldsSplit(data, pos, [5], Le(ty.dim, 8));
      U64Back(data, pos + 1, ty.dim);
    }
  }

  lemma FieldBack(data: bytes, pos: nat, f: Field)
    requires Holds(data, pos, EncField(f))
    ensures FieldAt(data, pos) == Got(f, pos + |EncField(f)|)
  {
    hide Holds, TypeAt, BytesAt, EncType, EncBytes;
    HoldsSplit(data, pos, EncBytes(f.name), EncType(f.ty));
    BytesBack(data, pos, f.name);
    TypeBack(data, pos + |EncBytes(f.name)|, f.ty);
  }

  // Items written one by one and each read as `ys[i]`, read as the list `ys`.
  lemma {:induction false} ManyBack<T>(
    enc: T -> bytes, item: (bytes, nat) -> Parsed<T>, data: bytes, pos: nat, xs: seq<T>, ys: seq<T>, acc: seq<T>)
    requires |xs| == |ys| && Holds(data, pos, EncAll(enc, xs))
    requires forall i, p: nat :: 0 <= i < |xs| && Holds(data, p, enc(xs[i]))
               ==> item(data, p) == Got(ys[i], p + |enc(xs[i])|)
    ensures ManyAt(item, data, pos, |xs|, acc) == Got(acc + ys, pos + |EncAll(enc, xs)|)
    decreases |xs|
  {
    hide Holds;
    if xs != [] {
      HoldsSplit(data, pos, enc(xs[0]), EncAll(enc, xs[1..]));
      forall i, p: nat | 0 <= i < |xs[1..]| && Holds(data, p, enc(xs[1..][i]))
        ensures item(data, p) == Got(ys[1..][i], p + |enc(xs[1..][i])|)
      {
        assert xs[1..][i] == xs[i + 1] && ys[1..][i] == ys[i + 1];
      }
      ManyBack(enc, item, data, pos + |enc(xs[0])|, xs[1..], ys[1..], acc + [ys[0]]);
      assert acc + [ys[0]] + ys[1..] == acc + ys;
    } else {
      assert acc + ys == acc;
    }
  }

  lemma {:induction false} EachBack<T>(
    enc: T -> bytes, item: (DataType, bytes, nat) -> Parsed<T>, types: seq<DataType>,
    data: bytes, pos: nat, xs: seq<T>, ys: seq<T>, acc: seq<T>)
    requires |types| == |xs| == |ys| && Holds(data, pos, EncAll(enc, xs))
    requires forall i, p: nat :: 0 <= i < |xs| && Holds(data, p, enc(xs[i]))
               ==> item(types[i], data, p) == Got(ys[i], p + |enc(xs[i])|)
    ensures EachAt(item, types, data, pos, acc) == Got(acc + ys, pos + |EncAll(enc, xs)|)
    decreases |xs|
  {
    hide Holds;
    if xs != [] {
      HoldsSplit(data, pos, enc(xs[0]), EncAll(enc, xs[1..]));
      forall i, p: nat | 0 <= i < |xs[1..]| && Holds(data, p, enc(xs[1..][i]))
        ensures item(types[1..][i], data, p) == Got(ys[1..][i], p + |enc(xs[1..][i])|)
      {
        assert xs[1..][i] == xs[i + 1] && ys[1..][i] == ys[i + 1] && types[1..][i] == types[i + 1];
      }
      EachBack(enc, item, types[1..], data, pos + |enc(xs[0])|, xs[1..], ys[1..], acc + [ys[0]]);
      assert acc + [ys[0]] + ys[1..] == acc + ys;
    } else {
      assert acc + ys == acc;
    }
  }

  lemma SchemaBack(data: bytes, pos: nat, s: Schema)
    requires |s.fields| < TWO64 && Holds(data, pos, EncSchema(s))
    ensures SchemaAt(data, pos) == Got(s, pos + |EncSchema(s)|)
  {
    hide FieldAt, EncField, U64At, ManyAt, EncAll, Holds;
    HoldsSplit(data, pos, Le(|s.fields|, 8), EncAll(EncField, s.fields));
    U64Back(data, pos, |s.fields|);
    forall i, p: nat | 0 <= i < |s.fields| && Holds(data, p, EncField(s.fields[i]))
      ensures FieldAt(data, p) == Got(s.fields[i], p + |EncField(s.fields[i])|)
    {
      FieldBack(data, p, s.fields[i]);
    }
    ManyBack(EncField, FieldAt, data, pos + 8, s.fields, s.fields, []);
    assert [] + s.fields == s.fields;
  }

  // A value reads back under its own type.
  lemma ValueBack(data: bytes, pos: nat, v: Value)
    requires v.Vector? ==> |v.v| < TWO64
    requires Holds(data, pos, EncValue(v))
    ensures ValueAt(v.TypeOf(), data, pos) == Got(v, pos + |EncValue(v)|)
  {
    match v
    case I64(x) => U64Back(data, pos, AsU64(x));
    case F64(x) => U64Back(data, pos, x);
    case Bool(x) => assert data[pos] == data[pos..pos + 1][0];
    case Str(x) => BytesBack(data, pos, x);
    case Vector(x) => Raw32Back(data, pos, x);
  }

  // What a value accepted by a column of type `ty` is read back as: an integer written for a
  // DOUBLE comes back as the double with the same bits.
  function Reread(ty: DataType, v: Value): Value {
    if ty.F64? && v.I64? then Value.F64(AsU64(v.i)) else v
  }

  function RereadRow(types: seq<DataType>, row: Row): (r: Row)
    requires |types| == |row|
    ensures |r| == |row|
  {
    seq(|row|, i requires 0 <= i < |row| => Reread(types[i], row[i]))
  }

  lemma RereadBack(ty: DataType, data: bytes, pos: nat, v: Value)
    requires Accepts(ty, v) && Holds(data, pos, EncValue(v))
    ensures ValueAt(ty, data, pos) == Got(Reread(ty, v), pos + |EncValue(v)|)
  {
    if ty.F64? && v.I64? {
      U64Back(data, pos, AsU64(v.i));
    } else {
      ValueBack(data, pos, v);
    }
  }

  lemma RowBack(schema: Schema, data: bytes, pos: nat, row: Row)
    requires Accepted(schema, row) && Holds(data, pos, EncRow(row))
    ensures RowAt(schema.Types(), data, pos) == Got(RereadRow(schema.Types(), row), pos + |EncRow(row)|)
  {
    hide Holds, EncValue, ValueAt, Reread, Accepts;
    var types, ys := schema.Types(), RereadRow(schema.Types(), row);
    forall i, p: nat | 0 <= i < |row| && Holds(data, p, EncValue(row[i]))
      ensures ValueAt(types[i], data, p) == Got(ys[i], p + |EncValue(row[i])|)
    {
      RereadBack(types[i], data, p, row[i]);
    }
    EachBack(EncValue, ValueAt, types, data, pos, row, ys, []);
    assert [] + ys == ys;
  }

  lemma FromPartsBack(s: StrColumn)
    requires s.Valid()
    ensures |s.buf| < TWO32 && StrColumn.FromParts(s.buf, s.offsets) == Ok(s)
  {
  }

  lemma StrColumnBack(data: bytes, pos: nat, s: StrColumn)
    requires s.Valid() && |s.offsets| < TWO64 && Holds(data, pos, EncColumn(Column.Str(s)))
    ensures ColumnAt(DataType.Str, data, pos) == Got(Column.Str(s), pos + |EncColumn(Column.Str(s))|)
  {
    hide Raw32At, BytesAt, EncRaw, EncBytes, Holds, StrColumn.FromParts, StrColumn.Valid;
    FromPartsBack(s);
    HoldsSplit(data, pos, EncRaw(s.offsets, 4), EncBytes(s.buf));
    Raw32Back(data, pos, s.offsets);
    BytesBack(data, pos + |EncRaw(s.offsets, 4)|, s.buf);
  }

  lemma VectorColumnBack(data: bytes, pos: nat, dim: u64, w: seq<u32>)
    requires dim > 0 && |w| % dim == 0 && |w| < TWO64
    requires Holds(data, pos, EncColumn(Column.Vector(dim, w)))
    ensures ColumnAt(DataType.Vector(dim), data, pos)
         == Got(Column.Vector(dim, w), pos + |EncColumn(Column.Vector(dim, w))|)
  {
    HoldsSplit(data, pos, Le(dim, 8), EncRaw(w, 4));
    U64Back(data, pos, dim);
    Raw32Back(data, pos + 8, w);
  }

  // A valid column reads back under its own type; the checks of `from_parts` let it through.
  lemma ColumnBack(data: bytes, pos: nat, c: Column)
    requires c.Valid() && Holds(data, pos, EncColumn(c))
    ensures ColumnAt(c.Type(), data, pos) == Got(c, pos + |EncColumn(c)|)
  {
    match c
    case I64(v) => Raw64Back(data, pos, Unsigned(v)); assert Signed(Unsigned(v)) == v;
    case F64(v) => Raw64Back(data, pos, v);
    case Bool(v) => BytesBack(data, pos, v);
    case Str(s) => StrColumnBack(data, pos, s);
    case Vector(dim, w) => VectorColumnBack(data, pos, dim, w);
  }
}
