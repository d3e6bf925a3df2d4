/** Typed columns (`src/column.rs`). Doubles and floats are opaque bit patterns. */
module Columns {
  import opened Bytes
  import opened Wrappers

  // --- UTF-8 ------------------------------------------------------------------------------------

  predicate Tail(b: bytes, k: nat) {
    k < |b| && 0x80 <= b[k] <= 0xBF
  }

  // Length of the well-formed byte sequence at the head of `b`, 0 when there is none
  // (table 3-7 of the Unicode Standard).
  function CharLen(b: bytes): (n: nat)
    ensures n <= |b|
  {
    if |b| == 0 then 0
    else if b[0] < 0x80 then 1
    else if !Tail(b, 1) then 0
    else if 0xC2 <= b[0] <= 0xDF then 2
    else if !Tail(b, 2) then 0
    else if b[0] == 0xE0 then (if b[1] >= 0xA0 then 3 else 0)
    else if b[0] == 0xED then (if b[1] <= 0x9F then 3 else 0)
    else if 0xE1 <= b[0] <= 0xEF then 3
    else if !Tail(b, 3) then 0
    else if b[0] == 0xF0 then (if b[1] >= 0x90 then 4 else 0)
    else if 0xF1 <= b[0] <= 0xF3 then 4
    else if b[0] == 0xF4 then (if b[1] <= 0x8F then 4 else 0)
    else 0
  }

  predicate Utf8(b: bytes)
    decreases |b|
  {
    b == [] || (CharLen(b) > 0 && Utf8(b[CharLen(b)..]))
  }

  lemma {:induction false} Utf8Append(a: bytes, b: bytes)
    requires Utf8(a) && Utf8(b)
    ensures Utf8(a + b)
    decreases |a|
  {
    if a == [] {
      assert a + b == b;
    } else {
      var n := CharLen(a);
      assert CharLen(a + b) == n;
      assert (a + b)[n..] == a[n..] + b;
      Utf8Append(a[n..], b);
    }
  }

  // A string is its bytes; only valid UTF-8 of a length that a machine can hold.
  type Text = b: bytes | Utf8(b) && |b| < TWO64

  // --- types and values -------------------------------------------------------------------------

  datatype DataType = I64 | F64 | Bool | Str | Vector(dim: u64)

  datatype Value =
    | I64(i: i64)
    | F64(f: u64)
    | Bool(b: bool)
    | Str(s: Text)
    | Vector(v: seq<u32>)
  {
    function TypeOf(): DataType
      requires Vector? ==> |v| < TWO64
    {
      match this
      case I64(_) => DataType.I64
      case F64(_) => DataType.F64
      case Bool(_) => DataType.Bool
      case Str(_) => DataType.Str
      case Vector(v) => DataType.Vector(|v|)
    }
  }

  // What the model leaves open: how table names are folded, and how an integer becomes a double.
  datatype Env = Env(key: Text -> Text, widen: i64 -> u64)

  // --- string arena -----------------------------------------------------------------------------

  datatype StrColumn = StrColumn(buf: bytes, offsets: seq<u32>) {
    // The end offset is `buf.len() as u32`: it wraps when the arena outgrows 32 bits.
    function Push(s: Text): StrColumn {
      StrColumn(buf + s, offsets + [(|buf| + |s|) % TWO32])
    }

    function Len(): int {
      |offsets| - 1
    }

    predicate Monotone() {
      forall i, j :: 0 <= i <= j < |offsets| ==> offsets[i] <= offsets[j]
    }

    predicate Consistent() {
      && |offsets| > 0
      && offsets[0] == 0
      && offsets[|offsets| - 1] == |buf|
      && Monotone()
    }

    function GetBytes(i: nat): bytes
      requires Consistent() && i < Len()
    {
      assert offsets[i] <= offsets[i + 1] <= offsets[|offsets| - 1];
      buf[offsets[i]..offsets[i + 1]]
    }

    predicate Valid() {
      && Consistent()
      && Utf8(buf)
      && forall i :: 0 <= i < Len() ==> Utf8(GetBytes(i))
    }

    function Get(i: nat): Text
      requires Valid() && i < Len()
    {
      GetBytes(i)
    }

    static const EMPTY: StrColumn := StrColumn([], [0])

    // `windows(2).any(|w| w[0] > w[1])`, the check of from_parts.
    predicate StepsUp() {
      forall i :: 0 < i < |offsets| ==> offsets[i - 1] <= offsets[i]
    }

    static function FromParts(buf: bytes, offsets: seq<u32>): Result<StrColumn> {
      if |offsets| == 0 || offsets[0] != 0 || offsets[|offsets| - 1] != |buf| % TWO32 then
        Err(BadOffsets)
      else if !StrColumn(buf, offsets).StepsUp() then
        Err(BadOffsets)
      else if !Utf8(buf) then
        Err(NotUtf8)
      else
        Ok(StrColumn(buf, offsets))
    }
  }

  lemma {:induction false} StepsUpIsMonotone(c: StrColumn, i: nat, j: nat)
    requires c.StepsUp() && i <= j < |c.offsets|
    ensures c.offsets[i] <= c.offsets[j]
    decreases j
  {
    if i < j {
      StepsUpIsMonotone(c, i, j - 1);
    }
  }

  lemma StrPushConsistent(c: StrColumn, s: Text)
    requires c.Valid() && |c.buf| + |s| < TWO32
    ensures c.Push(s).Consistent() && c.Push(s).Len() == c.Len() + 1
    ensures Utf8(c.Push(s).buf)
  {
    Utf8Append(c.buf, s);
    assert (|c.buf| + |s|) % TWO32 == |c.buf| + |s|;
  }

  lemma StrPushGets(c: StrColumn, s: Text, i: nat)
    requires c.Valid() && |c.buf| + |s| < TWO32
    requires c.Push(s).Consistent() && i <= c.Len()
    ensures c.Push(s).GetBytes(i) == if i < c.Len() then c.GetBytes(i) else s
  {
    var d := c.Push(s);
    if i < c.Len() {
      assert c.offsets[i] <= c.offsets[i + 1] <= c.offsets[|c.offsets| - 1];
      assert d.buf[d.offsets[i]..d.offsets[i + 1]] == c.buf[c.offsets[i]..c.offsets[i + 1]];
    } else {
      assert d.buf[|c.buf|..|c.buf| + |s|] == s;
    }
  }

  // As long as the arena stays within 32 bits, a push keeps every string and adds the new one.
  lemma StrPush(c: StrColumn, s: Text)
    requires c.Valid() && |c.buf| + |s| < TWO32
    ensures c.Push(s).Valid() && c.Push(s).Len() == c.Len() + 1
    ensures forall i :: 0 <= i < c.Len() ==> c.Push(s).Get(i) == c.Get(i)
    ensures c.Push(s).Get(c.Len()) == s
  {
    StrPushConsistent(c, s);
    forall i | 0 <= i <= c.Len()
      ensures c.Push(s).GetBytes(i) == if i < c.Len() then c.GetBytes(i) else s
    {
      StrPushGets(c, s, i);
    }
  }

  // --- columns ------------------------------------------------------------------------------------

  datatype Column =
    | I64(ns: seq<i64>)
    | F64(fs: seq<u64>)
    | Bool(bs: seq<byte>)
    | Str(s: StrColumn)
    | Vector(dim: u64, data: seq<u32>)
  {
    static function Empty(ty: DataType): Column {
      match ty
      case I64 => Column.I64([])
      case F64 => Column.F64([])
      case Bool => Column.Bool([])
      case Str => Column.Str(StrColumn.EMPTY)
      case Vector(dim) => Column.Vector(dim, [])
    }

    function Type(): DataType {
      match this
      case I64(_) => DataType.I64
      case F64(_) => DataType.F64
      case Bool(_) => DataType.Bool
      case Str(_) => DataType.Str
      case Vector(dim, _) => DataType.Vector(dim)
    }

    function Len(): int {
      match this
      case I64(v) => |v|
      case F64(v) => |v|
      case Bool(v) => |v|
      case Str(s) => s.Len()
      case Vector(dim, data) => if dim == 0 then 0 else |data| / dim
    }

    // What every column of a table satisfies.
    predicate Valid() {
      match this
      case I64(v) => |v| < TWO64
      case F64(v) => |v| < TWO64
      case Bool(v) => |v| < TWO64
      case Str(s) => s.Valid() && |s.offsets| < TWO64
      case Vector(dim, data) => dim > 0 && |data| % dim == 0 && |data| < TWO64
    }

    function Push(env: Env, v: Value): Result<Column> {
      match (this, v)
      case (I64(c), I64(x)) => Ok(Column.I64(c + [x]))
      case (F64(c), F64(x)) => Ok(Column.F64(c + [x]))
      case (F64(c), I64(x)) => Ok(Column.F64(c + [env.widen(x)]))
      case (Bool(c), Bool(x)) => Ok(Column.Bool(c + [if x then 1 else 0]))
      case (Str(c), Str(x)) => Ok(Column.Str(c.Push(x)))
      case (Vector(dim, data), Vector(x)) =>
        if |x| != dim then Err(BadDimension) else Ok(Column.Vector(dim, data + x))
      case _ => Err(BadType)
    }

    function Get(i: nat): Value
      requires Valid() && i < Len()
    {
      match this
      case I64(v) => Value.I64(v[i])
      case F64(v) => Value.F64(v[i])
      case Bool(v) => Value.Bool(v[i] != 0)
      case Str(s) => Value.Str(s.Get(i))
      case Vector(dim, data) =>
        RowEnd(i, dim, |data|);
        Value.Vector(data[i * dim..(i + 1) * dim])
    }
  }

  lemma RowEnd(i: nat, dim: nat, n: nat)
    requires dim > 0 && i < n / dim
    ensures 0 <= i * dim <= (i + 1) * dim <= n
  {
    assert (i + 1) * dim <= n / dim * dim;
  }

  // A value as a column of the given type holds it: integers become doubles where one is due.
  function Widened(env: Env, ty: DataType, v: Value): Value {
    if ty.F64? && v.I64? then Value.F64(env.widen(v.i)) else v
  }

  // The type test of `Table::insert`.
  predicate Accepts(ty: DataType, v: Value) {
    (v.Vector? ==> |v.v| < TWO64) && (ty == v.TypeOf() || (ty.F64? && v.I64?))
  }

  // The column still fits its size limits with one more value of the given kind.
  predicate Room(c: Column, v: Value) {
    match c
    case I64(w) => |w| + 1 < TWO64
    case F64(w) => |w| + 1 < TWO64
    case Bool(w) => |w| + 1 < TWO64
    case Str(s) => |s.offsets| + 1 < TWO64 && (v.Str? ==> |s.buf| + |v.s| < TWO32)
    case Vector(dim, data) => |data| + dim < TWO64
  }

  lemma DividePlusOne(n: nat, d: nat)
    requires d > 0
    ensures (n + d) / d == n / d + 1
  {
    var q, r := (n + d) / d, n / d;
    assert n + d == q * d + (n + d) % d;
    assert n == r * d + n % d;
    assert q < r + 1 ==> (q + 1) * d <= (r + 1) * d;
    assert q > r + 1 ==> (r + 2) * d <= q * d;
  }

  lemma VectorPush(dim: nat, n: nat)
    requires dim > 0 && n % dim == 0
    ensures (n + dim) % dim == 0 && (n + dim) / dim == n / dim + 1
    ensures n / dim * dim == n && (n / dim + 1) * dim == n + dim
  {
    QuotientIs(n + dim, dim, n / dim + 1);
  }

  // An accepted value never fails to push, and the push appends exactly that value.
  lemma PushAppends(env: Env, c: Column, v: Value)
    requires c.Valid() && Accepts(c.Type(), v) && Room(c, v)
    ensures c.Push(env, v).Ok?
    ensures var d := c.Push(env, v).value;
            && d.Valid() && d.Type() == c.Type() && d.Len() == c.Len() + 1
            && (forall i :: 0 <= i < c.Len() ==> d.Get(i) == c.Get(i))
            && d.Get(c.Len()) == Widened(env, c.Type(), v)
  {
    var d := c.Push(env, v).value;
    match c
    case Str(s) => StrPush(s, v.s);
    case Vector(dim, data) =>
      VectorPush(dim, |data|);
      forall i | 0 <= i < c.Len()
        ensures d.Get(i) == c.Get(i)
      {
        RowEnd(i, dim, |data|);
      }
    case _ =>
  }
}
