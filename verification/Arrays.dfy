/**
 The arrays of vectorised evaluation and their binary operations (`src/exec.rs`). An array of
 length 1 stands for a constant; the meaning of an operation is its value at one row.
 */
module Arrays {
  import opened Bytes
  import opened Wrappers
  import opened Columns
  import opened Plan

  datatype Ordering = Less | Equal | Greater

  // Operations on doubles and strings that the model leaves open.
  datatype Ops = Ops(
    toDouble: i64 -> u64,
    toInt: u64 -> i64,
    arith: (BinOp, u64, u64) -> u64,
    negate: u64 -> u64,
    compare: (u64, u64) -> Option<Ordering>,     // None when one is not a number
    isZero: u64 -> bool,
    math: (ScalarFunc, u64) -> u64,
    round: (u64, u64) -> u64,
    charCount: Text -> i64,
    substring: (Text, u64, Option<u64>) -> Text,
    lower: Text -> Text,
    like: (Text, Text) -> bool,                  // pattern and text, as in the module Like
    parseInt: Text -> i64,
    parseDouble: Text -> u64,
    render: Value -> Text,
    distance: (Metric, seq<u32>, seq<u32>) -> u64,
    least: (u64, u64) -> u64,
    greatest: (u64, u64) -> u64,
    hash: Text -> u64,
    sameFloats: (u32, u32) -> bool)
  {
    // The equality of expressions that a query is rewritten with: doubles are compared as numbers, so
    // the two zeros are equal, and what is not a number equals nothing.
    function Equals(): (eq: Equality)
      ensures forall x: u64, y: u64 :: eq.doubles(x, y) <==> compare(x, y) == Some(Equal)
      ensures eq.floats == sameFloats
    {
      Equality((x: u64, y: u64) => compare(x, y) == Some(Equal), sameFloats)
    }
  }

  // --- comparisons and arithmetic on single values ------------------------------------------------

  function CompareInts(a: int, b: int): Ordering {
    if a < b then Less else if a > b then Greater else Equal
  }

  // Byte order, which is the order of `str`.
  function CompareTexts(a: bytes, b: bytes): Ordering
    decreases |a|
  {
    if a == [] then (if b == [] then Equal else Less)
    else if b == [] then Greater
    else if a[0] != b[0] then CompareInts(a[0], b[0])
    else CompareTexts(a[1..], b[1..])
  }

  predicate CmpOk(op: BinOp, o: Ordering) {
    match op
    case Eq => o == Equal
    case NotEq => o != Equal
    case Lt => o == Less
    case LtEq => o != Greater
    case Gt => o == Greater
    case GtEq => o != Less
    case _ => false
  }

  predicate IsCmp(op: BinOp) {
    op in {Eq, NotEq, Lt, LtEq, Gt, GtEq}
  }

  function Saturate(x: int): i64 {
    if x < -TWO63 then -TWO63 else if x >= TWO63 then TWO63 - 1 else x
  }

  // Remainder with the sign of the dividend.
  function Rem(a: int, b: int): (r: int)
    requires b != 0
  {
    var r := (if a < 0 then -a else a) % (if b < 0 then -b else b);
    if a < 0 then -r else r
  }

  function IntArith(op: BinOp, a: i64, b: i64): i64 {
    match op
    case Add => Saturate(a + b)
    case Sub => Saturate(a - b)
    case Mul => Saturate(a * b)
    case Mod => if b == 0 then 0 else Saturate(Rem(a, b))
    case _ => 0
  }

  predicate DoubleCmp(ops: Ops, op: BinOp, a: u64, b: u64) {
    match ops.compare(a, b)
    case Some(o) => CmpOk(op, o)
    case None => op == NotEq
  }

  function Byte(b: bool): byte {
    if b then 1 else 0
  }

  // --- arrays -------------------------------------------------------------------------------------

  // The entry for row `i`: a single entry serves every row.
  function At<T>(v: seq<T>, i: nat): T
    requires |v| == 1 || i < |v|
  {
    v[if |v| == 1 then 0 else i]
  }

  datatype Arr =
    | I64(ns: seq<i64>)
    | F64(fs: seq<u64>)
    | Bool(bs: seq<byte>)
    | Str(ss: seq<Text>)
    | Vector(dim: u64, rows: seq<seq<u32>>)
  {
    function Len(): nat {
      match this
      case I64(v) => |v|
      case F64(v) => |v|
      case Bool(v) => |v|
      case Str(v) => |v|
      case Vector(_, rows) => |rows|
    }

    function Type(): DataType {
      match this
      case I64(_) => DataType.I64
      case F64(_) => DataType.F64
      case Bool(_) => DataType.Bool
      case Str(_) => DataType.Str
      case Vector(dim, _) => DataType.Vector(dim)
    }

    function Value(i: nat): Columns.Value
      requires Len() == 1 || i < Len()
    {
      match this
      case I64(v) => Columns.Value.I64(At(v, i))
      case F64(v) => Columns.Value.F64(At(v, i))
      case Bool(v) => Columns.Value.Bool(At(v, i) != 0)
      case Str(v) => Columns.Value.Str(At(v, i))
      case Vector(_, rows) => Columns.Value.Vector(At(rows, i))
    }
  }

  // Constant, or one entry for each of the `n` rows: what broadcasting relies on.
  predicate Spread(a: Arr, n: nat) {
    a.Len() == 1 || a.Len() == n
  }

  function Map<T, U>(f: T -> U, v: seq<T>): (r: seq<U>)
    ensures |r| == |v| && forall i :: 0 <= i < |v| ==> r[i] == f(v[i])
  {
    seq(|v|, i requires 0 <= i < |v| => f(v[i]))
  }

  function PairLen(l: nat, r: nat): Result<nat> {
    if l == r then Ok(l) else if l == 1 then Ok(r) else if r == 1 then Ok(l) else Err(BadArity)
  }

  // `zip_map`.
  function Zip<T, U, V>(n: nat, f: (T, U) -> V, l: seq<T>, r: seq<U>): (z: seq<V>)
    requires (|l| == 1 || |l| == n) && (|r| == 1 || |r| == n)
    ensures |z| == n && forall i :: 0 <= i < n ==> z[i] == f(At(l, i), At(r, i))
  {
    seq(n, i requires 0 <= i < n => f(At(l, i), At(r, i)))
  }

  function ToDoubles(ops: Ops, a: Arr): Result<seq<u64>> {
    match a
    case F64(v) => Ok(v)
    case I64(v) => Ok(Map(ops.toDouble, v))
    case Bool(v) => Ok(Map((b: byte) => ops.toDouble(b), v))
    case _ => Err(BadType)
  }

  function AsBools(a: Arr): Result<seq<byte>> {
    if a.Bool? then Ok(a.bs) else Err(BadType)
  }

  // The loop bodies that `eval_binary` hands to `zip_map`.
  function Logical(op: BinOp): (f: (byte, byte) -> byte)
    ensures forall a: byte, b: byte :: f(a, b) == Byte(if op == And then a != 0 && b != 0 else a != 0 || b != 0)
  {
    (a, b) => Byte(if op == And then a != 0 && b != 0 else a != 0 || b != 0)
  }

  function TextCmp(op: BinOp): (f: (Text, Text) -> byte)
    ensures forall a: Text, b: Text :: f(a, b) == Byte(CmpOk(op, CompareTexts(a, b)))
  {
    (a, b) => Byte(CmpOk(op, CompareTexts(a, b)))
  }

  function IntCmp(op: BinOp): (f: (i64, i64) -> byte)
    ensures forall a: i64, b: i64 :: f(a, b) == Byte(CmpOk(op, CompareInts(a, b)))
  {
    (a, b) => Byte(CmpOk(op, CompareInts(a, b)))
  }

  function IntFn(op: BinOp): (f: (i64, i64) -> i64)
    ensures forall a: i64, b: i64 :: f(a, b) == IntArith(op, a, b)
  {
    (a, b) => IntArith(op, a, b)
  }

  function DoubleCmpFn(ops: Ops, op: BinOp): (f: (u64, u64) -> byte)
    ensures forall a: u64, b: u64 :: f(a, b) == Byte(DoubleCmp(ops, op, a, b))
  {
    (a, b) => Byte(DoubleCmp(ops, op, a, b))
  }

  function DoubleFn(ops: Ops, op: BinOp): (f: (u64, u64) -> u64)
    ensures forall a: u64, b: u64 :: f(a, b) == ops.arith(op, a, b)
  {
    (a, b) => ops.arith(op, a, b)
  }

  function EvalBinary(ops: Ops, op: BinOp, l: Arr, r: Arr): Result<Arr> {
    var n :- PairLen(l.Len(), r.Len());
    if op == And || op == Or then
      var lb :- AsBools(l);
      var rb :- AsBools(r);
      Ok(Arr.Bool(Zip(n, Logical(op), lb, rb)))
    else if l.Str? && r.Str? then
      if !IsCmp(op) then Err(BadType) else Ok(Arr.Bool(Zip(n, TextCmp(op), l.ss, r.ss)))
    else if l.Str? || r.Str? then Err(BadType)
    else if l.I64? && r.I64? && IsCmp(op) then Ok(Arr.Bool(Zip(n, IntCmp(op), l.ns, r.ns)))
    else if l.I64? && r.I64? && op != Div then Ok(Arr.I64(Zip(n, IntFn(op), l.ns, r.ns)))
    else
      var lf :- ToDoubles(ops, l);
      var rf :- ToDoubles(ops, r);
      if IsCmp(op) then Ok(Arr.Bool(Zip(n, DoubleCmpFn(ops, op), lf, rf)))
      else Ok(Arr.F64(Zip(n, DoubleFn(ops, op), lf, rf)))
  }

  // --- the meaning at one row ---------------------------------------------------------------------

  // A number as a double.
  function Num(ops: Ops, v: Value): Option<u64> {
    match v
    case F64(x) => Some(x)
    case I64(x) => Some(ops.toDouble(x))
    case Bool(b) => Some(ops.toDouble(Byte(b)))
    case _ => None
  }

  function BinaryValue(ops: Ops, op: BinOp, a: Value, b: Value): Option<Value> {
    if op == And || op == Or then
      if a.Bool? && b.Bool? then Some(Value.Bool(if op == And then a.b && b.b else a.b || b.b)) else None
    else if a.Str? && b.Str? then
      if IsCmp(op) then Some(Value.Bool(CmpOk(op, CompareTexts(a.s, b.s)))) else None
    else if a.I64? && b.I64? && IsCmp(op) then Some(Value.Bool(CmpOk(op, CompareInts(a.i, b.i))))
    else if a.I64? && b.I64? && op != Div then Some(Value.I64(IntArith(op, a.i, b.i)))
    else
      match (Num(ops, a), Num(ops, b))
      case (Some(x), Some(y)) =>
        Some(if IsCmp(op) then Value.Bool(DoubleCmp(ops, op, x, y)) else Value.F64(ops.arith(op, x, y)))
      case _ => None
  }

  predicate Numeric(t: DataType) {
    t.I64? || t.F64? || t.Bool?
  }

  function BinaryType(op: BinOp, l: DataType, r: DataType): Option<DataType> {
    if op == And || op == Or then (if l.Bool? && r.Bool? then Some(DataType.Bool) else None)
    else if l.Str? && r.Str? then (if IsCmp(op) then Some(DataType.Bool) else None)
    else if !Numeric(l) || !Numeric(r) then None
    else if IsCmp(op) then Some(DataType.Bool)
    else if l.I64? && r.I64? && op != Div then Some(DataType.I64)
    else Some(DataType.F64)
  }

  // The byte of a boolean array is 0 or 1, as evaluation and insertion make it.
  predicate Clean(a: Arr) {
    a.Bool? ==> forall i :: 0 <= i < |a.bs| ==> a.bs[i] <= 1
  }

  lemma DoublesAt(ops: Ops, a: Arr, i: nat)
    requires Numeric(a.Type()) && Clean(a) && (a.Len() == 1 || i < a.Len())
    ensures ToDoubles(ops, a).Ok? && |ToDoubles(ops, a).value| == a.Len()
    ensures Num(ops, a.Value(i)) == Some(At(ToDoubles(ops, a).value, i))
  {
  }

  lemma ZipSpread<T, U, V>(m: nat, f: (T, U) -> V, l: seq<T>, r: seq<U>, n: nat)
    requires (|l| == 1 || |l| == n) && (|r| == 1 || |r| == n) && PairLen(|l|, |r|) == Ok(m)
    ensures |Zip(m, f, l, r)| == 1 || |Zip(m, f, l, r)| == n
    ensures forall i :: 0 <= i < n ==> At(Zip(m, f, l, r), i) == f(At(l, i), At(r, i))
  {
  }

  // The array that a comparison makes: clean, and right for every row.
  lemma ZipBytes<T(!new), U(!new)>(m: nat, f: (T, U) -> byte, l: seq<T>, r: seq<U>, n: nat)
    requires (|l| == 1 || |l| == n) && (|r| == 1 || |r| == n) && PairLen(|l|, |r|) == Ok(m)
    requires forall a: T, b: U :: f(a, b) <= 1
    ensures var z := Arr.Bool(Zip(m, f, l, r));
      && Spread(z, n) && Clean(z) && z.Type() == DataType.Bool
      && forall i :: 0 <= i < n ==> z.Value(i) == Value.Bool(f(At(l, i), At(r, i)) != 0)
  {
    ZipSpread(m, f, l, r, n);
  }

  // The array `a` holds, for every row of a selection of `n`, what the scalar operation gives.
  ghost predicate BinaryExact(ops: Ops, op: BinOp, n: nat, l: Arr, r: Arr, res: Result<Arr>)
    requires Spread(l, n) && Spread(r, n)
  {
    && res.Ok? && Spread(res.value, n) && Clean(res.value)
    && BinaryType(op, l.Type(), r.Type()) == Some(res.value.Type())
    && forall i :: 0 <= i < n ==> BinaryValue(ops, op, l.Value(i), r.Value(i)) == Some(res.value.Value(i))
  }

  lemma LogicalExact(ops: Ops, op: BinOp, n: nat, l: Arr, r: Arr)
    requires Spread(l, n) && Spread(r, n) && (op == And || op == Or) && l.Bool? && r.Bool?
    ensures BinaryExact(ops, op, n, l, r, EvalBinary(ops, op, l, r))
  {
    hide Zip, At, Clean;
    ZipBytes(PairLen(l.Len(), r.Len()).value, Logical(op), l.bs, r.bs, n);
  }

  lemma TextsExact(ops: Ops, op: BinOp, n: nat, l: Arr, r: Arr)
    requires Spread(l, n) && Spread(r, n) && IsCmp(op) && l.Str? && r.Str?
    ensures BinaryExact(ops, op, n, l, r, EvalBinary(ops, op, l, r))
  {
    hide Zip, At, CompareTexts, Clean;
    ZipBytes(PairLen(l.Len(), r.Len()).value, TextCmp(op), l.ss, r.ss, n);
  }

  lemma IntsCompared(ops: Ops, op: BinOp, n: nat, l: Arr, r: Arr)
    requires Spread(l, n) && Spread(r, n) && IsCmp(op) && l.I64? && r.I64?
    ensures BinaryExact(ops, op, n, l, r, EvalBinary(ops, op, l, r))
  {
    hide Zip, At, CompareInts, Clean;
    ZipBytes(PairLen(l.Len(), r.Len()).value, IntCmp(op), l.ns, r.ns, n);
  }

  lemma IntsComputed(ops: Ops, op: BinOp, n: nat, l: Arr, r: Arr)
    requires Spread(l, n) && Spread(r, n) && !IsCmp(op) && op != And && op != Or && op != Div && l.I64? && r.I64?
    ensures BinaryExact(ops, op, n, l, r, EvalBinary(ops, op, l, r))
  {
    hide Zip, At, IntArith;
    ZipSpread(PairLen(l.Len(), r.Len()).value, IntFn(op), l.ns, r.ns, n);
  }

  lemma DoublesLen(ops: Ops, a: Arr)
    ensures ToDoubles(ops, a).Ok? <==> Numeric(a.Type())
    ensures ToDoubles(ops, a).Ok? ==> |ToDoubles(ops, a).value| == a.Len()
  {
  }

  lemma NumsAt(ops: Ops, a: Arr, n: nat)
    requires Numeric(a.Type()) && Clean(a) && Spread(a, n)
    ensures ToDoubles(ops, a).Ok? && |ToDoubles(ops, a).value| == a.Len()
    ensures forall i :: 0 <= i < n ==> Num(ops, a.Value(i)) == Some(At(ToDoubles(ops, a).value, i))
  {
    DoublesLen(ops, a);
    forall i | 0 <= i < n
      ensures Num(ops, a.Value(i)) == Some(At(ToDoubles(ops, a).value, i))
    {
      DoublesAt(ops, a, i);
    }
  }

  // The last two arms, once both sides are doubles.
  lemma DoublesValue(ops: Ops, op: BinOp, a: Value, b: Value)
    requires op != And && op != Or && Num(ops, a).Some? && Num(ops, b).Some?
    requires !(a.I64? && b.I64? && op != Div)
    ensures BinaryValue(ops, op, a, b)
         == Some(if IsCmp(op) then Value.Bool(DoubleCmp(ops, op, Num(ops, a).value, Num(ops, b).value))
                 else Value.F64(ops.arith(op, Num(ops, a).value, Num(ops, b).value)))
  {
  }

  lemma DoublesArray(ops: Ops, op: BinOp, l: Arr, r: Arr)
    requires PairLen(l.Len(), r.Len()).Ok? && op != And && op != Or
    requires Numeric(l.Type()) && Numeric(r.Type()) && !(l.I64? && r.I64? && op != Div)
    ensures var n := PairLen(l.Len(), r.Len()).value;
      && ToDoubles(ops, l).Ok? && |ToDoubles(ops, l).value| == l.Len()
      && ToDoubles(ops, r).Ok? && |ToDoubles(ops, r).value| == r.Len()
      && EvalBinary(ops, op, l, r)
         == Ok(if IsCmp(op)
               then Arr.Bool(Zip(n, DoubleCmpFn(ops, op), ToDoubles(ops, l).value, ToDoubles(ops, r).value))
               else Arr.F64(Zip(n, DoubleFn(ops, op), ToDoubles(ops, l).value, ToDoubles(ops, r).value)))
    ensures BinaryType(op, l.Type(), r.Type()) == Some(if IsCmp(op) then DataType.Bool else DataType.F64)
  {
    DoublesLen(ops, l);
    DoublesLen(ops, r);
    hide ToDoubles, Zip, DoubleCmpFn, DoubleFn;
  }

  // The doubles of both sides and the scalar operation on them, for every row.
  lemma DoublesRows(ops: Ops, op: BinOp, n: nat, l: Arr, r: Arr)
    requires Spread(l, n) && Spread(r, n) && op != And && op != Or && Clean(l) && Clean(r)
    requires Numeric(l.Type()) && Numeric(r.Type()) && !(l.I64? && r.I64? && op != Div)
    ensures ToDoubles(ops, l).Ok? && ToDoubles(ops, r).Ok?
    ensures var lf, rf := ToDoubles(ops, l).value, ToDoubles(ops, r).value;
      && |lf| == l.Len() && |rf| == r.Len()
      && forall i :: 0 <= i < n ==>
           BinaryValue(ops, op, l.Value(i), r.Value(i))
           == Some(if IsCmp(op) then Value.Bool(DoubleCmp(ops, op, At(lf, i), At(rf, i)))
                   else Value.F64(ops.arith(op, At(lf, i), At(rf, i))))
  {
    NumsAt(ops, l, n);
    NumsAt(ops, r, n);
    hide At, ToDoubles, Num, DoubleCmp, BinaryValue, IsCmp, Numeric;
    forall i | 0 <= i < n
      ensures BinaryValue(ops, op, l.Value(i), r.Value(i))
           == Some(if IsCmp(op)
                   then Value.Bool(DoubleCmp(ops, op, At(ToDoubles(ops, l).value, i), At(ToDoubles(ops, r).value, i)))
                   else Value.F64(ops.arith(op, At(ToDoubles(ops, l).value, i), At(ToDoubles(ops, r).value, i))))
    {
      DoublesValue(ops, op, l.Value(i), r.Value(i));
    }
  }

  lemma DoublesArr(z: seq<u64>, n: nat)
    requires |z| == 1 || |z| == n
    ensures var a := Arr.F64(z);
      && Spread(a, n) && Clean(a) && a.Type() == DataType.F64
      && forall i :: 0 <= i < n ==> a.Value(i) == Value.F64(At(z, i))
  {
  }

  lemma ComparedDoubles(ops: Ops, op: BinOp, n: nat, l: Arr, r: Arr)
    requires Spread(l, n) && Spread(r, n) && op != And && op != Or && Clean(l) && Clean(r)
    requires Numeric(l.Type()) && Numeric(r.Type()) && !(l.I64? && r.I64? && op != Div) && IsCmp(op)
    ensures BinaryExact(ops, op, n, l, r, EvalBinary(ops, op, l, r))
  {
    DoublesRows(ops, op, n, l, r);
    SpreadPair(l, r, n);
    DoublesArray(ops, op, l, r);
    hide Zip, At, ToDoubles, DoubleCmp, BinaryValue, EvalBinary, BinaryType, Numeric, IsCmp, PairLen;
    hide Arr.Len, Arr.Type, Arr.Value, Clean, DoubleCmpFn;
    var lf, rf, m := ToDoubles(ops, l).value, ToDoubles(ops, r).value, PairLen(l.Len(), r.Len()).value;
    ZipBytes(m, DoubleCmpFn(ops, op), lf, rf, n);
  }

  lemma ComputedDoubles(ops: Ops, op: BinOp, n: nat, l: Arr, r: Arr)
    requires Spread(l, n) && Spread(r, n) && op != And && op != Or && Clean(l) && Clean(r)
    requires Numeric(l.Type()) && Numeric(r.Type()) && !(l.I64? && r.I64? && op != Div) && !IsCmp(op)
    ensures BinaryExact(ops, op, n, l, r, EvalBinary(ops, op, l, r))
  {
    DoublesRows(ops, op, n, l, r);
    SpreadPair(l, r, n);
    DoublesArray(ops, op, l, r);
    hide Zip, At, ToDoubles, DoubleCmp, BinaryValue, EvalBinary, BinaryType, Numeric, IsCmp, PairLen;
    hide Arr.Len, Arr.Type, Arr.Value, Clean, DoubleFn;
    var lf, rf, m := ToDoubles(ops, l).value, ToDoubles(ops, r).value, PairLen(l.Len(), r.Len()).value;
    ZipSpread(m, DoubleFn(ops, op), lf, rf, n);
    DoublesArr(Zip(m, DoubleFn(ops, op), lf, rf), n);
  }

  lemma SpreadPair(l: Arr, r: Arr, n: nat)
    requires Spread(l, n) && Spread(r, n)
    ensures PairLen(l.Len(), r.Len()).Ok?
    ensures var m := PairLen(l.Len(), r.Len()).value;
      (l.Len() == 1 || l.Len() == m) && (r.Len() == 1 || r.Len() == m)
  {
  }

  lemma BinaryIsExact(ops: Ops, op: BinOp, n: nat, l: Arr, r: Arr)
    requires Spread(l, n) && Spread(r, n) && Clean(l) && Clean(r)
    requires BinaryType(op, l.Type(), r.Type()).Some?
    ensures BinaryExact(ops, op, n, l, r, EvalBinary(ops, op, l, r))
  {
    hide EvalBinary, BinaryExact, Clean, Spread;
    if op == And || op == Or {
      LogicalExact(ops, op, n, l, r);
    } else if l.Str? && r.Str? {
      TextsExact(ops, op, n, l, r);
    } else if l.I64? && r.I64? && op != Div {
      if IsCmp(op) {
        IntsCompared(ops, op, n, l, r);
      } else {
        IntsComputed(ops, op, n, l, r);
      }
    } else {
      if IsCmp(op) {
        ComparedDoubles(ops, op, n, l, r);
      } else {
        ComputedDoubles(ops, op, n, l, r);
      }
    }
  }
}
