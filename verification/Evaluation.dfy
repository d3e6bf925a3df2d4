/**
 Vectorised evaluation of expressions (`src/exec.rs`). Every node is computed for the whole
 selection at once; the meaning is the value at one row.
 */
module Evaluation {
  import opened Bytes
  import opened Wrappers
  import opened Columns
  import opened Plan
  import opened Arrays
  import opened Functions

  // --- frames and selections ----------------------------------------------------------------------

  type Frame = seq<Column>

  predicate CleanColumn(c: Column) {
    c.Bool? ==> forall i :: 0 <= i < |c.bs| ==> c.bs[i] <= 1
  }

  // Columns of one length, as a table or a grouped result holds them.
  predicate FrameValid(f: Frame, nrows: nat) {
    forall i :: 0 <= i < |f| ==> f[i].Valid() && f[i].Len() == nrows && CleanColumn(f[i])
  }

  datatype Sel = All(n: nat) | Ids(ids: seq<u32>) {
    function Len(): nat {
      if All? then n else |ids|
    }

    function Row(i: nat): nat
      requires i < Len()
    {
      if All? then i else ids[i]
    }

    // `order` picks from the selection, in that order; row numbers are 32 bits wide.
    function Permute(order: seq<nat>): Sel
      requires forall k :: 0 <= k < |order| ==> order[k] < Len()
    {
      Ids(seq(|order|, k requires 0 <= k < |order| => Row(order[k]) % TWO32))
    }
  }

  predicate SelOk(sel: Sel, nrows: nat) {
    match sel
    case All(n) => n == nrows
    case Ids(ids) => forall i :: 0 <= i < |ids| ==> ids[i] < nrows
  }

  predicate Reaches(src: seq<nat>, n: nat) {
    forall k :: 0 <= k < |src| ==> src[k] < n
  }

  // The entries of `v` at the given places.
  function Pick<T>(v: seq<T>, src: seq<nat>): (r: seq<T>)
    requires Reaches(src, |v|)
    ensures |r| == |src| && forall k :: 0 <= k < |src| ==> r[k] == v[src[k]]
  {
    seq(|src|, k requires 0 <= k < |src| => v[src[k]])
  }

  // The row numbers of a selection.
  function Rows(sel: Sel): (r: seq<nat>)
    ensures |r| == sel.Len() && forall i :: 0 <= i < sel.Len() ==> r[i] == sel.Row(i)
  {
    seq(sel.Len(), i requires 0 <= i < sel.Len() => sel.Row(i))
  }

  // The column's values over the selection; the whole column is taken as it stands.
  function Gather(c: Column, sel: Sel): Arr
    requires c.Valid() && c.Len() >= 0 && SelOk(sel, c.Len())
  {
    match c
    case I64(v) => Arr.I64(if sel.All? then v else Pick(v, sel.ids))
    case F64(v) => Arr.F64(if sel.All? then v else Pick(v, sel.ids))
    case Bool(v) => Arr.Bool(if sel.All? then v else Pick(v, sel.ids))
    case Str(s) => Arr.Str(seq<Text>(sel.Len(), i requires 0 <= i < sel.Len() => s.Get(sel.Row(i))))
    case Vector(dim, _) =>
      Arr.Vector(dim, seq<seq<u32>>(sel.Len(), i requires 0 <= i < sel.Len() => c.Get(sel.Row(i)).v))
  }

  lemma GatherExact(c: Column, sel: Sel)
    requires c.Valid() && c.Len() >= 0 && SelOk(sel, c.Len()) && CleanColumn(c)
    ensures var a := Gather(c, sel);
      && a.Type() == c.Type() && a.Len() == sel.Len() && Clean(a)
      && forall i :: 0 <= i < sel.Len() ==> a.Value(i) == c.Get(sel.Row(i))
  {
  }

  function LitArr(v: Value): Result<Arr> {
    match v
    case I64(x) => Ok(Arr.I64([x]))
    case F64(x) => Ok(Arr.F64([x]))
    case Bool(x) => Ok(Arr.Bool([Byte(x)]))
    case Str(x) => Ok(Arr.Str([x]))
    case Vector(_) => Err(BadType)
  }

  // --- casts ----------------------------------------------------------------------------------------

  function NonZeroFn(ops: Ops): (g: u64 -> byte)
    ensures forall x: u64 :: g(x) == Byte(!ops.isZero(x))
  {
    x => Byte(!ops.isZero(x))
  }

  function CastArr(ops: Ops, a: Arr, ty: DataType): Result<Arr> {
    match ty
    case I64 =>
      if a.Str? then Ok(Arr.I64(Map(ops.parseInt, a.ss)))
      else
        var v :- ToDoubles(ops, a);
        Ok(Arr.I64(Map(ops.toInt, v)))
    case F64 =>
      if a.Str? then Ok(Arr.F64(Map(ops.parseDouble, a.ss)))
      else
        var v :- ToDoubles(ops, a);
        Ok(Arr.F64(v))
    case Bool =>
      var v :- ToDoubles(ops, a);
      Ok(Arr.Bool(Map(NonZeroFn(ops), v)))
    case Str => Ok(Arr.Str(seq<Text>(a.Len(), i requires 0 <= i < a.Len() => ops.render(a.Value(i)))))
    case Vector(_) => Err(BadType)
  }

  function CastValue(ops: Ops, v: Value, ty: DataType): Option<Value> {
    match ty
    case I64 =>
      if v.Str? then Some(Value.I64(ops.parseInt(v.s)))
      else (match Num(ops, v) case None => None case Some(x) => Some(Value.I64(ops.toInt(x))))
    case F64 =>
      if v.Str? then Some(Value.F64(ops.parseDouble(v.s)))
      else (match Num(ops, v) case None => None case Some(x) => Some(Value.F64(x)))
    case Bool => (match Num(ops, v) case None => None case Some(x) => Some(Value.Bool(!ops.isZero(x))))
    case Str => Some(Value.Str(ops.render(v)))
    case Vector(_) => None
  }

  predicate CastOk(from: DataType, to: DataType) {
    match to
    case I64 => from.Str? || Numeric(from)
    case F64 => from.Str? || Numeric(from)
    case Bool => Numeric(from)
    case Str => true
    case Vector(_) => false
  }

  lemma CastExact(ops: Ops, a: Arr, ty: DataType, n: nat)
    requires Spread(a, n) && Clean(a) && CastOk(a.Type(), ty)
    ensures CastArr(ops, a, ty).Ok?
    ensures var r := CastArr(ops, a, ty).value;
      && Spread(r, n) && Clean(r) && r.Type() == ty
      && forall i :: 0 <= i < n ==> CastValue(ops, a.Value(i), ty) == Some(r.Value(i))
  {
    if Numeric(a.Type()) {
      NumsAt(ops, a, n);
    }
    hide ToDoubles, Num;
  }

  // --- lists ----------------------------------------------------------------------------------------

  function OrBytes(mask: seq<byte>, b: seq<byte>): (r: seq<byte>)
    ensures |r| == |mask|
    ensures forall i :: 0 <= i < |mask| ==> r[i] == if i < |b| && b[i] != 0 then 1 else mask[i]
  {
    seq(|mask|, i requires 0 <= i < |mask| => if i < |b| && b[i] != 0 then 1 else mask[i])
  }

  function Zeros(n: nat): (r: seq<byte>)
    ensures |r| == n && forall i :: 0 <= i < n ==> r[i] == 0
  {
    seq(n, _ => 0)
  }

  // The mask of IN: after each literal, the entries that equal it are set.
  function MaskFrom(ops: Ops, v: Arr, list: seq<Value>, mask: seq<byte>): Result<seq<byte>>
    decreases |list|
  {
    if list == [] then Ok(mask)
    else
      var lit :- LitArr(list[0]);
      var cmp :- EvalBinary(ops, Eq, v, lit);
      var b :- AsBools(cmp);
      MaskFrom(ops, v, list[1..], OrBytes(mask, b))
  }

  method InListMask(ops: Ops, v: Arr, list: seq<Value>) returns (r: Result<seq<byte>>)
    ensures r == MaskFrom(ops, v, list, Zeros(v.Len()))
  {
    hide EvalBinary, LitArr;
    var mask := new byte[v.Len()](_ => 0);
    assert mask[..] == Zeros(v.Len());
    for k := 0 to |list|
      invariant MaskFrom(ops, v, list[k..], mask[..]) == MaskFrom(ops, v, list, Zeros(v.Len()))
    {
      assert list[k..][0] == list[k] && list[k..][1..] == list[k + 1..];
      var lit :- LitArr(list[k]);
      var cmp :- EvalBinary(ops, Eq, v, lit);
      var b :- AsBools(cmp);
      ghost var before := mask[..];
      for i := 0 to mask.Length
        invariant forall j :: 0 <= j < i ==> mask[j] == OrBytes(before, b)[j]
        invariant forall j :: i <= j < mask.Length ==> mask[j] == before[j]
      {
        if i < |b| && b[i] != 0 {
          mask[i] := 1;
        }
      }
      assert mask[..] == OrBytes(before, b);
    }
    r := Ok(mask[..]);
  }

  // Whether the value equals one of the literals.
  function AnyEqual(ops: Ops, v: Value, list: seq<Value>): Option<bool> {
    if list == [] then Some(false)
    else
      match (BinaryValue(ops, Eq, v, list[0]), AnyEqual(ops, v, list[1..]))
      case (Some(Bool(b)), Some(rest)) => Some(b || rest)
      case _ => None
  }

  predicate ListOk(t: DataType, list: seq<Value>) {
    forall i :: 0 <= i < |list| ==> !list[i].Vector? && BinaryType(Eq, t, list[i].TypeOf()).Some?
  }

  lemma {:induction false} MaskExact(ops: Ops, v: Arr, list: seq<Value>, mask: seq<byte>, n: nat)
    requires Spread(v, n) && Clean(v) && ListOk(v.Type(), list)
    requires |mask| == v.Len() && forall i :: 0 <= i < |mask| ==> mask[i] <= 1
    ensures MaskFrom(ops, v, list, mask).Ok?
    ensures var m := MaskFrom(ops, v, list, mask).value;
      && |m| == v.Len() && (forall i :: 0 <= i < |m| ==> m[i] <= 1)
      && forall i :: 0 <= i < n ==>
           AnyEqual(ops, v.Value(i), list).Some?
           && (At(m, i) != 0 <==> At(mask, i) != 0 || AnyEqual(ops, v.Value(i), list).value)
    decreases |list|
  {
    hide EvalBinary, BinaryValue, BinaryType;
    if list != [] {
      var lit := LitArr(list[0]).value;
      LitExact(list[0], n);
      BinaryIsExact(ops, Eq, n, v, lit);
      EqualityLen(ops, v, lit);
      var b := EvalBinary(ops, Eq, v, lit).value.bs;
      MaskExact(ops, v, list[1..], OrBytes(mask, b), n);
    }
  }

  lemma EqualityLen(ops: Ops, v: Arr, lit: Arr)
    requires lit.Len() == 1 && EvalBinary(ops, Eq, v, lit).Ok?
    ensures EvalBinary(ops, Eq, v, lit).value.Bool? && EvalBinary(ops, Eq, v, lit).value.Len() == v.Len()
  {
  }

  lemma LitExact(v: Value, n: nat)
    requires !v.Vector?
    ensures LitArr(v).Ok?
    ensures var a := LitArr(v).value;
      a.Len() == 1 && Clean(a) && a.Type() == v.TypeOf() && forall i: nat :: a.Value(i) == v
  {
  }

  // --- expressions ----------------------------------------------------------------------------------

  function NotByte(x: byte): byte {
    Byte(x == 0)
  }

  function NegInt(x: i64): i64 {
    if x == -TWO63 then TWO63 - 1 else -x
  }

  function LikeFn(ops: Ops, pattern: Text, negated: bool): (g: Text -> byte)
    ensures forall s: Text :: g(s) == Byte(ops.like(pattern, s) != negated)
  {
    s => Byte(ops.like(pattern, s) != negated)
  }

  function Distances(ops: Ops, c: Column, sel: Sel, metric: Metric, q: seq<u32>): Result<Arr>
    requires c.Valid() && c.Len() >= 0 && SelOk(sel, c.Len())
  {
    if !c.Vector? then Err(BadType)
    else if c.dim != |q| then Err(BadDimension)
    else Ok(Arr.F64(seq<u64>(sel.Len(), i requires 0 <= i < sel.Len() => ops.distance(metric, c.Get(sel.Row(i)).v, q))))
  }

  function UnaryArr(ops: Ops, op: UnOp, v: Arr): Result<Arr> {
    if op == Not then
      var b :- AsBools(v);
      Ok(Arr.Bool(Map(NotByte, b)))
    else if v.I64? then Ok(Arr.I64(Map(NegInt, v.ns)))
    else
      var d :- ToDoubles(ops, v);
      Ok(Arr.F64(Map(ops.negate, d)))
  }

  function BetweenArr(ops: Ops, v: Arr, low: Arr, high: Arr, negated: bool): Result<Arr> {
    var lo :- EvalBinary(ops, GtEq, v, low);
    var hi :- EvalBinary(ops, LtEq, v, high);
    var m :- EvalBinary(ops, And, lo, hi);
    Ok(if negated && m.Bool? then Arr.Bool(Map(NotByte, m.bs)) else m)
  }

  // `eval`, ending with the check that broadcasting relies on.
  function Eval(ops: Ops, e: Expr, f: Frame, nrows: nat, sel: Sel): Result<Arr>
    requires FrameValid(f, nrows) && SelOk(sel, nrows)
    decreases e, 2
  {
    var a :- EvalNode(ops, e, f, nrows, sel);
    if a.Len() == sel.Len() || a.Len() == 1 then Ok(a) else Err(BadArity)
  }

  function EvalNode(ops: Ops, e: Expr, f: Frame, nrows: nat, sel: Sel): Result<Arr>
    requires FrameValid(f, nrows) && SelOk(sel, nrows)
    decreases e, 1
  {
    match e
    case Col(i) => if i < |f| then Ok(Gather(f[i], sel)) else Err(UnknownColumn)
    case Lit(v) => LitArr(v)
    case Binary(op, l, r) =>
      var x :- Eval(ops, l, f, nrows, sel);
      var y :- Eval(ops, r, f, nrows, sel);
      EvalBinary(ops, op, x, y)
    case Unary(op, x) =>
      var v :- Eval(ops, x, f, nrows, sel);
      UnaryArr(ops, op, v)
    case Like(x, pattern, negated) =>
      var v :- Eval(ops, x, f, nrows, sel);
      if v.Str? then Ok(Arr.Bool(Map(LikeFn(ops, pattern, negated), v.ss))) else Err(BadType)
    case InList(x, list, negated) =>
      var v :- Eval(ops, x, f, nrows, sel);
      var mask :- MaskFrom(ops, v, list, Zeros(v.Len()));
      Ok(Arr.Bool(if negated then Map(NotByte, mask) else mask))
    case Between(x, low, high, negated) =>
      var v :- Eval(ops, x, f, nrows, sel);
      var lo :- Eval(ops, low, f, nrows, sel);
      var hi :- Eval(ops, high, f, nrows, sel);
      BetweenArr(ops, v, lo, hi, negated)
    case Cast(x, ty) =>
      var v :- Eval(ops, x, f, nrows, sel);
      CastArr(ops, v, ty)
    case Func(fn, args) =>
      var vs :- EvalAll(ops, args, f, nrows, sel);
      EvalFunc(ops, fn, vs)
    case Distance(metric, col, query) =>
      if col < |f| then Distances(ops, f[col], sel, metric, query) else Err(UnknownColumn)
    case Agg(_, _, _) => Err(BadType)
  }

  function EvalAll(ops: Ops, es: seq<Expr>, f: Frame, nrows: nat, sel: Sel): (r: Result<seq<Arr>>)
    requires FrameValid(f, nrows) && SelOk(sel, nrows)
    ensures r.Ok? ==> |r.value| == |es|
    decreases es, 0
  {
    if es == [] then Ok([])
    else
      var a :- Eval(ops, es[0], f, nrows, sel);
      var rest :- EvalAll(ops, es[1..], f, nrows, sel);
      Ok([a] + rest)
  }

  // --- the meaning at one row -----------------------------------------------------------------------

  function UnaryValue(ops: Ops, op: UnOp, v: Value): Option<Value> {
    if op == Not then (if v.Bool? then Some(Value.Bool(!v.b)) else None)
    else if v.I64? then Some(Value.I64(NegInt(v.i)))
    else (match Num(ops, v) case None => None case Some(x) => Some(Value.F64(ops.negate(x))))
  }

  function BetweenValue(ops: Ops, v: Value, low: Value, high: Value, negated: bool): Option<Value> {
    match (BinaryValue(ops, GtEq, v, low), BinaryValue(ops, LtEq, v, high))
    case (Some(Bool(a)), Some(Bool(b))) => Some(Value.Bool((a && b) != negated))
    case _ => None
  }

  // The value of an expression at row `r` of a frame. Aggregates are given by `agg`.
  function RowValue(ops: Ops, e: Expr, f: Frame, r: nat, agg: Expr -> Option<Value>): Option<Value>
    decreases e, 1
  {
    match e
    case Col(i) => if i < |f| && f[i].Valid() && r < f[i].Len() then Some(f[i].Get(r)) else None
    case Lit(v) => if v.Vector? then None else Some(v)
    case Binary(op, x, y) =>
      (match (RowValue(ops, x, f, r, agg), RowValue(ops, y, f, r, agg))
       case (Some(a), Some(b)) => BinaryValue(ops, op, a, b)
       case _ => None)
    case Unary(op, x) =>
      (match RowValue(ops, x, f, r, agg) case Some(a) => UnaryValue(ops, op, a) case None => None)
    case Like(x, pattern, negated) =>
      (match RowValue(ops, x, f, r, agg)
       case Some(Str(s)) => Some(Value.Bool(ops.like(pattern, s) != negated))
       case _ => None)
    case InList(x, list, negated) =>
      (match RowValue(ops, x, f, r, agg)
       case None => None
       case Some(a) =>
         match AnyEqual(ops, a, list)
         case Some(b) => Some(Value.Bool(b != negated))
         case None => None)
    case Between(x, low, high, negated) =>
      (match (RowValue(ops, x, f, r, agg), RowValue(ops, low, f, r, agg), RowValue(ops, high, f, r, agg))
       case (Some(a), Some(b), Some(c)) => BetweenValue(ops, a, b, c, negated)
       case _ => None)
    case Cast(x, ty) =>
      (match RowValue(ops, x, f, r, agg) case Some(a) => CastValue(ops, a, ty) case None => None)
    case Func(fn, args) =>
      (match RowValues(ops, args, f, r, agg) case Some(vs) => FuncValue(ops, fn, vs) case None => None)
    case Distance(metric, col, query) =>
      if col < |f| && f[col].Valid() && r < f[col].Len() && f[col].Vector?
      then Some(Value.F64(ops.distance(metric, f[col].Get(r).v, query))) else None
    case Agg(_, _, _) => agg(e)
  }

  function RowValues(ops: Ops, es: seq<Expr>, f: Frame, r: nat, agg: Expr -> Option<Value>): (vs: Option<seq<Value>>)
    ensures vs.Some? ==> |vs.value| == |es|
    decreases es, 0
  {
    if es == [] then Some([])
    else
      match (RowValue(ops, es[0], f, r, agg), RowValues(ops, es[1..], f, r, agg))
      case (Some(v), Some(rest)) => Some([v] + rest)
      case _ => None
  }

  // Outside a grouped query there are no aggregates.
  const NO_AGG: Expr -> Option<Value> := (e: Expr) => None
}
