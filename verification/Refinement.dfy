/**
 Vectorised evaluation refines evaluation row by row (`src/exec.rs`): an expression with a type
 evaluates, over any selection, to an array that holds its value at every selected row.
 */
module Refinement {
  import opened Bytes
  import opened Wrappers
  import opened Columns
  import opened Plan
  import opened Arrays
  import opened Functions
  import opened Evaluation
  import opened Lengths

  // --- types ------------------------------------------------------------------------------------------

  function FrameTypes(f: Frame): (ts: seq<DataType>)
    ensures |ts| == |f| && forall i :: 0 <= i < |f| ==> ts[i] == f[i].Type()
  {
    seq(|f|, i requires 0 <= i < |f| => f[i].Type())
  }

  // The unit of date_trunc as an expression without columns evaluates to it.
  predicate UnitGiven(ops: Ops, e: Expr) {
    var u := Eval(ops, e, [], 1, All(1));
    u.Ok? && u.value.Str? && UnitStep(ops.lower(u.value.ss[0])).Some?
  }

  // The digit count of round has one value, and the unit of date_trunc is a known constant.
  predicate ConstantsGiven(ops: Ops, fn: ScalarFunc, args: seq<Expr>) {
    && (fn == Round && |args| == 2 ==> !Varies(args[1]))
    && (fn == DateTrunc && |args| == 2 ==> UnitGiven(ops, args[0]))
  }

  // The type of an expression over columns of the given types; None when it has none.
  function Typed(ops: Ops, e: Expr, types: seq<DataType>): Option<DataType>
    decreases e, 1
  {
    match e
    case Col(i) => if i < |types| then Some(types[i]) else None
    case Lit(v) => if v.Vector? then None else Some(v.TypeOf())
    case Binary(op, x, y) =>
      (match (Typed(ops, x, types), Typed(ops, y, types))
       case (Some(s), Some(t)) => BinaryType(op, s, t)
       case _ => None)
    case Unary(op, x) =>
      (match Typed(ops, x, types)
       case None => None
       case Some(t) =>
         if op == Not then (if t.Bool? then Some(DataType.Bool) else None)
         else if t.I64? then Some(DataType.I64)
         else if Numeric(t) then Some(DataType.F64) else None)
    case Like(x, _, _) => if Typed(ops, x, types) == Some(DataType.Str) then Some(DataType.Bool) else None
    case InList(x, list, _) =>
      (match Typed(ops, x, types)
       case None => None
       case Some(t) => if ListOk(t, list) then Some(DataType.Bool) else None)
    case Between(x, low, high, _) =>
      (match (Typed(ops, x, types), Typed(ops, low, types), Typed(ops, high, types))
       case (Some(s), Some(t), Some(u)) =>
         if BinaryType(GtEq, s, t).Some? && BinaryType(LtEq, s, u).Some? then Some(DataType.Bool) else None
       case _ => None)
    case Cast(x, ty) =>
      (match Typed(ops, x, types)
       case None => None
       case Some(t) => if CastOk(t, ty) then Some(ty) else None)
    case Func(fn, args) =>
      (match TypedAll(ops, args, types)
       case None => None
       case Some(ts) => if ConstantsGiven(ops, fn, args) then FuncType(fn, ts) else None)
    case Distance(_, col, query) =>
      if col < |types| && |query| < TWO64 && types[col] == DataType.Vector(|query|) then Some(DataType.F64) else None
    case Agg(_, _, _) => None
  }

  function TypedAll(ops: Ops, es: seq<Expr>, types: seq<DataType>): (ts: Option<seq<DataType>>)
    ensures ts.Some? ==> |ts.value| == |es|
    decreases es, 0
  {
    if es == [] then Some([])
    else
      match (Typed(ops, es[0], types), TypedAll(ops, es[1..], types))
      case (Some(t), Some(rest)) => Some([t] + rest)
      case _ => None
  }

  // --- refinement -------------------------------------------------------------------------------------

  // The array holds the expression's value for every row of the selection.
  ghost predicate Exact(ops: Ops, e: Expr, f: Frame, sel: Sel, t: DataType, a: Arr) {
    && Spread(a, sel.Len()) && Clean(a) && a.Type() == t
    && forall i :: 0 <= i < sel.Len() ==> RowValue(ops, e, f, sel.Row(i), NO_AGG) == Some(a.Value(i))
  }

  lemma UnaryExact(ops: Ops, op: UnOp, v: Arr, n: nat)
    requires Spread(v, n) && Clean(v)
    requires if op == Not then v.Bool? else Numeric(v.Type())
    ensures UnaryArr(ops, op, v).Ok?
    ensures var r := UnaryArr(ops, op, v).value;
      && Spread(r, n) && Clean(r)
      && r.Type() == (if op == Not then DataType.Bool else if v.I64? then DataType.I64 else DataType.F64)
      && forall i :: 0 <= i < n ==> UnaryValue(ops, op, v.Value(i)) == Some(r.Value(i))
  {
    if Numeric(v.Type()) {
      NumsAt(ops, v, n);
    }
    hide ToDoubles, Num;
  }

  lemma FlipExact(m: Arr, n: nat)
    requires m.Bool? && Spread(m, n) && Clean(m)
    ensures var r := Arr.Bool(Map(NotByte, m.bs));
      && Spread(r, n) && Clean(r) && forall i :: 0 <= i < n ==> r.Value(i).b == !m.Value(i).b
  {
  }

  // Conjunction of two boolean arrays.
  lemma BothExact(ops: Ops, lo: Arr, hi: Arr, n: nat)
    requires Spread(lo, n) && Spread(hi, n) && Clean(lo) && Clean(hi) && lo.Bool? && hi.Bool?
    ensures EvalBinary(ops, And, lo, hi).Ok?
    ensures var m := EvalBinary(ops, And, lo, hi).value;
      && Spread(m, n) && Clean(m) && m.Bool?
      && forall i :: 0 <= i < n ==> m.Value(i) == Value.Bool(lo.Value(i).b && hi.Value(i).b)
  {
    BinaryIsExact(ops, And, n, lo, hi);
    hide EvalBinary, Clean, At;
  }

  // One bound: a boolean array that holds the comparison for every row.
  lemma BoundExact(ops: Ops, op: BinOp, v: Arr, b: Arr, n: nat)
    requires Spread(v, n) && Spread(b, n) && Clean(v) && Clean(b)
    requires IsCmp(op) && BinaryType(op, v.Type(), b.Type()).Some?
    ensures EvalBinary(ops, op, v, b).Ok?
    ensures var m := EvalBinary(ops, op, v, b).value;
      && Spread(m, n) && Clean(m) && m.Bool?
      && forall i :: 0 <= i < n ==> BinaryValue(ops, op, v.Value(i), b.Value(i)) == Some(Value.Bool(m.Value(i).b))
  {
    BinaryIsExact(ops, op, n, v, b);
    ComparisonIsBool(op, v.Type(), b.Type());
    hide EvalBinary, Clean, At, BinaryType, BinaryValue, IsCmp;
  }

  lemma BetweenExact(ops: Ops, v: Arr, low: Arr, high: Arr, negated: bool, n: nat)
    requires Spread(v, n) && Spread(low, n) && Spread(high, n) && Clean(v) && Clean(low) && Clean(high)
    requires BinaryType(GtEq, v.Type(), low.Type()).Some? && BinaryType(LtEq, v.Type(), high.Type()).Some?
    ensures BetweenArr(ops, v, low, high, negated).Ok?
    ensures var r := BetweenArr(ops, v, low, high, negated).value;
      && Spread(r, n) && Clean(r) && r.Bool?
      && forall i :: 0 <= i < n ==>
           BetweenValue(ops, v.Value(i), low.Value(i), high.Value(i), negated) == Some(r.Value(i))
  {
    hide EvalBinary, Clean, At, BinaryType, BinaryValue, Map;
    BoundExact(ops, GtEq, v, low, n);
    BoundExact(ops, LtEq, v, high, n);
    var lo, hi := EvalBinary(ops, GtEq, v, low).value, EvalBinary(ops, LtEq, v, high).value;
    BothExact(ops, lo, hi, n);
    FlipExact(EvalBinary(ops, And, lo, hi).value, n);
  }

  lemma ComparisonIsBool(op: BinOp, s: DataType, t: DataType)
    requires IsCmp(op) && BinaryType(op, s, t).Some?
    ensures BinaryType(op, s, t) == Some(DataType.Bool)
  {
  }

  // The expression has a type, and its evaluation succeeds and is exact at that type.
  ghost predicate Evaluates(ops: Ops, e: Expr, f: Frame, nrows: nat, sel: Sel)
    requires FrameValid(f, nrows) && SelOk(sel, nrows)
  {
    && Typed(ops, e, FrameTypes(f)).Some?
    && Eval(ops, e, f, nrows, sel).Ok?
    && Exact(ops, e, f, sel, Typed(ops, e, FrameTypes(f)).value, Eval(ops, e, f, nrows, sel).value)
  }

  lemma Conclude(ops: Ops, e: Expr, f: Frame, nrows: nat, sel: Sel, t: DataType, a: Arr)
    requires FrameValid(f, nrows) && SelOk(sel, nrows)
    requires Typed(ops, e, FrameTypes(f)) == Some(t) && EvalNode(ops, e, f, nrows, sel) == Ok(a)
    requires Spread(a, sel.Len()) && Clean(a) && a.Type() == t
    requires forall i :: 0 <= i < sel.Len() ==> RowValue(ops, e, f, sel.Row(i), NO_AGG) == Some(a.Value(i))
    ensures Evaluates(ops, e, f, nrows, sel)
  {
    hide EvalNode, Typed, RowValue, Clean, At;
  }

  lemma SelRows(sel: Sel, nrows: nat)
    requires SelOk(sel, nrows)
    ensures forall i :: 0 <= i < sel.Len() ==> sel.Row(i) < nrows
  {
  }

  lemma ColNode(ops: Ops, e: Expr, f: Frame, nrows: nat, sel: Sel)
    requires FrameValid(f, nrows) && SelOk(sel, nrows) && Typed(ops, e, FrameTypes(f)).Some?
    requires e.Col?
    ensures Evaluates(ops, e, f, nrows, sel)
  {
    GatherExact(f[e.i], sel);
    SelRows(sel, nrows);
    hide Gather, Clean, At;
    Conclude(ops, e, f, nrows, sel, Typed(ops, e, FrameTypes(f)).value, Gather(f[e.i], sel));
  }

  lemma LitNode(ops: Ops, e: Expr, f: Frame, nrows: nat, sel: Sel)
    requires FrameValid(f, nrows) && SelOk(sel, nrows) && Typed(ops, e, FrameTypes(f)).Some?
    requires e.Lit?
    ensures Evaluates(ops, e, f, nrows, sel)
  {
    LitExact(e.v, sel.Len());
    hide Clean, At, LitArr;
    Conclude(ops, e, f, nrows, sel, Typed(ops, e, FrameTypes(f)).value, LitArr(e.v).value);
  }

  lemma BinaryNode(ops: Ops, e: Expr, f: Frame, nrows: nat, sel: Sel)
    requires FrameValid(f, nrows) && SelOk(sel, nrows) && Typed(ops, e, FrameTypes(f)).Some?
    requires e.Binary? && Evaluates(ops, e.l, f, nrows, sel) && Evaluates(ops, e.r, f, nrows, sel)
    ensures Evaluates(ops, e, f, nrows, sel)
  {
    BinaryIsExact(ops, e.op, sel.Len(), Eval(ops, e.l, f, nrows, sel).value, Eval(ops, e.r, f, nrows, sel).value);
    hide EvalBinary, BinaryValue, BinaryType, Clean, At;
    Conclude(ops, e, f, nrows, sel, Typed(ops, e, FrameTypes(f)).value,
             EvalBinary(ops, e.op, Eval(ops, e.l, f, nrows, sel).value, Eval(ops, e.r, f, nrows, sel).value).value);
  }

  lemma UnaryNode(ops: Ops, e: Expr, f: Frame, nrows: nat, sel: Sel)
    requires FrameValid(f, nrows) && SelOk(sel, nrows) && Typed(ops, e, FrameTypes(f)).Some?
    requires e.Unary? && Evaluates(ops, e.e, f, nrows, sel)
    ensures Evaluates(ops, e, f, nrows, sel)
  {
    UnaryExact(ops, e.uop, Eval(ops, e.e, f, nrows, sel).value, sel.Len());
    hide UnaryArr, UnaryValue, Clean, At;
    Conclude(ops, e, f, nrows, sel, Typed(ops, e, FrameTypes(f)).value,
             UnaryArr(ops, e.uop, Eval(ops, e.e, f, nrows, sel).value).value);
  }

  lemma LikeArr(ops: Ops, v: Arr, pattern: Text, negated: bool, n: nat)
    requires Spread(v, n) && v.Str?
    ensures var r := Arr.Bool(Map(LikeFn(ops, pattern, negated), v.ss));
      && Spread(r, n) && Clean(r)
      && forall i :: 0 <= i < n ==> r.Value(i) == Value.Bool(ops.like(pattern, v.Value(i).s) != negated)
  {
    MapAt(LikeFn(ops, pattern, negated), v.ss, n);
  }

  lemma LikeNode(ops: Ops, e: Expr, f: Frame, nrows: nat, sel: Sel)
    requires FrameValid(f, nrows) && SelOk(sel, nrows) && Typed(ops, e, FrameTypes(f)).Some?
    requires e.Like? && Evaluates(ops, e.e, f, nrows, sel)
    ensures Evaluates(ops, e, f, nrows, sel)
  {
    var v := Eval(ops, e.e, f, nrows, sel).value;
    LikeArr(ops, v, e.pattern, e.negated, sel.Len());
    hide Map, LikeFn, Clean, At;
    Conclude(ops, e, f, nrows, sel, Typed(ops, e, FrameTypes(f)).value,
             Arr.Bool(Map(LikeFn(ops, e.pattern, e.negated), v.ss)));
  }

  lemma InListArr(ops: Ops, v: Arr, list: seq<Value>, negated: bool, n: nat)
    requires Spread(v, n) && Clean(v) && ListOk(v.Type(), list)
    ensures MaskFrom(ops, v, list, Zeros(v.Len())).Ok?
    ensures var m := MaskFrom(ops, v, list, Zeros(v.Len())).value;
      var r := Arr.Bool(if negated then Map(NotByte, m) else m);
      && Spread(r, n) && Clean(r)
      && forall i :: 0 <= i < n ==>
           && AnyEqual(ops, v.Value(i), list).Some?
           && r.Value(i) == Value.Bool(AnyEqual(ops, v.Value(i), list).value != negated)
  {
    var zero := Zeros(v.Len());
    MaskExact(ops, v, list, zero, n);
    var m := MaskFrom(ops, v, list, zero).value;
    FlipExact(Arr.Bool(m), n);
    hide MaskFrom, AnyEqual, ListOk, Map;
  }

  lemma InListNode(ops: Ops, e: Expr, f: Frame, nrows: nat, sel: Sel)
    requires FrameValid(f, nrows) && SelOk(sel, nrows) && Typed(ops, e, FrameTypes(f)).Some?
    requires e.InList? && Evaluates(ops, e.e, f, nrows, sel)
    ensures Evaluates(ops, e, f, nrows, sel)
  {
    var v := Eval(ops, e.e, f, nrows, sel).value;
    InListArr(ops, v, e.list, e.negated, sel.Len());
    var m := MaskFrom(ops, v, e.list, Zeros(v.Len())).value;
    hide MaskFrom, AnyEqual, ListOk, Map, Clean, At;
    Conclude(ops, e, f, nrows, sel, Typed(ops, e, FrameTypes(f)).value,
             Arr.Bool(if e.negated then Map(NotByte, m) else m));
  }

  lemma BetweenNode(ops: Ops, e: Expr, f: Frame, nrows: nat, sel: Sel)
    requires FrameValid(f, nrows) && SelOk(sel, nrows) && Typed(ops, e, FrameTypes(f)).Some?
    requires e.Between? && Evaluates(ops, e.e, f, nrows, sel)
    requires Evaluates(ops, e.low, f, nrows, sel) && Evaluates(ops, e.high, f, nrows, sel)
    ensures Evaluates(ops, e, f, nrows, sel)
  {
    BetweenExact(ops, Eval(ops, e.e, f, nrows, sel).value, Eval(ops, e.low, f, nrows, sel).value,
                 Eval(ops, e.high, f, nrows, sel).value, e.negated, sel.Len());
    hide BetweenArr, BetweenValue, BinaryType, Clean, At;
    Conclude(ops, e, f, nrows, sel, Typed(ops, e, FrameTypes(f)).value,
             BetweenArr(ops, Eval(ops, e.e, f, nrows, sel).value, Eval(ops, e.low, f, nrows, sel).value, Eval(ops,
             e.high, f, nrows, sel).value, e.negated).value);
  }

  lemma CastNode(ops: Ops, e: Expr, f: Frame, nrows: nat, sel: Sel)
    requires FrameValid(f, nrows) && SelOk(sel, nrows) && Typed(ops, e, FrameTypes(f)).Some?
    requires e.Cast? && Evaluates(ops, e.e, f, nrows, sel)
    ensures Evaluates(ops, e, f, nrows, sel)
  {
    CastExact(ops, Eval(ops, e.e, f, nrows, sel).value, e.ty, sel.Len());
    hide CastArr, CastValue, CastOk, Clean, At;
    Conclude(ops, e, f, nrows, sel, Typed(ops, e, FrameTypes(f)).value,
             CastArr(ops, Eval(ops, e.e, f, nrows, sel).value, e.ty).value);
  }

  lemma DistanceNode(ops: Ops, e: Expr, f: Frame, nrows: nat, sel: Sel)
    requires FrameValid(f, nrows) && SelOk(sel, nrows) && Typed(ops, e, FrameTypes(f)).Some?
    requires e.Distance?
    ensures Evaluates(ops, e, f, nrows, sel)
  {
    SelRows(sel, nrows);
  }

  ghost predicate AllEvaluate(ops: Ops, es: seq<Expr>, f: Frame, nrows: nat, sel: Sel)
    requires FrameValid(f, nrows) && SelOk(sel, nrows)
  {
    forall i :: 0 <= i < |es| ==> Evaluates(ops, es[i], f, nrows, sel)
  }

  lemma {:induction false} ArgsEval(ops: Ops, es: seq<Expr>, f: Frame, nrows: nat, sel: Sel)
    requires FrameValid(f, nrows) && SelOk(sel, nrows)
    requires forall k :: 0 <= k < |es| ==> Eval(ops, es[k], f, nrows, sel).Ok?
    ensures EvalAll(ops, es, f, nrows, sel).Ok?
    ensures var vs := EvalAll(ops, es, f, nrows, sel).value;
      |vs| == |es| && forall k :: 0 <= k < |es| ==> Eval(ops, es[k], f, nrows, sel) == Ok(vs[k])
  {
    hide Eval;
    if es != [] {
      ArgsEval(ops, es[1..], f, nrows, sel);
    }
  }

  lemma {:induction false} ArgsTyped(ops: Ops, es: seq<Expr>, vs: seq<Arr>, types: seq<DataType>)
    requires |vs| == |es| && forall k :: 0 <= k < |es| ==> Typed(ops, es[k], types) == Some(vs[k].Type())
    ensures TypedAll(ops, es, types) == Some(TypesOf(vs))
  {
    hide Typed, Arr.Type;
    if es != [] {
      ArgsTyped(ops, es[1..], vs[1..], types);
      assert TypesOf(vs) == [vs[0].Type()] + TypesOf(vs[1..]);
    } else {
      assert TypesOf(vs) == [];
    }
  }

  lemma {:induction false} ArgsValue(ops: Ops, es: seq<Expr>, vs: seq<Arr>, f: Frame, r: nat, i: nat)
    requires |vs| == |es| && forall k :: 0 <= k < |vs| ==> vs[k].Len() == 1 || i < vs[k].Len()
    requires forall k :: 0 <= k < |es| ==> RowValue(ops, es[k], f, r, NO_AGG) == Some(vs[k].Value(i))
    ensures RowValues(ops, es, f, r, NO_AGG) == Some(ValuesAt(vs, i))
  {
    hide RowValue, Arr.Value, Arr.Len;
    if es != [] {
      ArgsValue(ops, es[1..], vs[1..], f, r, i);
      assert ValuesAt(vs, i) == [vs[0].Value(i)] + ValuesAt(vs[1..], i);
    } else {
      assert ValuesAt(vs, i) == [];
    }
  }

  lemma ArgsExact(ops: Ops, es: seq<Expr>, f: Frame, nrows: nat, sel: Sel)
    requires FrameValid(f, nrows) && SelOk(sel, nrows) && AllEvaluate(ops, es, f, nrows, sel)
    ensures EvalAll(ops, es, f, nrows, sel).Ok?
    ensures var vs := EvalAll(ops, es, f, nrows, sel).value;
      && |vs| == |es|
      && (forall k :: 0 <= k < |es| ==> Eval(ops, es[k], f, nrows, sel) == Ok(vs[k]))
      && (forall k :: 0 <= k < |vs| ==> (vs[k].Len() == 1 || vs[k].Len() == sel.Len()) && Clean(vs[k]))
      && TypedAll(ops, es, FrameTypes(f)) == Some(TypesOf(vs))
      && forall i :: 0 <= i < sel.Len() ==>
           RowValues(ops, es, f, sel.Row(i), NO_AGG) == Some(ValuesAt(vs, i))
  {
    hide Eval, EvalAll, RowValue, RowValues, Clean, At, Typed, TypedAll, Arr.Value, Arr.Type, Arr.Len;
    ArgsEval(ops, es, f, nrows, sel);
    var vs := EvalAll(ops, es, f, nrows, sel).value;
    assert forall k :: 0 <= k < |es| ==>
      Evaluates(ops, es[k], f, nrows, sel) && Eval(ops, es[k], f, nrows, sel) == Ok(vs[k]);
    ArgsTyped(ops, es, vs, FrameTypes(f));
    forall i | 0 <= i < sel.Len()
      ensures RowValues(ops, es, f, sel.Row(i), NO_AGG) == Some(ValuesAt(vs, i))
    {
      ArgsValue(ops, es, vs, f, sel.Row(i), i);
    }
  }

  // What evaluates without columns evaluates alike over every frame and selection.
  lemma {:induction false} ConstantEval(ops: Ops, e: Expr, f: Frame, nrows: nat, sel: Sel)
    requires FrameValid(f, nrows) && SelOk(sel, nrows) && Eval(ops, e, [], 1, All(1)).Ok?
    ensures Eval(ops, e, f, nrows, sel) == Eval(ops, e, [], 1, All(1))
    decreases e, 1
  {
    hide EvalBinary, UnaryArr, MaskFrom, BetweenArr, CastArr, EvalFunc, Distances, Gather, LitArr;
    match e
    case Binary(_, l, r) =>
      ConstantEval(ops, l, f, nrows, sel);
      ConstantEval(ops, r, f, nrows, sel);
    case Unary(_, x) => ConstantEval(ops, x, f, nrows, sel);
    case Like(x, _, _) => ConstantEval(ops, x, f, nrows, sel);
    case InList(x, _, _) => ConstantEval(ops, x, f, nrows, sel);
    case Between(x, low, high, _) =>
      ConstantEval(ops, x, f, nrows, sel);
      ConstantEval(ops, low, f, nrows, sel);
      ConstantEval(ops, high, f, nrows, sel);
    case Cast(x, _) => ConstantEval(ops, x, f, nrows, sel);
    case Func(_, args) => ConstantEvalAll(ops, args, f, nrows, sel);
    case _ =>
  }

  lemma {:induction false} ConstantEvalAll(ops: Ops, es: seq<Expr>, f: Frame, nrows: nat, sel: Sel)
    requires FrameValid(f, nrows) && SelOk(sel, nrows) && EvalAll(ops, es, [], 1, All(1)).Ok?
    ensures EvalAll(ops, es, f, nrows, sel) == EvalAll(ops, es, [], 1, All(1))
    decreases es, 0
  {
    hide Eval;
    if es != [] {
      ConstantEval(ops, es[0], f, nrows, sel);
      ConstantEvalAll(ops, es[1..], f, nrows, sel);
    }
  }

  // Constant arguments evaluate to arrays of one entry.
  lemma ConstantArgs(ops: Ops, fn: ScalarFunc, es: seq<Expr>, vs: seq<Arr>, f: Frame, nrows: nat, sel: Sel)
    requires FrameValid(f, nrows) && SelOk(sel, nrows) && |vs| == |es| && ConstantsGiven(ops, fn, es)
    requires forall k :: 0 <= k < |es| ==> Eval(ops, es[k], f, nrows, sel) == Ok(vs[k])
    ensures ConstantsFit(ops, fn, vs)
  {
    hide UnitStep, Varies;
    if fn == Round && |es| == 2 {
      EvalLen(ops, es[1], f, nrows, sel);
      assert Eval(ops, es[1], f, nrows, sel) == Ok(vs[1]);
    }
    if fn == DateTrunc && |es| == 2 {
      ConstantEval(ops, es[0], f, nrows, sel);
      assert Eval(ops, es[0], f, nrows, sel) == Ok(vs[0]);
      SingleEntry(ops, es[0]);
    }
    hide Eval;
  }

  lemma SingleEntry(ops: Ops, e: Expr)
    requires Eval(ops, e, [], 1, All(1)).Ok?
    ensures Eval(ops, e, [], 1, All(1)).value.Len() == 1
  {
    hide EvalNode;
  }

  lemma FuncNode(ops: Ops, e: Expr, f: Frame, nrows: nat, sel: Sel)
    requires FrameValid(f, nrows) && SelOk(sel, nrows) && Typed(ops, e, FrameTypes(f)).Some?
    requires e.Func? && AllEvaluate(ops, e.args, f, nrows, sel)
    ensures Evaluates(ops, e, f, nrows, sel)
  {
    ArgsExact(ops, e.args, f, nrows, sel);
    var vs := EvalAll(ops, e.args, f, nrows, sel).value;
    ConstantArgs(ops, e.f, e.args, vs, f, nrows, sel);
    FuncIsExact(ops, e.f, sel.Len(), vs);
    hide EvalFunc, FuncValue, FuncType, Clean, At, ConstantsGiven, ConstantsFit, EvalAll, RowValues, TypedAll;
    Conclude(ops, e, f, nrows, sel, Typed(ops, e, FrameTypes(f)).value, EvalFunc(ops, e.f, vs).value);
  }

  lemma {:induction false} TypedArgs(ops: Ops, es: seq<Expr>, types: seq<DataType>, k: nat)
    requires TypedAll(ops, es, types).Some? && k < |es|
    ensures Typed(ops, es[k], types).Some?
  {
    if k > 0 {
      TypedArgs(ops, es[1..], types, k - 1);
    }
  }

  // Every expression that has a type over the frame's columns, over every selection, the empty one
  // included: evaluation succeeds, and the array is a constant or one entry per row, and holds for
  // every selected row the expression's value at that row.
  lemma {:induction false} EvalExact(ops: Ops, e: Expr, f: Frame, nrows: nat, sel: Sel)
    requires FrameValid(f, nrows) && SelOk(sel, nrows) && Typed(ops, e, FrameTypes(f)).Some?
    ensures Evaluates(ops, e, f, nrows, sel)
    decreases e
  {
    hide Evaluates;
    match e
    case Col(_) => ColNode(ops, e, f, nrows, sel);
    case Lit(_) => LitNode(ops, e, f, nrows, sel);
    case Binary(_, l, r) =>
      EvalExact(ops, l, f, nrows, sel);
      EvalExact(ops, r, f, nrows, sel);
      BinaryNode(ops, e, f, nrows, sel);
    case Unary(_, x) =>
      EvalExact(ops, x, f, nrows, sel);
      UnaryNode(ops, e, f, nrows, sel);
    case Like(x, _, _) =>
      EvalExact(ops, x, f, nrows, sel);
      LikeNode(ops, e, f, nrows, sel);
    case InList(x, _, _) =>
      EvalExact(ops, x, f, nrows, sel);
      InListNode(ops, e, f, nrows, sel);
    case Between(x, low, high, _) =>
      EvalExact(ops, x, f, nrows, sel);
      EvalExact(ops, low, f, nrows, sel);
      EvalExact(ops, high, f, nrows, sel);
      BetweenNode(ops, e, f, nrows, sel);
    case Cast(x, _) =>
      EvalExact(ops, x, f, nrows, sel);
      CastNode(ops, e, f, nrows, sel);
    case Func(_, args) =>
      forall k | 0 <= k < |args| ensures Evaluates(ops, args[k], f, nrows, sel) {
        TypedArgs(ops, args, FrameTypes(f), k);
        EvalExact(ops, args[k], f, nrows, sel);
      }
      FuncNode(ops, e, f, nrows, sel);
    case Distance(_, _, _) => DistanceNode(ops, e, f, nrows, sel);
    case Agg(_, _, _) =>
  }
}
