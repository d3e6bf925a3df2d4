/** Which expressions give one entry per row, and which give a single entry (`src/exec.rs`). */
module Lengths {
  import opened Bytes
  import opened Wrappers
  import opened Columns
  import opened Plan
  import opened Arrays
  import opened Functions
  import opened Evaluation

  // The argument that decides the length of a scalar function's result, or all of them together.
  function FuncLen(fn: ScalarFunc, args: seq<Arr>): nat {
    if fn == Substring || fn == If then FirstLen(args)
    else if fn == DateTrunc then (if |args| > 1 then args[1].Len() else 1)
    else if |args| > 0 then args[0].Len() else 1
  }

  lemma FuncLenIs(ops: Ops, fn: ScalarFunc, args: seq<Arr>)
    requires EvalFunc(ops, fn, args).Ok?
    ensures EvalFunc(ops, fn, args).value.Len() == FuncLen(fn, args)
  {
    hide ToDoubles, FirstLen, UnitStep, Fitting;
    forall a: Arr {
      DoublesLen(ops, a);
    }
  }

  lemma BinaryLen(ops: Ops, op: BinOp, l: Arr, r: Arr)
    requires EvalBinary(ops, op, l, r).Ok?
    ensures PairLen(l.Len(), r.Len()) == Ok(EvalBinary(ops, op, l, r).value.Len())
  {
    DoublesLen(ops, l);
    DoublesLen(ops, r);
    hide ToDoubles;
  }

  lemma {:induction false} FirstLenIs(args: seq<Arr>, n: nat)
    requires forall i :: 0 <= i < |args| ==> args[i].Len() == 1 || args[i].Len() == n
    ensures FirstLen(args) == if exists i :: 0 <= i < |args| && args[i].Len() == n then n else 1
  {
    if args != [] {
      FirstLenIs(args[1..], n);
      if args[0].Len() == 1 && n != 1 {
        assert forall i :: 0 <= i < |args[1..]| ==> args[1..][i] == args[i + 1];
        if exists i :: 0 <= i < |args| && args[i].Len() == n {
          var i :| 0 <= i < |args| && args[i].Len() == n;
          assert args[1..][i - 1].Len() == n;
        }
      }
    }
  }

  lemma UnaryLen(ops: Ops, op: UnOp, v: Arr)
    requires UnaryArr(ops, op, v).Ok?
    ensures UnaryArr(ops, op, v).value.Len() == v.Len()
  {
    DoublesLen(ops, v);
    hide ToDoubles;
  }

  lemma CastLen(ops: Ops, v: Arr, ty: DataType)
    requires CastArr(ops, v, ty).Ok?
    ensures CastArr(ops, v, ty).value.Len() == v.Len()
  {
    DoublesLen(ops, v);
    hide ToDoubles;
  }

  lemma {:induction false} MaskLen(ops: Ops, v: Arr, list: seq<Value>, mask: seq<byte>)
    requires MaskFrom(ops, v, list, mask).Ok?
    ensures |MaskFrom(ops, v, list, mask).value| == |mask|
    decreases |list|
  {
    hide EvalBinary, LitArr;
    if list != [] {
      var b := EvalBinary(ops, Eq, v, LitArr(list[0]).value).value.bs;
      MaskLen(ops, v, list[1..], OrBytes(mask, b));
    }
  }

  function Joint(a: nat, b: nat): nat {
    if a == 1 then b else a
  }

  lemma BetweenLen(ops: Ops, v: Arr, low: Arr, high: Arr, negated: bool)
    requires BetweenArr(ops, v, low, high, negated).Ok?
    ensures BetweenArr(ops, v, low, high, negated).value.Len()
         == Joint(Joint(v.Len(), low.Len()), Joint(v.Len(), high.Len()))
  {
    hide EvalBinary;
    var lo, hi := EvalBinary(ops, GtEq, v, low).value, EvalBinary(ops, LtEq, v, high).value;
    BinaryLen(ops, GtEq, v, low);
    BinaryLen(ops, LtEq, v, high);
    BinaryLen(ops, And, lo, hi);
  }

  function LenOf(e: Expr, sel: Sel): nat {
    if Varies(e) then sel.Len() else 1
  }

  ghost predicate HasLen(ops: Ops, e: Expr, f: Frame, nrows: nat, sel: Sel)
    requires FrameValid(f, nrows) && SelOk(sel, nrows)
  {
    Eval(ops, e, f, nrows, sel).Ok? ==> Eval(ops, e, f, nrows, sel).value.Len() == LenOf(e, sel)
  }

  // Evaluation only adds a check to what the node computes.
  lemma NodeLen(ops: Ops, e: Expr, f: Frame, nrows: nat, sel: Sel)
    requires FrameValid(f, nrows) && SelOk(sel, nrows)
    requires EvalNode(ops, e, f, nrows, sel).Ok? ==> EvalNode(ops, e, f, nrows, sel).value.Len() == LenOf(e, sel)
    ensures HasLen(ops, e, f, nrows, sel)
  {
    hide EvalNode, LenOf;
  }

  lemma LeafLen(ops: Ops, e: Expr, f: Frame, nrows: nat, sel: Sel)
    requires FrameValid(f, nrows) && SelOk(sel, nrows)
    requires e.Col? || e.Lit? || e.Distance? || e.Agg?
    ensures HasLen(ops, e, f, nrows, sel)
  {
    if e.Col? && e.i < |f| {
      GatherExact(f[e.i], sel);
    }
    hide Gather, Clean, CleanColumn;
    NodeLen(ops, e, f, nrows, sel);
  }

  lemma PlainLen(ops: Ops, e: Expr, f: Frame, nrows: nat, sel: Sel)
    requires FrameValid(f, nrows) && SelOk(sel, nrows)
    requires e.Unary? || e.Like? || e.InList? || e.Cast?
    requires HasLen(ops, e.e, f, nrows, sel)
    ensures HasLen(ops, e, f, nrows, sel)
  {
    if EvalNode(ops, e, f, nrows, sel).Ok? {
      var v := Eval(ops, e.e, f, nrows, sel).value;
      match e
      case Unary(op, _) => UnaryLen(ops, op, v);
      case Cast(_, ty) => CastLen(ops, v, ty);
      case InList(_, list, _) => MaskLen(ops, v, list, Zeros(v.Len()));
      case _ =>
    }
    hide UnaryArr, CastArr, MaskFrom, Map, LikeFn;
    NodeLen(ops, e, f, nrows, sel);
  }

  lemma PairedLen(ops: Ops, e: Expr, f: Frame, nrows: nat, sel: Sel)
    requires FrameValid(f, nrows) && SelOk(sel, nrows) && e.Binary?
    requires HasLen(ops, e.l, f, nrows, sel) && HasLen(ops, e.r, f, nrows, sel)
    ensures HasLen(ops, e, f, nrows, sel)
  {
    hide EvalBinary;
    if EvalNode(ops, e, f, nrows, sel).Ok? {
      BinaryLen(ops, e.op, Eval(ops, e.l, f, nrows, sel).value, Eval(ops, e.r, f, nrows, sel).value);
    }
    NodeLen(ops, e, f, nrows, sel);
  }

  lemma RangeLen(ops: Ops, e: Expr, f: Frame, nrows: nat, sel: Sel)
    requires FrameValid(f, nrows) && SelOk(sel, nrows) && e.Between?
    requires HasLen(ops, e.e, f, nrows, sel) && HasLen(ops, e.low, f, nrows, sel) && HasLen(ops, e.high, f, nrows, sel)
    ensures HasLen(ops, e, f, nrows, sel)
  {
    hide BetweenArr;
    if EvalNode(ops, e, f, nrows, sel).Ok? {
      BetweenLen(ops, Eval(ops, e.e, f, nrows, sel).value, Eval(ops, e.low, f, nrows, sel).value,
                 Eval(ops, e.high, f, nrows, sel).value, e.negated);
    }
    NodeLen(ops, e, f, nrows, sel);
  }

  lemma {:induction false} EvaluatedArgs(ops: Ops, es: seq<Expr>, f: Frame, nrows: nat, sel: Sel, k: nat)
    requires FrameValid(f, nrows) && SelOk(sel, nrows) && EvalAll(ops, es, f, nrows, sel).Ok? && k < |es|
    ensures Eval(ops, es[k], f, nrows, sel) == Ok(EvalAll(ops, es, f, nrows, sel).value[k])
  {
    hide Eval;
    if k > 0 {
      EvaluatedArgs(ops, es[1..], f, nrows, sel, k - 1);
    }
  }

  lemma ArgsLen(es: seq<Expr>, vs: seq<Arr>, fn: ScalarFunc, sel: Sel)
    requires |vs| == |es| && forall k :: 0 <= k < |es| ==> vs[k].Len() == LenOf(es[k], sel)
    ensures FuncLen(fn, vs) == LenOf(Func(fn, es), sel)
  {
    if fn == Substring || fn == If {
      FirstLenIs(vs, sel.Len());
      if k :| 0 <= k < |es| && Varies(es[k]) {
        assert vs[k].Len() == sel.Len();
      }
      hide Varies, Arr.Len;
      assert Varies(Func(fn, es)) <==> exists k :: 0 <= k < |es| && Varies(es[k]) by {
        VariesFunc(fn, es);
      }
    }
  }

  lemma VariesFunc(fn: ScalarFunc, es: seq<Expr>)
    requires fn == Substring || fn == If
    ensures Varies(Func(fn, es)) <==> exists k :: 0 <= k < |es| && Varies(es[k])
  {
  }

  lemma CallLen(ops: Ops, e: Expr, f: Frame, nrows: nat, sel: Sel)
    requires FrameValid(f, nrows) && SelOk(sel, nrows) && e.Func?
    requires forall k :: 0 <= k < |e.args| ==> HasLen(ops, e.args[k], f, nrows, sel)
    ensures HasLen(ops, e, f, nrows, sel)
  {
    hide EvalFunc, EvalAll, FuncLen, LenOf;
    if EvalNode(ops, e, f, nrows, sel).Ok? {
      var vs := EvalAll(ops, e.args, f, nrows, sel).value;
      forall k | 0 <= k < |e.args| ensures vs[k].Len() == LenOf(e.args[k], sel) {
        EvaluatedArgs(ops, e.args, f, nrows, sel, k);
      }
      ArgsLen(e.args, vs, e.f, sel);
      FuncLenIs(ops, e.f, vs);
    }
    NodeLen(ops, e, f, nrows, sel);
  }

  // An evaluated expression has one entry per selected row when it varies, and otherwise one entry.
  lemma {:induction false} EvalLen(ops: Ops, e: Expr, f: Frame, nrows: nat, sel: Sel)
    requires FrameValid(f, nrows) && SelOk(sel, nrows)
    ensures HasLen(ops, e, f, nrows, sel)
    decreases e
  {
    hide HasLen;
    match e
    case Binary(_, l, r) =>
      EvalLen(ops, l, f, nrows, sel);
      EvalLen(ops, r, f, nrows, sel);
      PairedLen(ops, e, f, nrows, sel);
    case Between(x, low, high, _) =>
      EvalLen(ops, x, f, nrows, sel);
      EvalLen(ops, low, f, nrows, sel);
      EvalLen(ops, high, f, nrows, sel);
      RangeLen(ops, e, f, nrows, sel);
    case Unary(_, _) | Like(_, _, _) | InList(_, _, _) | Cast(_, _) =>
      EvalLen(ops, e.e, f, nrows, sel);
      PlainLen(ops, e, f, nrows, sel);
    case Func(_, args) =>
      forall k | 0 <= k < |args| ensures HasLen(ops, args[k], f, nrows, sel) {
        EvalLen(ops, args[k], f, nrows, sel);
      }
      CallLen(ops, e, f, nrows, sel);
    case _ => LeafLen(ops, e, f, nrows, sel);
  }
}
