/** The rows that WHERE and HAVING keep for a comparison (`src/exec.rs`), in terms of their values. */
module Filters {
  import opened Wrappers
  import opened Columns
  import opened Plan
  import opened Arrays
  import opened Orders
  import opened Evaluation
  import opened Refinement
  import opened Laws
  import opened Keeping
  import opened Queries

  // Two integers, or two texts, in the relation of that name.
  predicate Related(op: BinOp, v: Value, w: Value) {
    match (v, w)
    case (I64(a), I64(b)) => Relation(op, a < b, a == b, a > b)
    case (Str(a), Str(b)) => Relation(op, TextBelow(a, b), a == b, TextBelow(b, a))
    case _ => false
  }

  lemma PassesIffRelated(ops: Ops, op: BinOp, x: Expr, y: Expr, f: Frame, r: nat, v: Value, w: Value)
    requires IsCmp(op) && RowValue(ops, x, f, r, NO_AGG) == Some(v) && RowValue(ops, y, f, r, NO_AGG) == Some(w)
    requires (v.I64? && w.I64?) || (v.Str? && w.Str?)
    ensures KeepFn(ops, Some(Binary(op, x, y)), f)(r) <==> Related(op, v, w)
  {
    hide RowValue, Relation, TextBelow;
    if v.I64? {
      IntsRelate(ops, op, x, y, f, r, NO_AGG, v.i, w.i);
    } else {
      TextsRelate(ops, op, x, y, f, r, NO_AGG, v.s, w.s);
    }
  }

  // WHERE x op y over integers, or over texts: of the selected rows exactly those are kept, once and in
  // order, whose values are so related.
  lemma ComparisonKeeps(ops: Ops, op: BinOp, x: Expr, y: Expr, f: Frame, nrows: nat, sel: Sel)
    requires FrameValid(f, nrows) && SelOk(sel, nrows) && IsCmp(op)
    requires Typed(ops, x, FrameTypes(f)) == Typed(ops, y, FrameTypes(f))
    requires Typed(ops, x, FrameTypes(f)) in {Some(DataType.I64), Some(DataType.Str)}
    ensures var keep := KeepFn(ops, Some(Binary(op, x, y)), f);
      && KeepsThose(Rows(sel), keep, Kept(Rows(sel), keep))
      && forall i :: 0 <= i < sel.Len() ==>
           && RowValue(ops, x, f, sel.Row(i), NO_AGG).Some? && RowValue(ops, y, f, sel.Row(i), NO_AGG).Some?
           && (keep(sel.Row(i)) <==>
                 Related(op, RowValue(ops, x, f, sel.Row(i), NO_AGG).value,
                         RowValue(ops, y, f, sel.Row(i), NO_AGG).value))
  {
    hide Typed, RowValue, KeepsThose, Related, Passes;
    var keep := KeepFn(ops, Some(Binary(op, x, y)), f);
    KeptThose(Rows(sel), keep);
    forall i | 0 <= i < sel.Len()
      ensures RowValue(ops, x, f, sel.Row(i), NO_AGG).Some? && RowValue(ops, y, f, sel.Row(i), NO_AGG).Some?
      ensures keep(sel.Row(i)) <==>
        Related(op, RowValue(ops, x, f, sel.Row(i), NO_AGG).value, RowValue(ops, y, f, sel.Row(i), NO_AGG).value)
    {
      TypedValue(ops, x, f, nrows, sel, i);
      TypedValue(ops, y, f, nrows, sel, i);
      PassesIffRelated(ops, op, x, y, f, sel.Row(i), RowValue(ops, x, f, sel.Row(i), NO_AGG).value,
                       RowValue(ops, y, f, sel.Row(i), NO_AGG).value);
    }
  }
}
