/**
 SELECT from end to end (`src/exec.rs`): filter, group, filter groups, order and cut, project; against
 the answer defined row by row and group by group.
 */
module Queries {
  import opened Bytes
  import opened Wrappers
  import opened Columns
  import opened Plan
  import opened Arrays
  import opened Orders
  import opened Functions
  import opened Evaluation
  import opened Refinement
  import opened Lengths
  import opened TopK
  import opened Groups
  import opened Rewriting
  import opened Grouping
  import opened Keeping
  import opened Agreement

  // --- the answer ---------------------------------------------------------------------------------------

  function KeyTable(asc: seq<bool>, items: seq<nat>, key: nat -> seq<Value>): (k: Keys)
    requires forall i: nat :: |key(i)| == |asc|
    ensures k.Valid() && |k.rows| == |items| && forall i :: 0 <= i < |items| ==> k.rows[i] == key(items[i])
  {
    Keys(asc, seq(|items|, i requires 0 <= i < |items| => key(items[i])))
  }

  function Ranked(k: Keys): (r: seq<nat>)
    requires k.Valid()
    ensures |r| == |k.rows| && forall i :: 0 <= i < |r| ==> r[i] < |k.rows|
  {
    SortedIsOrdered(k, Iota(|k.rows|));
    SamePlaces(k, Iota(|k.rows|), Sorted(k, Iota(|k.rows|)));
    Sorted(k, Iota(|k.rows|))
  }

  // The items that pass, sorted by their keys, in the window of OFFSET and LIMIT.
  function Chosen(items: seq<nat>, keep: nat -> bool, asc: seq<bool>, key: nat -> seq<Value>, limit: Option<nat>,
                  offset: nat): seq<nat>
    requires forall i: nat :: |key(i)| == |asc|
  {
    var kept := Kept(items, keep);
    Pick(kept, Window(Ranked(KeyTable(asc, kept, key)), limit, offset))
  }

  function Shown(chosen: seq<nat>, out: nat -> seq<Value>): (r: seq<seq<Value>>)
    ensures |r| == |chosen| && forall i :: 0 <= i < |chosen| ==> r[i] == out(chosen[i])
  {
    seq(|chosen|, i requires 0 <= i < |chosen| => out(chosen[i]))
  }

  // What a query asks of one item: whether it passes, its sort keys, its row of the result.
  datatype View = View(keep: nat -> bool, key: nat -> seq<Value>, out: nat -> seq<Value>)

  function Answer(items: seq<nat>, view: View, asc: seq<bool>, limit: Option<nat>, offset: nat): seq<seq<Value>>
    requires forall i: nat :: |view.key(i)| == |asc|
  {
    Shown(Chosen(items, view.keep, asc, view.key, limit, offset), view.out)
  }

  // The values of several expressions at a row. For expressions with types every value exists.
  function Tuple(ops: Ops, es: seq<Expr>, f: Frame, r: nat, agg: Expr -> Option<Value>): (t: seq<Value>)
    ensures |t| == |es|
  {
    match RowValues(ops, es, f, r, agg)
    case Some(vs) => vs
    case None => seq(|es|, _ => Value.Bool(false))
  }

  predicate Passes(ops: Ops, cond: Option<Expr>, f: Frame, r: nat, agg: Expr -> Option<Value>) {
    cond.Some? ==> RowValue(ops, cond.value, f, r, agg) == Some(Value.Bool(true))
  }

  // The rows of a frame as a query sees them.
  function RowView(ops: Ops, f: Frame, cond: Option<Expr>, orderBy: seq<OrderKey>,
                   projection: seq<Projection>): (v: View)
    ensures forall r: nat :: v.keep(r) == Passes(ops, cond, f, r, NO_AGG)
    ensures forall r: nat :: v.key(r) == Tuple(ops, KeyExprs(orderBy), f, r, NO_AGG)
    ensures forall r: nat :: v.out(r) == Tuple(ops, ProjExprs(projection), f, r, NO_AGG)
    ensures forall r: nat :: |v.key(r)| == |Directions(orderBy)|
  {
    View((r: nat) => Passes(ops, cond, f, r, NO_AGG),
         (r: nat) => Tuple(ops, KeyExprs(orderBy), f, r, NO_AGG),
         (r: nat) => Tuple(ops, ProjExprs(projection), f, r, NO_AGG))
  }

  // --- what the answer is -------------------------------------------------------------------------------

  // The result is what the view shows of the items, sorted by the values of their keys and cut.
  ghost predicate ShownInOrder(items: seq<nat>, view: View, asc: seq<bool>, limit: Option<nat>, offset: nat,
                               rows: seq<seq<Value>>)
    requires forall i: nat :: |view.key(i)| == |asc|
  {
    exists part: seq<nat> :: SortedRows(items, asc, KeyTable(asc, items, view.key).rows, limit, offset, part)
      && rows == Shown(part, view.out)
  }

  lemma AnswerInOrder(items: seq<nat>, view: View, asc: seq<bool>, limit: Option<nat>, offset: nat)
    requires forall i: nat :: |view.key(i)| == |asc|
    requires OneKind(KeyTable(asc, Kept(items, view.keep), view.key).rows)
    ensures ShownInOrder(Kept(items, view.keep), view, asc, limit, offset, Answer(items, view, asc, limit, offset))
  {
    var kept := Kept(items, view.keep);
    var k := KeyTable(asc, kept, view.key);
    SortedIsOrdered(k, Iota(|kept|));
    var order := Ranked(k);
    SortArranges(k, order);
    hide Arranged, Ordered, Window, Ranked, OneKind, Kept, Cut;
    PickWindow(kept, order, limit, offset);
    WindowCuts(Pick(kept, order), limit, offset);
    assert SortedRows(kept, asc, k.rows, limit, offset, Pick(kept, Window(order, limit, offset)));
  }

  // --- filtering ----------------------------------------------------------------------------------------

  function KeepFn(ops: Ops, cond: Option<Expr>, f: Frame): (k: nat -> bool)
    ensures forall r: nat :: k(r) == Passes(ops, cond, f, r, NO_AGG)
  {
    (r: nat) => Passes(ops, cond, f, r, NO_AGG)
  }

  // The entries of the mask say which rows pass.
  lemma MaskMeans(ops: Ops, e: Expr, f: Frame, nrows: nat, sel: Sel)
    requires FrameValid(f, nrows) && SelOk(sel, nrows) && Typed(ops, e, FrameTypes(f)) == Some(DataType.Bool)
    ensures Eval(ops, e, f, nrows, sel).Ok? && Eval(ops, e, f, nrows, sel).value.Bool?
    ensures var mask := Eval(ops, e, f, nrows, sel).value.bs;
      && (|mask| == 1 || |mask| == sel.Len())
      && forall i :: 0 <= i < sel.Len() ==> (Passes(ops, Some(e), f, sel.Row(i), NO_AGG) <==> At(mask, i) != 0)
  {
    EvalExact(ops, e, f, nrows, sel);
    hide Eval, Typed, RowValue;
  }

  // The rows for which the mask is set.
  method MaskedRows(mask: seq<byte>, sel: Sel, nrows: nat, ghost keep: nat -> bool) returns (r: Sel)
    requires SelOk(sel, nrows) && nrows <= TWO32 && |mask| == sel.Len()
    requires forall i :: 0 <= i < sel.Len() ==> (keep(sel.Row(i)) <==> mask[i] != 0)
    ensures SelOk(r, nrows) && Rows(r) == Kept(Rows(sel), keep)
  {
    var ids: seq<u32> := [];
    SelRows(sel, nrows);
    KeptAll(Rows(sel)[..0], keep, true);
    hide Kept;
    for i := 0 to sel.Len()
      invariant ids == Kept(Rows(sel)[..i], keep)
      invariant forall j :: 0 <= j < |ids| ==> ids[j] < nrows
    {
      KeptStep(Rows(sel), keep, i);
      if mask[i] != 0 {
        ids := ids + [sel.Row(i)];
      }
    }
    assert Rows(sel)[..sel.Len()] == Rows(sel);
    r := Ids(ids);
    assert Rows(r) == ids;
  }

  // WHERE and HAVING: a constant keeps everything or nothing, a mask keeps the rows it is set for.
  method Restrict(ops: Ops, cond: Option<Expr>, f: Frame, nrows: nat, sel: Sel) returns (r: Result<Sel>)
    requires FrameValid(f, nrows) && SelOk(sel, nrows) && nrows <= TWO32
    requires cond.Some? ==> Typed(ops, cond.value, FrameTypes(f)).Some?
    ensures r.Ok? <==> (cond.Some? ==> Typed(ops, cond.value, FrameTypes(f)) == Some(DataType.Bool))
    ensures r.Ok? ==> SelOk(r.value, nrows) && Rows(r.value) == Kept(Rows(sel), KeepFn(ops, cond, f))
    ensures r.Ok? ==> KeepsThose(Rows(sel), KeepFn(ops, cond, f), Rows(r.value))
  {
    hide Eval, Typed, FrameValid, KeepsThose;
    ghost var keep := KeepFn(ops, cond, f);
    KeptThose(Rows(sel), keep);
    if cond.None? {
      KeptAll(Rows(sel), keep, true);
      return Ok(sel);
    }
    EvalExact(ops, cond.value, f, nrows, sel);
    var v := Eval(ops, cond.value, f, nrows, sel).value;
    if !v.Bool? {
      return Err(BadType);
    }
    MaskMeans(ops, cond.value, f, nrows, sel);
    if |v.bs| == 1 {
      KeptAll(Rows(sel), keep, v.bs[0] != 0);
      return Ok(if v.bs[0] != 0 then sel else Ids([]));
    }
    var rows := MaskedRows(v.bs, sel, nrows, keep);
    r := Ok(rows);
  }

  // --- ordering and projection --------------------------------------------------------------------------

  datatype QueryResult = QueryResult(columns: seq<Text>, types: seq<DataType>, rows: seq<seq<Value>>)

  predicate AllTyped(ops: Ops, es: seq<Expr>, types: seq<DataType>) {
    forall k :: 0 <= k < |es| ==> Typed(ops, es[k], types).Some?
  }

  // Every sort key has one value per row; of a single row, or none, that is always so.
  predicate KeysVary(es: seq<Expr>, n: nat) {
    n <= 1 || forall k :: 0 <= k < |es| ==> Varies(es[k])
  }

  // Arrays of typed expressions hold the tuples of the selected rows.
  lemma TypedArrays(ops: Ops, es: seq<Expr>, f: Frame, nrows: nat, sel: Sel)
    requires FrameValid(f, nrows) && SelOk(sel, nrows) && AllTyped(ops, es, FrameTypes(f))
    ensures EvalAll(ops, es, f, nrows, sel).Ok?
    ensures var arrays := EvalAll(ops, es, f, nrows, sel).value;
      && |arrays| == |es|
      && (forall k :: 0 <= k < |arrays| ==> Spread(arrays[k], sel.Len()) && Clean(arrays[k]))
      && (forall k :: 0 <= k < |arrays| ==> arrays[k].Len() == LenOf(es[k], sel))
      && forall i :: 0 <= i < sel.Len() ==> ValuesAt(arrays, i) == Tuple(ops, es, f, sel.Row(i), NO_AGG)
  {
    forall k | 0 <= k < |es| ensures Evaluates(ops, es[k], f, nrows, sel) && HasLen(ops, es[k], f, nrows, sel) {
      EvalExact(ops, es[k], f, nrows, sel);
      EvalLen(ops, es[k], f, nrows, sel);
    }
    ArgsExact(ops, es, f, nrows, sel);
    hide EvalAll, Evaluates, Eval, RowValues, TypedAll, LenOf, Clean, Typed;
  }

  lemma SameKeys(arrays: seq<Arr>, asc: seq<bool>, sel: Sel, key: nat -> seq<Value>)
    requires PerRow(arrays, sel.Len()) && |asc| == |arrays| && forall i: nat :: |key(i)| == |asc|
    requires forall i :: 0 <= i < sel.Len() ==> InReach(arrays, i) && ValuesAt(arrays, i) == key(sel.Row(i))
    ensures FullOrder(arrays, asc, sel.Len()) == Ranked(KeyTable(asc, Rows(sel), key))
  {
    assert KeysOf(arrays, asc, sel.Len()) == KeyTable(asc, Rows(sel), key);
    SortedFully(arrays, asc, sel.Len());
  }

  lemma InReachOf(arrays: seq<Arr>, n: nat)
    requires PerRow(arrays, n)
    ensures forall i :: 0 <= i < n ==> InReach(arrays, i)
  {
  }

  // The comparator finds an entry for every position if and only if every sort key varies by row, or
  // there is no second row to compare with.
  lemma SortKeysReadyIff(ops: Ops, es: seq<Expr>, f: Frame, nrows: nat, sel: Sel)
    requires FrameValid(f, nrows) && SelOk(sel, nrows) && AllTyped(ops, es, FrameTypes(f))
    ensures EvalAll(ops, es, f, nrows, sel).Ok?
    ensures PerRow(EvalAll(ops, es, f, nrows, sel).value, sel.Len()) <==> KeysVary(es, sel.Len())
  {
    TypedArrays(ops, es, f, nrows, sel);
    hide EvalAll, Varies, Clean, Arr.Len, Typed, ValuesAt;
    var arrays, n := EvalAll(ops, es, f, nrows, sel).value, sel.Len();
    if !KeysVary(es, n) {
      var k :| 0 <= k < |es| && !Varies(es[k]);
      assert arrays[k].Len() == 1;
    }
  }

  // SELECT 1 FROM t ORDER BY 1, where the number stands for the first column of the result: over two
  // rows the key has one entry, and comparing the rows reads a second one.
  lemma OrderByConstant(ops: Ops, f: Frame, nrows: nat, sel: Sel)
    requires FrameValid(f, nrows) && SelOk(sel, nrows) && sel.Len() == 2
    ensures EvalAll(ops, [Lit(Value.I64(1))], f, nrows, sel) == Ok([Arr.I64([1])])
    ensures !PerRow([Arr.I64([1])], sel.Len()) && !KeysVary([Lit(Value.I64(1))], sel.Len())
  {
    var es := [Lit(Value.I64(1))];
    assert es[1..] == [] && EvalAll(ops, es[1..], f, nrows, sel) == Ok([]);
    assert EvalNode(ops, es[0], f, nrows, sel) == Ok(Arr.I64([1]));
    assert Eval(ops, es[0], f, nrows, sel) == Ok(Arr.I64([1]));
    assert [Arr.I64([1])] + [] == [Arr.I64([1])];
    assert !Varies(es[0]) && [Arr.I64([1])][0].Len() == 1;
  }

  // `order_and_limit` for typed keys: the selected rows in the window of the sorted order.
  method Order(ops: Ops, f: Frame, nrows: nat, sel: Sel, keys: seq<OrderKey>, limit: Option<nat>, offset: nat,
               ghost key: nat -> seq<Value>) returns (r: Sel)
    requires FrameValid(f, nrows) && SelOk(sel, nrows) && nrows <= TWO32
    requires AllTyped(ops, KeyExprs(keys), FrameTypes(f)) && KeysVary(KeyExprs(keys), sel.Len())
    requires forall i: nat :: |key(i)| == |Directions(keys)|
    requires forall i: nat :: key(i) == Tuple(ops, KeyExprs(keys), f, i, NO_AGG)
    ensures SelOk(r, nrows)
    ensures Rows(r) == Pick(Rows(sel), Window(Ranked(KeyTable(Directions(keys), Rows(sel), key)), limit, offset))
  {
    hide EvalAll, Tuple, AllTyped, KeysVary, FrameValid, PerRow, FullOrder, Ranked, Window, SelOk, Pick, InReach,
         ValuesAt;
    TypedArrays(ops, KeyExprs(keys), f, nrows, sel);
    SortKeysReadyIff(ops, KeyExprs(keys), f, nrows, sel);
    ghost var arrays := EvalAll(ops, KeyExprs(keys), f, nrows, sel).value;
    InReachOf(arrays, sel.Len());
    SameKeys(arrays, Directions(keys), sel, key);
    var res := OrderAndLimit(ops, f, nrows, sel, keys, limit, offset);
    r := res.value;
    WindowInside(arrays, Directions(keys), sel.Len(), limit, offset);
  }

  lemma WindowInside(arrays: seq<Arr>, asc: seq<bool>, n: nat, limit: Option<nat>, offset: nat)
    requires PerRow(arrays, n) && |asc| == |arrays|
    ensures Reaches(Window(FullOrder(arrays, asc, n), limit, offset), n)
  {
  }

  // The columns of the result are named and typed by the projected expressions.
  predicate Headed(ops: Ops, r: QueryResult, ps: seq<Projection>, types: seq<DataType>) {
    && |r.columns| == |r.types| == |ps|
    && forall k :: 0 <= k < |ps| ==> r.columns[k] == ps[k].alias && Typed(ops, ps[k].expr, types) == Some(r.types[k])
  }

  method RowsFrom(arrays: seq<Arr>, n: nat) returns (rows: seq<seq<Value>>)
    requires forall k :: 0 <= k < |arrays| ==> Spread(arrays[k], n)
    ensures |rows| == n && forall i :: 0 <= i < n ==> InReach(arrays, i) && rows[i] == ValuesAt(arrays, i)
  {
    rows := [];
    for i := 0 to n
      invariant |rows| == i && forall j :: 0 <= j < i ==> InReach(arrays, j) && rows[j] == ValuesAt(arrays, j)
    {
      assert InReach(arrays, i);
      rows := rows + [ValuesAt(arrays, i)];
    }
  }

  // The projection, column by column, and the rows put together from the columns.
  method Project(ops: Ops, f: Frame, nrows: nat, sel: Sel, ps: seq<Projection>, ghost out: nat -> seq<Value>)
    returns (r: QueryResult)
    requires FrameValid(f, nrows) && SelOk(sel, nrows) && AllTyped(ops, ProjExprs(ps), FrameTypes(f))
    requires forall i: nat :: out(i) == Tuple(ops, ProjExprs(ps), f, i, NO_AGG)
    ensures r.rows == Shown(Rows(sel), out)
    ensures Headed(ops, r, ps, FrameTypes(f))
  {
    TypedArrays(ops, ProjExprs(ps), f, nrows, sel);
    ProjectedTypes(ops, ProjExprs(ps), f, nrows, sel);
    hide EvalAll, Tuple, AllTyped, FrameValid, Typed, SelOk, Clean, Arr.Type, Arr.Value;
    var arrays := EvalAll(ops, ProjExprs(ps), f, nrows, sel).value;
    var columns := seq<Text>(|ps|, k requires 0 <= k < |ps| => ps[k].alias);
    var rows := RowsFrom(arrays, sel.Len());
    assert rows == Shown(Rows(sel), out);
    r := QueryResult(columns, TypesOf(arrays), rows);
  }

  lemma ProjectedTypes(ops: Ops, es: seq<Expr>, f: Frame, nrows: nat, sel: Sel)
    requires FrameValid(f, nrows) && SelOk(sel, nrows) && AllTyped(ops, es, FrameTypes(f))
    ensures EvalAll(ops, es, f, nrows, sel).Ok?
    ensures forall k :: 0 <= k < |es| ==>
      Typed(ops, es[k], FrameTypes(f)) == Some(EvalAll(ops, es, f, nrows, sel).value[k].Type())
  {
    forall k | 0 <= k < |es| ensures Evaluates(ops, es[k], f, nrows, sel) {
      EvalExact(ops, es[k], f, nrows, sel);
    }
    ArgsExact(ops, es, f, nrows, sel);
    hide EvalAll, Eval, RowValues, TypedAll, Clean, Typed, RowValue;
    forall k | 0 <= k < |es|
      ensures Typed(ops, es[k], FrameTypes(f)) == Some(EvalAll(ops, es, f, nrows, sel).value[k].Type())
    {
      assert Evaluates(ops, es[k], f, nrows, sel);
    }
  }

  // --- after grouping, or without it ------------------------------------------------------------------

  predicate BoolTyped(ops: Ops, cond: Option<Expr>, types: seq<DataType>) {
    cond.Some? ==> Typed(ops, cond.value, types) == Some(DataType.Bool)
  }

  predicate HasType(ops: Ops, cond: Option<Expr>, types: seq<DataType>) {
    cond.Some? ==> Typed(ops, cond.value, types).Some?
  }

  lemma KeptLonger(items: seq<nat>, keep: nat -> bool, es: seq<Expr>)
    requires KeysVary(es, |items|)
    ensures KeysVary(es, |Kept(items, keep)|)
  {
  }

  // The values of a typed key are of one kind on all rows.
  lemma TuplesOneKind(ops: Ops, es: seq<Expr>, f: Frame, nrows: nat, rows: seq<nat>, keys: seq<seq<Value>>)
    requires FrameValid(f, nrows) && AllTyped(ops, es, FrameTypes(f)) && |keys| == |rows|
    requires forall i :: 0 <= i < |rows| ==> rows[i] < nrows && keys[i] == Tuple(ops, es, f, rows[i], NO_AGG)
    ensures OneKind(keys)
  {
    var sel := All(nrows);
    TypedArrays(ops, es, f, nrows, sel);
    var arrays := EvalAll(ops, es, f, nrows, sel).value;
    hide EvalAll, Tuple, AllTyped, FrameValid, Typed, Clean, LenOf;
    forall i, j | 0 <= i < |keys| && 0 <= j < |keys| ensures SameKinds(keys[i], keys[j]) {
      assert ValuesAt(arrays, rows[i]) == Tuple(ops, es, f, sel.Row(rows[i]), NO_AGG);
      assert ValuesAt(arrays, rows[j]) == Tuple(ops, es, f, sel.Row(rows[j]), NO_AGG);
    }
  }

  // The second half of `run_select`: filter once more, order and cut, project.
  method Finish(ops: Ops, f: Frame, nrows: nat, sel: Sel, having: Option<Expr>, orderBy: seq<OrderKey>,
                limit: Option<nat>, offset: nat, projection: seq<Projection>) returns (r: Result<QueryResult>)
    requires FrameValid(f, nrows) && SelOk(sel, nrows) && nrows <= TWO32
    requires HasType(ops, having, FrameTypes(f))
    requires AllTyped(ops, KeyExprs(orderBy), FrameTypes(f)) && AllTyped(ops, ProjExprs(projection), FrameTypes(f))
    requires KeysVary(KeyExprs(orderBy), sel.Len())
    ensures r.Ok? <==> BoolTyped(ops, having, FrameTypes(f))
    ensures r.Ok? ==>
      var view := RowView(ops, f, having, orderBy, projection);
      && r.value.rows == Answer(Rows(sel), view, Directions(orderBy), limit, offset)
      && ShownInOrder(Kept(Rows(sel), view.keep), view, Directions(orderBy), limit, offset, r.value.rows)
    ensures r.Ok? ==> Headed(ops, r.value, projection, FrameTypes(f))
  {
    FinishInOrder(ops, f, nrows, sel, having, orderBy, limit, offset, projection);
    hide Tuple, AllTyped, KeysVary, FrameValid, Ranked, Window, SelOk, Pick, Shown, Passes, Kept, Typed;
    ghost var view := RowView(ops, f, having, orderBy, projection);
    var kept := Restrict(ops, having, f, nrows, sel);
    if kept.Err? {
      return Err(kept.error);
    }
    KeptSame(Rows(sel), KeepFn(ops, having, f), view.keep);
    KeptLonger(Rows(sel), view.keep, KeyExprs(orderBy));
    var chosen := Order(ops, f, nrows, kept.value, orderBy, limit, offset, view.key);
    var res := Project(ops, f, nrows, chosen, projection, view.out);
    r := Ok(res);
  }

  lemma FinishInOrder(ops: Ops, f: Frame, nrows: nat, sel: Sel, having: Option<Expr>, orderBy: seq<OrderKey>,
                      limit: Option<nat>, offset: nat, projection: seq<Projection>)
    requires FrameValid(f, nrows) && SelOk(sel, nrows) && AllTyped(ops, KeyExprs(orderBy), FrameTypes(f))
    ensures var view := RowView(ops, f, having, orderBy, projection);
      ShownInOrder(Kept(Rows(sel), view.keep), view, Directions(orderBy), limit, offset,
                   Answer(Rows(sel), view, Directions(orderBy), limit, offset))
  {
    hide Tuple, AllTyped, FrameValid, Passes, Kept, OneKind, ShownInOrder, Answer;
    var view := RowView(ops, f, having, orderBy, projection);
    var kept := Kept(Rows(sel), view.keep);
    KeptInside(Rows(sel), view.keep);
    SelRows(sel, nrows);
    forall i | 0 <= i < |kept| ensures kept[i] < nrows {
      assert kept[i] in Rows(sel);
    }
    TuplesOneKind(ops, KeyExprs(orderBy), f, nrows, kept, KeyTable(Directions(orderBy), kept, view.key).rows);
    AnswerInOrder(Rows(sel), view, Directions(orderBy), limit, offset);
  }

  // --- the groups of a query ----------------------------------------------------------------------------

  // A row of the group.
  function Member(rows: seq<nat>, ids: seq<nat>, g: nat): nat
    requires |ids| == |rows|
  {
    if g in ids then rows[IndexOf(ids, g)] else 0
  }

  // The groups of the source rows as the query sees them: keys at any row of the group,
  // aggregates over all its rows.
  function GroupView(ops: Ops, q: Select, f: Frame, rows: seq<nat>): (v: View)
    ensures var ids := GroupIds(ops, q.groupBy, f, rows);
      forall g: nat ::
        var r, agg := Member(rows, ids, g), GroupAgg(ops, f, GroupRows(rows, ids, g));
        && v.keep(g) == Passes(ops, q.having, f, r, agg)
        && v.key(g) == Tuple(ops, KeyExprs(q.orderBy), f, r, agg)
        && v.out(g) == Tuple(ops, ProjExprs(q.projection), f, r, agg)
    ensures forall g: nat :: |v.key(g)| == |Directions(q.orderBy)|
  {
    var ids := GroupIds(ops, q.groupBy, f, rows);
    var agg := (g: nat) => GroupAgg(ops, f, GroupRows(rows, ids, g));
    View((g: nat) => Passes(ops, q.having, f, Member(rows, ids, g), agg(g)),
         (g: nat) => Tuple(ops, KeyExprs(q.orderBy), f, Member(rows, ids, g), agg(g)),
         (g: nat) => Tuple(ops, ProjExprs(q.projection), f, Member(rows, ids, g), agg(g)))
  }

  // The answer of a grouped query, in terms of the source rows.
  function GroupedAnswer(ops: Ops, q: Select, f: Frame, rows: seq<nat>): seq<seq<Value>> {
    Answer(Iota(GroupCount(ops, q.groupBy, f, rows)), GroupView(ops, q, f, rows), Directions(q.orderBy), q.limit,
           q.offset)
  }

  lemma RankedSame(asc: seq<bool>, items: seq<nat>, a: nat -> seq<Value>, b: nat -> seq<Value>)
    requires forall i: nat :: |a(i)| == |asc|
    requires forall i: nat :: |b(i)| == |asc|
    requires forall i :: 0 <= i < |items| ==> a(items[i]) == b(items[i])
    ensures KeyTable(asc, items, a) == KeyTable(asc, items, b)
  {
  }

  // Queries that agree on every item have one answer.
  lemma AnswerSame(items: seq<nat>, a: View, b: View, asc: seq<bool>, limit: Option<nat>, offset: nat)
    requires forall i: nat :: |a.key(i)| == |asc|
    requires forall i: nat :: |b.key(i)| == |asc|
    requires forall x: nat :: x in items ==> a.keep(x) == b.keep(x) && a.key(x) == b.key(x) && a.out(x) == b.out(x)
    ensures Answer(items, a, asc, limit, offset) == Answer(items, b, asc, limit, offset)
  {
    hide Ranked, Window, Kept;
    KeptSame(items, a.keep, b.keep);
    KeptInside(items, a.keep);
    var kept := Kept(items, a.keep);
    RankedSame(asc, kept, a.key, b.key);
    var chosen := Chosen(items, a.keep, asc, a.key, limit, offset);
    ChosenInside(items, a.keep, asc, a.key, limit, offset);
    assert Shown(chosen, a.out) == Shown(chosen, b.out);
  }

  lemma ChosenInside(items: seq<nat>, keep: nat -> bool, asc: seq<bool>, key: nat -> seq<Value>, limit: Option<nat>,
                     offset: nat)
    requires forall i: nat :: |key(i)| == |asc|
    ensures forall x :: x in Chosen(items, keep, asc, key, limit, offset) ==> x in items
  {
    hide Ranked, Kept;
    KeptInside(items, keep);
    var c := Chosen(items, keep, asc, key, limit, offset);
    forall i | 0 <= i < |c| ensures c[i] in items {
      assert c[i] in Kept(items, keep);
    }
  }

  // Every expression that is computed after grouping has its source columns inside aggregates or keys.
  predicate WellGroupedQuery(q: Select) {
    forall i :: 0 <= i < |Outputs(q)| ==> WellGrouped(Outputs(q)[i], q.groupBy)
  }

  // One rewritten output on the intermediate frame means what it says about the group.
  lemma OutputMeaning(ops: Ops, q: Select, f: Frame, rows: seq<nat>, f2: Frame, e: Expr, g: nat)
    requires WellGroupedQuery(q) && Unambiguous(ops.Equals(), q) && e in Outputs(q)
    requires Summarises(ops, q.groupBy, QueryAggs(ops.Equals(), q), f, rows, f2)
    requires g < GroupCount(ops, q.groupBy, f, rows)
    ensures var ids := GroupIds(ops, q.groupBy, f, rows);
      RowValue(ops, Substitute(ops.Equals(), e, QueryPatterns(ops.Equals(), q)), f2, g, NO_AGG)
      == RowValue(ops, e, f, Member(rows, ids, g), GroupAgg(ops, f, GroupRows(rows, ids, g)))
  {
    UnambiguousAlike(ops.Equals(), q);
    var i :| 0 <= i < |Outputs(q)| && Outputs(q)[i] == e;
    hide RowValue, Substitute, Prepared, WellGrouped, GroupIds, GroupCount, QueryAggs, Unambiguous, Outputs;
    var ids := GroupIds(ops, q.groupBy, f, rows);
    GroupsAreNumbered(ops, q.groupBy, f, rows);
    OutputCovered(q, e);
    assert InGroup(q.groupBy, rows, ids, g, Member(rows, ids, g));
    RewriteKeepsMeaning(ops, e, q.groupBy, QueryAggs(BITS, q), f, Member(rows, ids, g),
                        GroupAgg(ops, f, GroupRows(rows, ids, g)), f2, g);
  }

  lemma {:induction false} SameTuples(ops: Ops, eq: Equality, es: seq<Expr>, pats: seq<(Expr, Expr)>, f2: Frame, g: nat,
                                      f: Frame, r: nat, agg: Expr -> Option<Value>)
    requires forall i :: 0 <= i < |es| ==>
      RowValue(ops, Substitute(eq, es[i], pats), f2, g, NO_AGG) == RowValue(ops, es[i], f, r, agg)
    ensures RowValues(ops, SubstituteAll(eq, es, pats), f2, g, NO_AGG) == RowValues(ops, es, f, r, agg)
  {
    hide RowValue, Substitute;
    if es != [] {
      SameTuples(ops, eq, es[1..], pats, f2, g, f, r, agg);
    }
  }

  lemma RewrittenExprs(eq: Equality, q: Select, pats: seq<(Expr, Expr)>)
    ensures KeyExprs(RewrittenOrder(eq, q.orderBy, pats)) == SubstituteAll(eq, KeyExprs(q.orderBy), pats)
    ensures ProjExprs(RewrittenProjection(eq, q.projection, pats)) == SubstituteAll(eq, ProjExprs(q.projection), pats)
    ensures Directions(RewrittenOrder(eq, q.orderBy, pats)) == Directions(q.orderBy)
  {
    hide Substitute;
  }

  lemma OutputsHold(q: Select)
    ensures forall i :: 0 <= i < |ProjExprs(q.projection)| ==> ProjExprs(q.projection)[i] in Outputs(q)
    ensures forall i :: 0 <= i < |KeyExprs(q.orderBy)| ==> KeyExprs(q.orderBy)[i] in Outputs(q)
    ensures q.having.Some? ==> q.having.value in Outputs(q)
  {
  }

  // The query on the intermediate frame, as `run_select` continues with it.
  function FrameView(ops: Ops, q: Select, f2: Frame): (v: View)
    ensures forall g: nat :: |v.key(g)| == |Directions(q.orderBy)|
  {
    var pats := QueryPatterns(ops.Equals(), q);
    RewrittenExprs(ops.Equals(), q, pats);
    RowView(ops, f2, RewrittenHaving(ops.Equals(), q.having, pats), RewrittenOrder(ops.Equals(), q.orderBy, pats),
            RewrittenProjection(ops.Equals(), q.projection, pats))
  }

  lemma GroupMeaning(ops: Ops, q: Select, f: Frame, rows: seq<nat>, f2: Frame, g: nat)
    requires WellGroupedQuery(q) && Unambiguous(ops.Equals(), q)
    requires Summarises(ops, q.groupBy, QueryAggs(ops.Equals(), q), f, rows, f2)
    requires g < GroupCount(ops, q.groupBy, f, rows)
    ensures var a, b := FrameView(ops, q, f2), GroupView(ops, q, f, rows);
      a.keep(g) == b.keep(g) && a.key(g) == b.key(g) && a.out(g) == b.out(g)
  {
    hide RowValue, RowValues, Substitute, WellGrouped, GroupIds, GroupCount, QueryAggs, Summarises, SubstituteAll,
         QueryPatterns;
    var pats, ids := QueryPatterns(ops.Equals(), q), GroupIds(ops, q.groupBy, f, rows);
    var r, agg := Member(rows, ids, g), GroupAgg(ops, f, GroupRows(rows, ids, g));
    RewrittenExprs(ops.Equals(), q, pats);
    OutputsHold(q);
    forall e | e in Outputs(q)
      ensures RowValue(ops, Substitute(ops.Equals(), e, pats), f2, g, NO_AGG) == RowValue(ops, e, f, r, agg)
    {
      OutputMeaning(ops, q, f, rows, f2, e, g);
    }
    SameTuples(ops, ops.Equals(), KeyExprs(q.orderBy), pats, f2, g, f, r, agg);
    SameTuples(ops, ops.Equals(), ProjExprs(q.projection), pats, f2, g, f, r, agg);
  }

  // A grouped query computed on the intermediate frame answers the question about the source rows.
  lemma GroupedQueryExact(ops: Ops, q: Select, f: Frame, rows: seq<nat>, f2: Frame)
    requires WellGroupedQuery(q) && Unambiguous(ops.Equals(), q)
    requires Summarises(ops, q.groupBy, QueryAggs(ops.Equals(), q), f, rows, f2)
    ensures Answer(Iota(GroupCount(ops, q.groupBy, f, rows)), FrameView(ops, q, f2), Directions(q.orderBy), q.limit,
                   q.offset)
         == GroupedAnswer(ops, q, f, rows)
  {
    hide GroupCount, FrameView, GroupView, Summarises, WellGroupedQuery, Answer, QueryAggs;
    var n := GroupCount(ops, q.groupBy, f, rows);
    forall g: nat | g in Iota(n)
      ensures var a, b := FrameView(ops, q, f2), GroupView(ops, q, f, rows);
        a.keep(g) == b.keep(g) && a.key(g) == b.key(g) && a.out(g) == b.out(g)
    {
      GroupMeaning(ops, q, f, rows, f2, g);
    }
    AnswerSame(Iota(n), FrameView(ops, q, f2), GroupView(ops, q, f, rows), Directions(q.orderBy), q.limit, q.offset);
  }

  // The rows are those of the rewritten query on this frame, sorted and cut as it asks.
  ghost predicate AnsweredOn(ops: Ops, q: Select, f: Frame, rows: seq<nat>, f2: Frame, answer: seq<seq<Value>>) {
    var groups, view := Iota(GroupCount(ops, q.groupBy, f, rows)), FrameView(ops, q, f2);
    && answer == Answer(groups, view, Directions(q.orderBy), q.limit, q.offset)
    && ShownInOrder(Kept(groups, view.keep), view, Directions(q.orderBy), q.limit, q.offset, answer)
  }

  // The same for some frame that summarises the groups.
  ghost predicate FromGroups(ops: Ops, q: Select, f: Frame, rows: seq<nat>, answer: seq<seq<Value>>) {
    exists f2: Frame ::
      Summarises(ops, q.groupBy, QueryAggs(ops.Equals(), q), f, rows, f2) && AnsweredOn(ops, q, f, rows, f2, answer)
  }

  // The answer of a grouped query in terms of the source rows, and that it is sorted and cut.
  ghost predicate GroupsInOrder(ops: Ops, q: Select, f: Frame, rows: seq<nat>, answer: seq<seq<Value>>) {
    var groups, view := Iota(GroupCount(ops, q.groupBy, f, rows)), GroupView(ops, q, f, rows);
    ShownInOrder(Kept(groups, view.keep), view, Directions(q.orderBy), q.limit, q.offset, answer)
  }

  lemma InOrderSame(items: seq<nat>, a: View, b: View, asc: seq<bool>, limit: Option<nat>, offset: nat,
                    rows: seq<seq<Value>>)
    requires forall i: nat :: |a.key(i)| == |asc|
    requires forall i: nat :: |b.key(i)| == |asc|
    requires forall x: nat :: x in items ==> a.keep(x) == b.keep(x) && a.key(x) == b.key(x) && a.out(x) == b.out(x)
    requires ShownInOrder(Kept(items, a.keep), a, asc, limit, offset, rows)
    ensures ShownInOrder(Kept(items, b.keep), b, asc, limit, offset, rows)
  {
    hide Kept, SortedRows;
    KeptSame(items, a.keep, b.keep);
    KeptInside(items, a.keep);
    var kept := Kept(items, a.keep);
    RankedSame(asc, kept, a.key, b.key);
    var part: seq<nat> :| SortedRows(kept, asc, KeyTable(asc, kept, a.key).rows, limit, offset, part)
      && rows == Shown(part, a.out);
    PartInside(kept, asc, KeyTable(asc, kept, a.key).rows, limit, offset, part);
    assert rows == Shown(part, b.out);
  }

  lemma PartInside(rows: seq<nat>, asc: seq<bool>, keys: seq<seq<Value>>, limit: Option<nat>, offset: nat,
                   part: seq<nat>)
    requires |keys| == |rows| && Widths(keys, |asc|) && SortedRows(rows, asc, keys, limit, offset, part)
    ensures forall i :: 0 <= i < |part| ==> part[i] in rows
  {
    hide InOrder;
    var order: seq<nat> :| Arranged(asc, keys, order) && Cut(Pick(rows, order), limit, offset, part);
  }

  lemma FromGroupsExact(ops: Ops, q: Select, f: Frame, rows: seq<nat>, answer: seq<seq<Value>>)
    requires WellGroupedQuery(q) && Unambiguous(ops.Equals(), q) && FromGroups(ops, q, f, rows, answer)
    ensures answer == GroupedAnswer(ops, q, f, rows) && GroupsInOrder(ops, q, f, rows, answer)
  {
    hide GroupCount, FrameView, GroupView, GroupedAnswer, Summarises, WellGroupedQuery, Answer, QueryAggs, Unambiguous,
         ShownInOrder, Kept;
    var f2: Frame :|
      Summarises(ops, q.groupBy, QueryAggs(ops.Equals(), q), f, rows, f2) && AnsweredOn(ops, q, f, rows, f2, answer);
    GroupedQueryExact(ops, q, f, rows, f2);
    var n := GroupCount(ops, q.groupBy, f, rows);
    forall g: nat | g in Iota(n)
      ensures var a, b := FrameView(ops, q, f2), GroupView(ops, q, f, rows);
        a.keep(g) == b.keep(g) && a.key(g) == b.key(g) && a.out(g) == b.out(g)
    {
      GroupMeaning(ops, q, f, rows, f2, g);
    }
    InOrderSame(Iota(n), FrameView(ops, q, f2), GroupView(ops, q, f, rows), Directions(q.orderBy), q.limit, q.offset,
                answer);
  }

  lemma OutputPasses(eq: Equality, q: Select, e: Expr)
    requires e in Outputs(q) && WellGrouped(e, q.groupBy) && QueryAggs(eq, q) == QueryAggs(BITS, q)
    requires Substitute(eq, e, QueryPatterns(eq, q)) == Substitute(BITS, e, QueryPatterns(BITS, q))
    ensures StraysBelow(eq, e, q.groupBy, QueryAggs(eq, q), Width(eq, q))
  {
    hide WellGrouped, StraysBelow, Substitute, QueryAggs, ColsBelow, QueryPatterns, Covered, Outputs;
    OutputCovered(q, e);
    WellGroupedAccepted(e, q.groupBy, QueryAggs(BITS, q), Width(BITS, q));
    OutputAccepted(BITS, q, e);
    OutputAccepted(eq, q, e);
  }

  // Such a query is not refused for a column that its groups do not have.
  lemma WellGroupedPasses(eq: Equality, q: Select)
    requires WellGroupedQuery(q) && Unambiguous(eq, q)
    ensures NoFarStrays(eq, q)
  {
    UnambiguousAlike(eq, q);
    hide WellGrouped, StraysBelow, Substitute, QueryAggs, Unambiguous, ColsBelow, QueryPatterns, Width,
         Outputs;
    forall i | 0 <= i < |q.projection|
      ensures StraysBelow(eq, q.projection[i].expr, q.groupBy, QueryAggs(eq, q), Width(eq, q))
    {
      ProjectedFirst(q, i);
      OutputPasses(eq, q, Outputs(q)[i]);
    }
  }

  lemma ProjectedFirst(q: Select, i: nat)
    requires i < |q.projection|
    ensures i < |Outputs(q)| && Outputs(q)[i] == q.projection[i].expr && q.projection[i].expr in Outputs(q)
  {
    assert Outputs(q)[i] == ProjExprs(q.projection)[i];
  }

  // --- SELECT -------------------------------------------------------------------------------------------

  // The source rows that pass WHERE.
  function Filtered(ops: Ops, q: Select, f: Frame, nrows: nat): seq<nat> {
    Kept(Iota(nrows), KeepFn(ops, q.filter, f))
  }

  predicate PlainReady(ops: Ops, q: Select, f: Frame, nrows: nat) {
    && AllTyped(ops, KeyExprs(q.orderBy), FrameTypes(f)) && AllTyped(ops, ProjExprs(q.projection), FrameTypes(f))
    && KeysVary(KeyExprs(q.orderBy), nrows)
  }

  // The rewritten outputs have types over the intermediate frame.
  predicate OutputsTyped(ops: Ops, q: Select, types: seq<DataType>) {
    var pats := QueryPatterns(ops.Equals(), q);
    && HasType(ops, RewrittenHaving(ops.Equals(), q.having, pats), types)
    && AllTyped(ops, KeyExprs(RewrittenOrder(ops.Equals(), q.orderBy, pats)), types)
    && AllTyped(ops, ProjExprs(RewrittenProjection(ops.Equals(), q.projection, pats)), types)
  }

  ghost predicate GroupedReady(ops: Ops, q: Select, f: Frame, nrows: nat, sel: Sel)
    requires FrameValid(f, nrows) && SelOk(sel, nrows)
  {
    && GroupFits(ops, q, f, nrows, sel)
    && (ColumnsTyped(ops, q.groupBy, QueryAggs(ops.Equals(), q), FrameTypes(f)) ==>
          OutputsTyped(ops, q, ColumnTypes(ops, q.groupBy, QueryAggs(ops.Equals(), q), FrameTypes(f))))
    && KeysVary(KeyExprs(RewrittenOrder(ops.Equals(), q.orderBy, QueryPatterns(ops.Equals(), q))),
                GroupCount(ops, q.groupBy, f, Rows(sel)))
  }

  // The query is well-typed, its sort keys vary by row and its sizes fit 32 bits.
  ghost predicate Ready(ops: Ops, q: Select, f: Frame, nrows: nat)
    requires FrameValid(f, nrows)
  {
    && nrows < TWO32 && HasType(ops, q.filter, FrameTypes(f))
    && (!q.IsAggregate() ==> PlainReady(ops, q, f, nrows))
    && (q.IsAggregate() ==>
          forall sel: Sel :: SelOk(sel, nrows) && Rows(sel) == Filtered(ops, q, f, nrows) ==>
            GroupedReady(ops, q, f, nrows, sel))
  }

  // The remaining reasons to refuse a grouped query.
  predicate GroupedRuns(ops: Ops, q: Select, f: Frame) {
    && AggsTyped(ops, q, f) && NoFarStrays(ops.Equals(), q)
    && (ColumnsTyped(ops, q.groupBy, QueryAggs(ops.Equals(), q), FrameTypes(f)) ==>
          BoolTyped(ops, RewrittenHaving(ops.Equals(), q.having, QueryPatterns(ops.Equals(), q)),
                    ColumnTypes(ops, q.groupBy, QueryAggs(ops.Equals(), q), FrameTypes(f))))
  }

  // The result's columns bear the query's names, and the types of the rewritten expressions.
  predicate GroupHeaded(ops: Ops, q: Select, f: Frame, r: QueryResult) {
    && ColumnsTyped(ops, q.groupBy, QueryAggs(ops.Equals(), q), FrameTypes(f))
    && Headed(ops, r, RewrittenProjection(ops.Equals(), q.projection, QueryPatterns(ops.Equals(), q)),
              ColumnTypes(ops, q.groupBy, QueryAggs(ops.Equals(), q), FrameTypes(f)))
    && forall k :: 0 <= k < |q.projection| ==> r.columns[k] == q.projection[k].alias
  }

  method RunGrouped(ops: Ops, q: Select, f: Frame, nrows: nat, sel: Sel) returns (r: Result<QueryResult>)
    requires FrameValid(f, nrows) && SelOk(sel, nrows) && GroupedReady(ops, q, f, nrows, sel)
    ensures r.Ok? <==> GroupedRuns(ops, q, f)
    ensures r.Ok? ==> FromGroups(ops, q, f, Rows(sel), r.value.rows)
    ensures r.Ok? ==> GroupHeaded(ops, q, f, r.value)
  {
    hide FrameValid, GroupFits, AggsTyped, NoFarStrays, Summarises, ColumnsTyped, AllTyped, KeysVary, QueryAggs,
         GroupCount,
         WellGroupedQuery, Answer, Typed, Substitute;
    GroupsAreNumbered(ops, q.groupBy, f, Rows(sel));
    assert sel.Len() < TWO32 by {
      FitsLen(ops, q, f, nrows, sel);
    }
    var grouped := Aggregate(ops, q, f, nrows, sel);
    if grouped.Err? {
      return Err(grouped.error);
    }
    var g := grouped.value;
    RewrittenExprs(ops.Equals(), q, QueryPatterns(ops.Equals(), q));
    var all := All(g.ngroups);
    AllRows(g.ngroups);
    r := Finish(ops, g.columns, g.ngroups, all, g.having, g.orderBy, q.limit, q.offset, g.projection);
    assert r.Ok? ==> forall k :: 0 <= k < |q.projection| ==> g.projection[k].alias == q.projection[k].alias;
  }

  lemma FitsLen(ops: Ops, q: Select, f: Frame, nrows: nat, sel: Sel)
    requires FrameValid(f, nrows) && SelOk(sel, nrows) && GroupFits(ops, q, f, nrows, sel)
    ensures sel.Len() < TWO32
  {
  }

  lemma AllRows(n: nat)
    ensures SelOk(All(n), n) && Rows(All(n)) == Iota(n)
  {
  }

  // `run_select`. A plain query gives the projection of the window of the sort of the rows that pass;
  // a grouped query gives the rewritten query on a frame of the groups. If it is well grouped and
  // unambiguous, that is the same answer over groups, with keys taken at any row of a group and
  // aggregates folded over all its rows.
  method RunSelect(ops: Ops, q: Select, f: Frame, nrows: nat) returns (r: Result<QueryResult>)
    requires FrameValid(f, nrows) && Ready(ops, q, f, nrows)
    ensures r.Ok? <==> BoolTyped(ops, q.filter, FrameTypes(f)) && (q.IsAggregate() ==> GroupedRuns(ops, q, f))
    ensures r.Ok? && !q.IsAggregate() ==>
      r.value.rows == Answer(Filtered(ops, q, f, nrows), RowView(ops, f, None, q.orderBy, q.projection),
                             Directions(q.orderBy), q.limit, q.offset)
    ensures r.Ok? && q.IsAggregate() ==> FromGroups(ops, q, f, Filtered(ops, q, f, nrows), r.value.rows)
    ensures r.Ok? && q.IsAggregate() && WellGroupedQuery(q) && Unambiguous(ops.Equals(), q) ==>
      r.value.rows == GroupedAnswer(ops, q, f, Filtered(ops, q, f, nrows))
    ensures r.Ok? && !q.IsAggregate() ==>
      ShownInOrder(Filtered(ops, q, f, nrows), RowView(ops, f, None, q.orderBy, q.projection),
                   Directions(q.orderBy), q.limit, q.offset, r.value.rows)
    ensures r.Ok? && q.IsAggregate() && WellGroupedQuery(q) && Unambiguous(ops.Equals(), q) ==>
      GroupsInOrder(ops, q, f, Filtered(ops, q, f, nrows), r.value.rows)
    ensures r.Ok? && !q.IsAggregate() ==> Headed(ops, r.value, q.projection, FrameTypes(f))
    ensures r.Ok? && q.IsAggregate() ==> GroupHeaded(ops, q, f, r.value)
  {
    hide FrameValid, GroupedReady, GroupedRuns, AllTyped, KeysVary, WellGroupedQuery, Answer, Typed,
         Select.IsAggregate, Kept, GroupedAnswer, GroupHeaded, Headed, Unambiguous, FromGroups,
         GroupsInOrder, ShownInOrder, KeepsThose;
    AllRows(nrows);
    var sel := Restrict(ops, q.filter, f, nrows, All(nrows));
    if sel.Err? {
      return Err(sel.error);
    }
    if q.IsAggregate() {
      r := RunGrouped(ops, q, f, nrows, sel.value);
      if r.Ok? && WellGroupedQuery(q) && Unambiguous(ops.Equals(), q) {
        FromGroupsExact(ops, q, f, Filtered(ops, q, f, nrows), r.value.rows);
      }
    } else {
      KeysVaryLess(KeyExprs(q.orderBy), sel.value.Len(), nrows);
      r := Finish(ops, f, nrows, sel.value, None, q.orderBy, q.limit, q.offset, q.projection);
      KeptAll(Rows(sel.value), RowView(ops, f, None, q.orderBy, q.projection).keep, true);
    }
  }

  lemma KeysVaryLess(es: seq<Expr>, n: nat, m: nat)
    requires KeysVary(es, m) && n <= m
    ensures KeysVary(es, n)
  {
  }
}
