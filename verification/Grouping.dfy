/**
 GROUP BY (`src/exec.rs`): from a selection to an intermediate frame with one row per group, and the
 query rewritten onto it.
 */
module Grouping {
  import opened Bytes
  import opened Wrappers
  import opened Columns
  import opened Plan
  import opened Arrays
  import opened Functions
  import opened Evaluation
  import opened Refinement
  import opened Groups
  import opened Aggregates
  import opened Rewriting
  import opened TopK

  // --- key columns -------------------------------------------------------------------------------------

  // Every group has a row.
  predicate Inhabited(ids: seq<nat>, ngroups: nat) {
    forall g :: 0 <= g < ngroups ==> g in ids
  }

  // Where the entry of each group is taken from: its first row, or the one entry of a constant.
  function Sources(a: Arr, ids: seq<nat>, ngroups: nat): (r: seq<nat>)
    requires Spread(a, |ids|) && Inhabited(ids, ngroups)
    ensures |r| == ngroups
    ensures forall g :: 0 <= g < ngroups ==> r[g] < a.Len() && r[g] == if a.Len() == 1 then 0 else IndexOf(ids, g)
  {
    assert forall g :: 0 <= g < ngroups ==> IndexOf(ids, g) < |ids|;
    seq(ngroups, g requires 0 <= g < ngroups => if a.Len() == 1 then 0 else IndexOf(ids, g))
  }

  function Reindexed(a: Arr, src: seq<nat>): Arr
    requires Reaches(src, a.Len())
  {
    match a
    case I64(v) => Arr.I64(Pick(v, src))
    case F64(v) => Arr.F64(Pick(v, src))
    case Bool(v) => Arr.Bool(Pick(v, src))
    case Str(v) => Arr.Str(Pick(v, src))
    case Vector(dim, v) => Arr.Vector(dim, Pick(v, src))
  }

  // The entries of `a` at the first rows of the groups.
  function Picked(a: Arr, ids: seq<nat>, ngroups: nat): Arr
    requires Spread(a, |ids|) && Inhabited(ids, ngroups)
  {
    Reindexed(a, Sources(a, ids, ngroups))
  }

  lemma ReindexedValues(a: Arr, src: seq<nat>)
    requires Reaches(src, a.Len()) && Clean(a)
    ensures var p := Reindexed(a, src);
      && p.Len() == |src| && p.Type() == a.Type() && Clean(p)
      && forall g :: 0 <= g < |src| ==> p.Value(g) == a.Value(src[g])
  {
  }

  // `pick_first_per_group`.
  method PickFirstPerGroup(a: Arr, ids: seq<nat>, ngroups: nat) returns (r: Arr)
    requires Spread(a, |ids|) && Numbers(ids, ngroups) && Inhabited(ids, ngroups)
    ensures r == Picked(a, ids, ngroups)
  {
    hide Reindexed;
    var first := new int[ngroups](_ => -1);
    for row := 0 to |ids|
      invariant forall g :: 0 <= g < ngroups ==>
        first[g] == if g in ids[..row] then (if a.Len() == 1 then 0 else IndexOf(ids, g)) else -1
    {
      var g := ids[row];
      FirstSoFar(ids, row);
      assert ids[..row + 1] == ids[..row] + [g];
      if first[g] == -1 {
        first[g] := if a.Len() == 1 then 0 else row;
      }
    }
    assert ids[..|ids|] == ids;
    assert forall g :: 0 <= g < ngroups ==> first[g] == Sources(a, ids, ngroups)[g];
    var src := seq(ngroups, g requires 0 <= g < ngroups && first[g] >= 0 reads first => first[g] as nat);
    assert src == Sources(a, ids, ngroups);
    r := Reindexed(a, src);
  }

  lemma FirstSoFar(ids: seq<nat>, row: nat)
    requires row < |ids|
    ensures ids[row] in ids[..row] || IndexOf(ids, ids[row]) == row
  {
    assert ids[row] in ids;
    assert forall j :: 0 <= j < row ==> ids[j] in ids[..row];
  }

  // `into_column`.
  function IntoColumn(a: Arr): Column
    requires !a.Vector?
  {
    match a
    case I64(v) => Column.I64(v)
    case F64(v) => Column.F64(v)
    case Bool(v) => Column.Bool(v)
    case Str(v) => Column.Str(ArenaOf(v))
  }

  predicate ColumnRoom(a: Arr) {
    a.Len() + 1 < TWO64 && (a.Str? ==> TotalLen(a.ss) < TWO32)
  }

  lemma IntoColumnHolds(a: Arr)
    requires !a.Vector? && ColumnRoom(a) && Clean(a)
    ensures var c := IntoColumn(a);
      && c.Valid() && c.Len() == a.Len() && CleanColumn(c) && c.Type() == a.Type()
      && forall g :: 0 <= g < a.Len() ==> c.Get(g) == a.Value(g)
  {
    if a.Str? {
      ArenaHolds(a.ss);
    }
    hide StrColumn.Valid, StrColumn.GetBytes, ArenaOf, TotalLen;
  }

  // The column of a key: its type, and its value at the first row of each group.
  ghost predicate KeyColumn(a: Arr, ids: seq<nat>, ngroups: nat, c: Column)
    requires Spread(a, |ids|) && Inhabited(ids, ngroups)
  {
    && c.Valid() && c.Len() == ngroups && CleanColumn(c) && c.Type() == a.Type()
    && forall g: nat :: g < ngroups ==> c.Get(g) == a.Value(HeadOf(a, ids, g))
  }

  // The first row of a group, as an index that is in reach of the array.
  function HeadOf(a: Arr, ids: seq<nat>, g: nat): (r: nat)
    requires Spread(a, |ids|) && g in ids
    ensures a.Len() == 1 || r < a.Len()
    ensures r < |ids| && ids[r] == g && r == IndexOf(ids, g)
  {
    IndexOf(ids, g)
  }

  lemma PickedColumn(a: Arr, ids: seq<nat>, ngroups: nat)
    requires Spread(a, |ids|) && Inhabited(ids, ngroups) && Clean(a) && !a.Vector?
    requires ColumnRoom(Picked(a, ids, ngroups))
    ensures !Picked(a, ids, ngroups).Vector?
    ensures KeyColumn(a, ids, ngroups, IntoColumn(Picked(a, ids, ngroups)))
  {
    var src := Sources(a, ids, ngroups);
    ReindexedValues(a, src);
    assert !Reindexed(a, src).Vector?;
    IntoColumnHolds(Picked(a, ids, ngroups));
    SameEntry(a, ids, ngroups);
    hide Reindexed, IntoColumn, ColumnRoom, Clean, CleanColumn, Column.Valid, Column.Get, Column.Len, Arr.Value,
         Arr.Len;
  }

  lemma SameEntry(a: Arr, ids: seq<nat>, ngroups: nat)
    requires Spread(a, |ids|) && Inhabited(ids, ngroups)
    ensures forall g: nat :: g < ngroups ==> a.Value(Sources(a, ids, ngroups)[g]) == a.Value(HeadOf(a, ids, g))
  {
  }

  method KeyColumns(arrays: seq<Arr>, ids: seq<nat>, ngroups: nat) returns (cols: seq<Column>)
    requires Numbers(ids, ngroups) && Inhabited(ids, ngroups)
    requires forall k :: 0 <= k < |arrays| ==>
      && !arrays[k].Vector? && Spread(arrays[k], |ids|) && Clean(arrays[k])
      && ColumnRoom(Picked(arrays[k], ids, ngroups))
    ensures |cols| == |arrays|
    ensures forall k :: 0 <= k < |arrays| ==> KeyColumn(arrays[k], ids, ngroups, cols[k])
  {
    hide Picked, ColumnRoom, IntoColumn, Clean, KeyColumn;
    cols := [];
    for k := 0 to |arrays|
      invariant |cols| == k
      invariant forall j :: 0 <= j < k ==> KeyColumn(arrays[j], ids, ngroups, cols[j])
    {
      var p := PickFirstPerGroup(arrays[k], ids, ngroups);
      PickedColumn(arrays[k], ids, ngroups);
      cols := cols + [IntoColumn(p)];
    }
  }

  // --- aggregate columns ---------------------------------------------------------------------------

  function ProjExprs(ps: seq<Projection>): (es: seq<Expr>)
    ensures |es| == |ps| && forall i :: 0 <= i < |ps| ==> es[i] == ps[i].expr
  {
    seq(|ps|, i requires 0 <= i < |ps| => ps[i].expr)
  }

  // All expressions of a query that are computed after grouping.
  function Outputs(q: Select): seq<Expr> {
    ProjExprs(q.projection) + KeyExprs(q.orderBy) + if q.having.Some? then [q.having.value] else []
  }

  // A query is computed over groups if and only if it asks for some, or for an aggregate.
  lemma AggregateIff(q: Select)
    ensures q.IsAggregate() <==>
      q.groupBy != [] || AllAggs(ProjExprs(q.projection)) != [] || AllAggs(KeyExprs(q.orderBy)) != []
  {
    SomeAggs(ProjExprs(q.projection));
    SomeAggs(KeyExprs(q.orderBy));
    forall e: Expr ensures ContainsAgg(e) <==> Aggs(e) != [] {
      AggsFound(e);
    }
    hide Aggs, AllAggs, ContainsAgg;
    assert forall i :: 0 <= i < |q.projection| ==> ProjExprs(q.projection)[i] == q.projection[i].expr;
    assert forall i :: 0 <= i < |q.orderBy| ==> KeyExprs(q.orderBy)[i] == q.orderBy[i].expr;
  }

  // The different aggregates of a query.
  function QueryAggs(eq: Equality, q: Select): seq<Expr> {
    Collected(eq, AllAggs(Outputs(q)))
  }

  lemma {:induction false} AggsAreAggs(e: Expr)
    ensures forall a :: a in Aggs(e) ==> a.Agg?
    decreases e, 1
  {
    match e
    case Binary(_, l, r) => AggsAreAggs(l); AggsAreAggs(r);
    case Unary(_, x) => AggsAreAggs(x);
    case Like(x, _, _) => AggsAreAggs(x);
    case InList(x, _, _) => AggsAreAggs(x);
    case Between(x, low, high, _) => AggsAreAggs(x); AggsAreAggs(low); AggsAreAggs(high);
    case Func(_, args) => AllAggsAreAggs(args);
    case Cast(x, _) => AggsAreAggs(x);
    case _ =>
  }

  lemma {:induction false} AllAggsAreAggs(es: seq<Expr>)
    ensures forall a :: a in AllAggs(es) ==> a.Agg?
    decreases es, 0
  {
    if es != [] {
      AggsAreAggs(es[0]);
      AllAggsAreAggs(es[1..]);
    }
  }

  lemma CollectedSnoc(eq: Equality, seen: seq<Expr>, x: Expr)
    ensures Collected(eq, seen + [x])
         == if Listed(eq, Collected(eq, seen), x) then Collected(eq, seen) else Collected(eq, seen) + [x]
  {
    assert (seen + [x])[..|seen|] == seen;
  }

  lemma Joined(a: seq<Expr>, b: seq<Expr>, c: seq<Expr>)
    ensures a + b + c == a + (b + c)
  {
  }

  lemma NothingSeen(seen: seq<Expr>)
    ensures seen + [] == seen
  {
  }

  // One walk of the collection: an aggregate is noted unless it is there already.
  method Collect(eq: Equality, e: Expr, aggs: seq<Expr>, ghost seen: seq<Expr>) returns (r: seq<Expr>)
    requires aggs == Collected(eq, seen)
    ensures r == Collected(eq, seen + Aggs(e))
    decreases e, 1
  {
    hide Collected, Listed, Same;
    match e
    case Agg(_, _, _) =>
      CollectedSnoc(eq, seen, e);
      r := if Listed(eq, aggs, e) then aggs else aggs + [e];
    case Binary(_, x, y) =>
      Joined(seen, Aggs(x), Aggs(y));
      r := Collect(eq, x, aggs, seen);
      r := Collect(eq, y, r, seen + Aggs(x));
    case Unary(_, x) => r := Collect(eq, x, aggs, seen);
    case Like(x, _, _) => r := Collect(eq, x, aggs, seen);
    case InList(x, _, _) => r := Collect(eq, x, aggs, seen);
    case Between(x, low, high, _) =>
      Joined(seen, Aggs(x), Aggs(low));
      Joined(seen, Aggs(x) + Aggs(low), Aggs(high));
      r := Collect(eq, x, aggs, seen);
      r := Collect(eq, low, r, seen + Aggs(x));
      r := Collect(eq, high, r, seen + Aggs(x) + Aggs(low));
    case Func(_, args) => r := CollectAll(eq, args, aggs, seen);
    case Cast(x, _) => r := Collect(eq, x, aggs, seen);
    case _ =>
      NothingSeen(seen);
      r := aggs;
  }

  method CollectAll(eq: Equality, es: seq<Expr>, aggs: seq<Expr>, ghost seen: seq<Expr>) returns (r: seq<Expr>)
    requires aggs == Collected(eq, seen)
    ensures r == Collected(eq, seen + AllAggs(es))
    decreases es, 0
  {
    hide Collected, Aggs;
    if es == [] {
      NothingSeen(seen);
      r := aggs;
    } else {
      Joined(seen, Aggs(es[0]), AllAggs(es[1..]));
      r := Collect(eq, es[0], aggs, seen);
      r := CollectAll(eq, es[1..], r, seen + Aggs(es[0]));
    }
  }

  method AggColumns(ops: Ops, aggs: seq<Expr>, f: Frame, nrows: nat, sel: Sel, ids: seq<nat>, ngroups: nat)
    returns (r: Result<seq<Column>>)
    requires FrameValid(f, nrows) && SelOk(sel, nrows) && |ids| == sel.Len() && Numbers(ids, ngroups)
    requires |ids| < TWO63 && ngroups + 1 < TWO64
    requires forall i :: 0 <= i < |aggs| ==> AggFits(ops, aggs[i], f, nrows, sel, ids, ngroups)
    ensures r.Ok? <==> forall i :: 0 <= i < |aggs| ==> AggTyped(ops, aggs[i], FrameTypes(f)).Some?
    ensures r.Ok? ==> |r.value| == |aggs|
    ensures r.Ok? ==> forall i :: 0 <= i < |aggs| ==> AggColumn(ops, aggs[i], f, sel, ids, ngroups, r.value[i])
  {
    hide AggColumn, AggTyped, Typed, TextRoom, FrameValid;
    var cols := [];
    for k := 0 to |aggs|
      invariant |cols| == k
      invariant forall i :: 0 <= i < k ==> AggTyped(ops, aggs[i], FrameTypes(f)).Some?
      invariant forall i :: 0 <= i < k ==> AggColumn(ops, aggs[i], f, sel, ids, ngroups, cols[i])
    {
      var c := RunAgg(ops, aggs[k], f, nrows, sel, ids, ngroups);
      if c.Err? {
        return Err(c.error);
      }
      cols := cols + [c.value];
    }
    r := Ok(cols);
  }

  ghost predicate AggFits(ops: Ops, a: Expr, f: Frame, nrows: nat, sel: Sel, ids: seq<nat>, ngroups: nat)
    requires FrameValid(f, nrows) && SelOk(sel, nrows) && |ids| == sel.Len()
  {
    && a.Agg? && (a.arg.Some? ==> Typed(ops, a.arg.value, FrameTypes(f)).Some?)
    && TextRoom(ops, a, f, nrows, sel, ids, ngroups)
  }

  // --- the groups of a selection ----------------------------------------------------------------------

  // The values of the keys at a row.
  function KeyTuple(ops: Ops, keys: seq<Expr>, f: Frame, row: nat): seq<Value> {
    match RowValues(ops, keys, f, row, NO_AGG)
    case Some(vs) => vs
    case None => []
  }

  function KeyTuples(ops: Ops, keys: seq<Expr>, f: Frame, rows: seq<nat>): (r: seq<seq<Value>>)
    ensures |r| == |rows| && forall i :: 0 <= i < |rows| ==> r[i] == KeyTuple(ops, keys, f, rows[i])
  {
    seq(|rows|, i requires 0 <= i < |rows| => KeyTuple(ops, keys, f, rows[i]))
  }

  // The group of every selected row: rows are together exactly when all their keys are equal.
  function GroupIds(ops: Ops, keys: seq<Expr>, f: Frame, rows: seq<nat>): (ids: seq<nat>)
    ensures |ids| == |rows|
  {
    Numbered(KeyTuples(ops, keys, f, rows))
  }

  function GroupCount(ops: Ops, keys: seq<Expr>, f: Frame, rows: seq<nat>): nat {
    if keys == [] then 1 else |Uniques(KeyTuples(ops, keys, f, rows))|
  }

  lemma GroupsAreNumbered(ops: Ops, keys: seq<Expr>, f: Frame, rows: seq<nat>)
    ensures Numbers(GroupIds(ops, keys, f, rows), GroupCount(ops, keys, f, rows))
    ensures keys != [] ==> Inhabited(GroupIds(ops, keys, f, rows), GroupCount(ops, keys, f, rows))
    ensures GroupCount(ops, keys, f, rows) <= |rows| + 1
  {
    var ks := KeyTuples(ops, keys, f, rows);
    GroupingExact(ks);
    UniquesBound(ks);
    if keys == [] {
      assert forall i :: 0 <= i < |ks| ==> ks[i] == [];
      assert forall i, j :: 0 <= i < |ks| && 0 <= j < |ks| ==> Numbered(ks)[i] == Numbered(ks)[j];
      forall i | 0 <= i < |ks| ensures Numbered(ks)[i] == 0 {
        if Numbered(ks)[i] > 0 {
          FirstAppearance(ks, i, 0);
        }
      }
    }
  }

  lemma {:induction false} UniquesBound<K>(ks: seq<K>)
    ensures |Uniques(ks)| <= |ks|
  {
    if ks != [] {
      UniquesBound(ks[..|ks| - 1]);
    }
  }

  // --- the intermediate frame -------------------------------------------------------------------------

  // The meaning of aggregates for a group that consists of these rows.
  function GroupAgg(ops: Ops, f: Frame, rows: seq<nat>): (m: Expr -> Option<Value>)
    ensures forall e: Expr :: m(e) == AggMeaning(ops, e, f, rows)
  {
    (e: Expr) => AggMeaning(ops, e, f, rows)
  }

  // The rows of a group.
  function GroupRows(rows: seq<nat>, ids: seq<nat>, g: nat): seq<nat>
    requires |ids| == |rows|
  {
    Pick(rows, Members(ids, g))
  }

  // A row of the group; a group without keys may have none, and then any row will do.
  predicate InGroup(keys: seq<Expr>, rows: seq<nat>, ids: seq<nat>, g: nat, r: nat)
    requires |ids| == |rows|
  {
    keys == [] || exists i :: 0 <= i < |ids| && ids[i] == g && rows[i] == r
  }

  // For every group, the frame holds the keys of any of its rows and the aggregates over its rows.
  ghost predicate Summarises(ops: Ops, keys: seq<Expr>, aggs: seq<Expr>, f: Frame, rows: seq<nat>, f2: Frame)
  {
    var ids, ngroups := GroupIds(ops, keys, f, rows), GroupCount(ops, keys, f, rows);
    forall g: nat, r: nat :: g < ngroups && InGroup(keys, rows, ids, g, r) ==>
      Prepared(ops, keys, aggs, f, r, GroupAgg(ops, f, GroupRows(rows, ids, g)), f2, g)
  }

  // A key that can be grouped by: it has a type, is no vector, and its strings fit their sizes.
  ghost predicate KeyFits(ops: Ops, k: Expr, f: Frame, nrows: nat, sel: Sel, ids: seq<nat>, ngroups: nat)
    requires FrameValid(f, nrows) && SelOk(sel, nrows) && |ids| == sel.Len()
  {
    && Evaluates(ops, k, f, nrows, sel)
    && var a := Eval(ops, k, f, nrows, sel).value;
       && Groupable(a)
       && (Inhabited(ids, ngroups) ==> ColumnRoom(Picked(a, ids, ngroups)))
  }

  // The keys have types and so do the arguments of the aggregates; strings fit 32-bit sizes.
  ghost predicate GroupFits(ops: Ops, q: Select, f: Frame, nrows: nat, sel: Sel)
    requires FrameValid(f, nrows) && SelOk(sel, nrows)
  {
    var ids, ngroups := GroupIds(ops, q.groupBy, f, Rows(sel)), GroupCount(ops, q.groupBy, f, Rows(sel));
    && sel.Len() < TWO32
    && (forall k :: 0 <= k < |q.groupBy| ==> KeyFits(ops, q.groupBy[k], f, nrows, sel, ids, ngroups))
    && (forall i :: 0 <= i < |QueryAggs(ops.Equals(), q)| ==>
          AggFits(ops, QueryAggs(ops.Equals(), q)[i], f, nrows, sel, ids, ngroups))
  }

  // Evaluated keys give the key tuples, so the numbers are those of the specification.
  lemma KeysNumber(ops: Ops, keys: seq<Expr>, f: Frame, nrows: nat, sel: Sel)
    requires FrameValid(f, nrows) && SelOk(sel, nrows) && AllEvaluate(ops, keys, f, nrows, sel)
    ensures EvalAll(ops, keys, f, nrows, sel).Ok?
    ensures var arrays := EvalAll(ops, keys, f, nrows, sel).value;
      && |arrays| == |keys|
      && (forall k :: 0 <= k < |keys| ==> Eval(ops, keys[k], f, nrows, sel) == Ok(arrays[k]))
      && (forall i :: 0 <= i < sel.Len() ==> InReach(arrays, i))
      && KeyRows(arrays, sel.Len()) == KeyTuples(ops, keys, f, Rows(sel))
  {
    ArgsExact(ops, keys, f, nrows, sel);
    hide EvalAll, Eval, Evaluates, RowValues, Clean, TypedAll;
    var arrays := EvalAll(ops, keys, f, nrows, sel).value;
    assert forall i :: 0 <= i < sel.Len() ==> InReach(arrays, i);
    forall i | 0 <= i < sel.Len()
      ensures KeyRows(arrays, sel.Len())[i] == KeyTuples(ops, keys, f, Rows(sel))[i]
    {
    }
  }

  // Inside a group a key has one value.
  lemma KeyConstant(ops: Ops, keys: seq<Expr>, k: nat, f: Frame, nrows: nat, sel: Sel, i: nat, j: nat)
    requires FrameValid(f, nrows) && SelOk(sel, nrows) && AllEvaluate(ops, keys, f, nrows, sel)
    requires k < |keys| && i < sel.Len() && j < sel.Len()
    requires GroupIds(ops, keys, f, Rows(sel))[i] == GroupIds(ops, keys, f, Rows(sel))[j]
    ensures Spread(Eval(ops, keys[k], f, nrows, sel).value, sel.Len())
    ensures Eval(ops, keys[k], f, nrows, sel).value.Value(i) == Eval(ops, keys[k], f, nrows, sel).value.Value(j)
  {
    KeysNumber(ops, keys, f, nrows, sel);
    GroupingExact(KeyTuples(ops, keys, f, Rows(sel)));
    var arrays := EvalAll(ops, keys, f, nrows, sel).value;
    assert Evaluates(ops, keys[k], f, nrows, sel);
    assert InReach(arrays, i) && InReach(arrays, j);
    assert KeyRows(arrays, sel.Len())[i] == KeyRows(arrays, sel.Len())[j];
    assert ValuesAt(arrays, i)[k] == ValuesAt(arrays, j)[k];
  }

  lemma {:induction false} TypedNoAggs(ops: Ops, e: Expr, types: seq<DataType>)
    requires Typed(ops, e, types).Some?
    ensures Aggs(e) == []
    decreases e, 1
  {
    hide BinaryType, FuncType, CastOk, ListOk, ConstantsGiven;
    match e
    case Binary(_, l, r) => TypedNoAggs(ops, l, types); TypedNoAggs(ops, r, types);
    case Unary(_, x) => TypedNoAggs(ops, x, types);
    case Like(x, _, _) => TypedNoAggs(ops, x, types);
    case InList(x, _, _) => TypedNoAggs(ops, x, types);
    case Between(x, low, high, _) =>
      TypedNoAggs(ops, x, types);
      TypedNoAggs(ops, low, types);
      TypedNoAggs(ops, high, types);
    case Func(_, args) => TypedNoAggsAll(ops, args, types);
    case Cast(x, _) => TypedNoAggs(ops, x, types);
    case _ =>
  }

  lemma {:induction false} TypedNoAggsAll(ops: Ops, es: seq<Expr>, types: seq<DataType>)
    requires TypedAll(ops, es, types).Some?
    ensures AllAggs(es) == []
    decreases es, 0
  {
    if es != [] {
      TypedNoAggs(ops, es[0], types);
      TypedNoAggsAll(ops, es[1..], types);
    }
  }

  lemma CellOf(ops: Ops, f2: Frame, i: nat, g: nat, c: Column)
    requires i < |f2| && f2[i] == c && c.Valid() && g < c.Len()
    ensures RowValue(ops, Col(i), f2, g, NO_AGG) == Some(c.Get(g))
  {
  }

  lemma KeyCell(ops: Ops, keys: seq<Expr>, k: nat, f: Frame, nrows: nat, sel: Sel, g: nat, i: nat, c: Column)
    requires FrameValid(f, nrows) && SelOk(sel, nrows) && AllEvaluate(ops, keys, f, nrows, sel)
    requires k < |keys| && i < sel.Len() && GroupIds(ops, keys, f, Rows(sel))[i] == g
    requires var ids, ngroups := GroupIds(ops, keys, f, Rows(sel)), GroupCount(ops, keys, f, Rows(sel));
      && g < ngroups && Inhabited(ids, ngroups)
      && Evaluates(ops, keys[k], f, nrows, sel)
      && KeyColumn(Eval(ops, keys[k], f, nrows, sel).value, ids, ngroups, c)
    ensures c.Valid() && g < c.Len()
    ensures RowValue(ops, keys[k], f, sel.Row(i), NO_AGG) == Some(c.Get(g))
  {
    hide Eval, RowValue, Typed, Arr.Value, Column.Get, Clean, GroupIds, GroupCount;
    var a, ids := Eval(ops, keys[k], f, nrows, sel).value, GroupIds(ops, keys, f, Rows(sel));
    var h := HeadOf(a, ids, g);
    KeyConstant(ops, keys, k, f, nrows, sel, i, h);
    assert c.Get(g) == a.Value(h);
    assert RowValue(ops, keys[k], f, sel.Row(i), NO_AGG) == Some(a.Value(i));
  }

  // Key columns and aggregate columns side by side, as the aggregation makes them.
  ghost predicate Built(ops: Ops, keys: seq<Expr>, aggs: seq<Expr>, f: Frame, nrows: nat, sel: Sel, kc: seq<Column>,
                        ac: seq<Column>)
    requires FrameValid(f, nrows) && SelOk(sel, nrows)
  {
    var ids, ngroups := GroupIds(ops, keys, f, Rows(sel)), GroupCount(ops, keys, f, Rows(sel));
    && AllEvaluate(ops, keys, f, nrows, sel)
    && |kc| == |keys| && |ac| == |aggs|
    && (keys != [] ==> Inhabited(ids, ngroups))
    && (forall k :: 0 <= k < |keys| ==>
          Evaluates(ops, keys[k], f, nrows, sel) && Inhabited(ids, ngroups)
          && KeyColumn(Eval(ops, keys[k], f, nrows, sel).value, ids, ngroups, kc[k]))
    && (forall i :: 0 <= i < |aggs| ==> aggs[i].Agg? && AggColumn(ops, aggs[i], f, sel, ids, ngroups, ac[i]))
  }

  lemma BuiltFrame(ops: Ops, keys: seq<Expr>, aggs: seq<Expr>, f: Frame, nrows: nat, sel: Sel, kc: seq<Column>,
                   ac: seq<Column>)
    requires FrameValid(f, nrows) && SelOk(sel, nrows) && Built(ops, keys, aggs, f, nrows, sel, kc, ac)
    ensures FrameValid(kc + ac, GroupCount(ops, keys, f, Rows(sel)))
  {
    hide Evaluates, Eval, GroupIds, GroupCount, Column.Valid, Column.Get, Column.Len, CleanColumn, AggTyped,
         AllEvaluate;
  }

  lemma BuiltGroup(ops: Ops, keys: seq<Expr>, aggs: seq<Expr>, f: Frame, nrows: nat, sel: Sel,
                   kc: seq<Column>, ac: seq<Column>, g: nat, r: nat)
    requires FrameValid(f, nrows) && SelOk(sel, nrows) && Built(ops, keys, aggs, f, nrows, sel, kc, ac)
    requires g < GroupCount(ops, keys, f, Rows(sel))
    requires InGroup(keys, Rows(sel), GroupIds(ops, keys, f, Rows(sel)), g, r)
    ensures var ids := GroupIds(ops, keys, f, Rows(sel));
      Prepared(ops, keys, aggs, f, r, GroupAgg(ops, f, GroupRows(Rows(sel), ids, g)), kc + ac, g)
  {
    hide Eval, RowValue, Typed, Column.Valid, Column.Get, Column.Len, CleanColumn, AggTyped, GroupIds, GroupCount,
         KeyColumn, Exact,
         AggMeaning, Aggs;
    var f2, ids, ngroups := kc + ac, GroupIds(ops, keys, f, Rows(sel)), GroupCount(ops, keys, f, Rows(sel));
    forall k | 0 <= k < |keys|
      ensures Aggs(keys[k]) == []
      ensures RowValue(ops, Col(k), f2, g, NO_AGG) == RowValue(ops, keys[k], f, r, NO_AGG)
    {
      TypedNoAggs(ops, keys[k], FrameTypes(f));
      var i :| 0 <= i < |ids| && ids[i] == g && sel.Row(i) == r;
      KeyCell(ops, keys, k, f, nrows, sel, g, i, kc[k]);
      CellOf(ops, f2, k, g, kc[k]);
    }
    forall i | 0 <= i < |aggs|
      ensures RowValue(ops, Col(|keys| + i), f2, g, NO_AGG) == AggMeaning(ops, aggs[i], f, GroupRows(Rows(sel), ids, g))
    {
      assert AggColumn(ops, aggs[i], f, sel, ids, ngroups, ac[i]);
      CellOf(ops, f2, |keys| + i, g, ac[i]);
    }
  }

  lemma BuiltSummarises(ops: Ops, keys: seq<Expr>, aggs: seq<Expr>, f: Frame, nrows: nat, sel: Sel, kc: seq<Column>,
                        ac: seq<Column>)
    requires FrameValid(f, nrows) && SelOk(sel, nrows) && Built(ops, keys, aggs, f, nrows, sel, kc, ac)
    ensures Summarises(ops, keys, aggs, f, Rows(sel), kc + ac)
  {
    hide Built, Prepared, GroupIds, GroupCount, InGroup;
    var ids, ngroups := GroupIds(ops, keys, f, Rows(sel)), GroupCount(ops, keys, f, Rows(sel));
    forall g: nat, r: nat | g < ngroups && InGroup(keys, Rows(sel), ids, g, r)
      ensures Prepared(ops, keys, aggs, f, r, GroupAgg(ops, f, GroupRows(Rows(sel), ids, g)), kc + ac, g)
    {
      BuiltGroup(ops, keys, aggs, f, nrows, sel, kc, ac, g, r);
    }
  }

  // --- the types of the frame --------------------------------------------------------------------------

  predicate ColumnsTyped(ops: Ops, keys: seq<Expr>, aggs: seq<Expr>, types: seq<DataType>) {
    && (forall k :: 0 <= k < |keys| ==> Typed(ops, keys[k], types).Some?)
    && (forall i :: 0 <= i < |aggs| ==> AggTyped(ops, aggs[i], types).Some?)
  }

  function ColumnTypes(ops: Ops, keys: seq<Expr>, aggs: seq<Expr>, types: seq<DataType>): (ts: seq<DataType>)
    requires ColumnsTyped(ops, keys, aggs, types)
    ensures |ts| == |keys| + |aggs|
    ensures forall k :: 0 <= k < |keys| ==> Typed(ops, keys[k], types) == Some(ts[k])
    ensures forall i :: 0 <= i < |aggs| ==> AggTyped(ops, aggs[i], types) == Some(ts[|keys| + i])
  {
    seq(|keys|, k requires 0 <= k < |keys| => Typed(ops, keys[k], types).value)
    + seq(|aggs|, i requires 0 <= i < |aggs| => AggTyped(ops, aggs[i], types).value)
  }

  lemma KeyType(ops: Ops, k: Expr, f: Frame, nrows: nat, sel: Sel, ids: seq<nat>, ngroups: nat, c: Column)
    requires FrameValid(f, nrows) && SelOk(sel, nrows) && |ids| == sel.Len() && Evaluates(ops, k, f, nrows, sel)
    requires Inhabited(ids, ngroups) && KeyColumn(Eval(ops, k, f, nrows, sel).value, ids, ngroups, c)
    ensures Typed(ops, k, FrameTypes(f)) == Some(c.Type())
  {
    hide Eval, Typed, Column.Get, RowValue, Clean, CleanColumn, Arr.Value;
  }

  lemma BuiltTypes(ops: Ops, keys: seq<Expr>, aggs: seq<Expr>, f: Frame, nrows: nat, sel: Sel, kc: seq<Column>,
                   ac: seq<Column>)
    requires FrameValid(f, nrows) && SelOk(sel, nrows) && Built(ops, keys, aggs, f, nrows, sel, kc, ac)
    ensures ColumnsTyped(ops, keys, aggs, FrameTypes(f))
    ensures FrameTypes(kc + ac) == ColumnTypes(ops, keys, aggs, FrameTypes(f))
  {
    hide Eval, GroupIds, GroupCount, Column.Valid, Column.Get, Column.Len, CleanColumn, AggTyped, Typed, AllEvaluate,
         AggMeaning, RowValue, Arr.Value, Arr.Len, Clean, Column.Type, KeyColumn, Evaluates, FrameValid;
    var ts := FrameTypes(kc + ac);
    forall k | 0 <= k < |keys| ensures Typed(ops, keys[k], FrameTypes(f)) == Some(ts[k]) {
      KeyType(ops, keys[k], f, nrows, sel, GroupIds(ops, keys, f, Rows(sel)), GroupCount(ops, keys, f, Rows(sel)),
              kc[k]);
      assert (kc + ac)[k] == kc[k];
    }
    forall i | 0 <= i < |aggs| ensures AggTyped(ops, aggs[i], FrameTypes(f)) == Some(ts[|keys| + i]) {
      assert (kc + ac)[|keys| + i] == ac[i];
    }
    TypesJoin(ops, keys, aggs, FrameTypes(f), ts);
  }

  lemma TypesJoin(ops: Ops, keys: seq<Expr>, aggs: seq<Expr>, types: seq<DataType>, ts: seq<DataType>)
    requires |ts| == |keys| + |aggs|
    requires forall k :: 0 <= k < |keys| ==> Typed(ops, keys[k], types) == Some(ts[k])
    requires forall i :: 0 <= i < |aggs| ==> AggTyped(ops, aggs[i], types) == Some(ts[|keys| + i])
    ensures ColumnsTyped(ops, keys, aggs, types) && ts == ColumnTypes(ops, keys, aggs, types)
  {
    hide Typed, AggTyped;
    var us := ColumnTypes(ops, keys, aggs, types);
    forall i | 0 <= i < |ts| ensures ts[i] == us[i] {
      if i >= |keys| {
        assert AggTyped(ops, aggs[i - |keys|], types) == Some(us[|keys| + (i - |keys|)]);
      }
    }
  }

  // --- the aggregation of a query -----------------------------------------------------------------------

  datatype Grouped = Grouped(
    columns: Frame, ngroups: nat,
    projection: seq<Projection>, orderBy: seq<OrderKey>, having: Option<Expr>)

  function RewrittenProjection(eq: Equality, ps: seq<Projection>, pats: seq<(Expr, Expr)>): seq<Projection> {
    seq(|ps|, i requires 0 <= i < |ps| => Projection(Substitute(eq, ps[i].expr, pats), ps[i].alias))
  }

  function RewrittenOrder(eq: Equality, ks: seq<OrderKey>, pats: seq<(Expr, Expr)>): seq<OrderKey> {
    seq(|ks|, i requires 0 <= i < |ks| => OrderKey(Substitute(eq, ks[i].expr, pats), ks[i].asc))
  }

  function RewrittenHaving(eq: Equality, h: Option<Expr>, pats: seq<(Expr, Expr)>): Option<Expr> {
    if h.Some? then Some(Substitute(eq, h.value, pats)) else None
  }

  function QueryPatterns(eq: Equality, q: Select): seq<(Expr, Expr)> {
    Patterns(q.groupBy, QueryAggs(eq, q))
  }

  function Width(eq: Equality, q: Select): nat {
    |q.groupBy| + |QueryAggs(eq, q)|
  }

  lemma {:induction false} AggsInAll(es: seq<Expr>, i: nat)
    requires i < |es|
    ensures forall a :: a in Aggs(es[i]) ==> a in AllAggs(es)
  {
    if i > 0 {
      AggsInAll(es[1..], i - 1);
    }
  }

  // Told apart by bits, every aggregate of an output expression has its column.
  lemma OutputCovered(q: Select, e: Expr)
    requires e in Outputs(q)
    ensures Covered(Aggs(e), QueryAggs(BITS, q))
  {
    var i :| 0 <= i < |Outputs(q)| && Outputs(q)[i] == e;
    AggsInAll(Outputs(q), i);
    CollectedAll(AllAggs(Outputs(q)));
  }

  // The source columns that the rewriting leaves in the projection pass the check of their numbers.
  predicate NoFarStrays(eq: Equality, q: Select) {
    forall i :: 0 <= i < |q.projection| ==>
      StraysBelow(eq, q.projection[i].expr, q.groupBy, QueryAggs(eq, q), Width(eq, q))
  }

  method CheckProjection(eq: Equality, q: Select, ps: seq<Projection>) returns (ok: bool)
    requires ps == RewrittenProjection(eq, q.projection, QueryPatterns(eq, q))
    ensures ok <==> NoFarStrays(eq, q)
  {
    hide Substitute, QueryPatterns, StraysBelow, ColsBelow, Width, QueryAggs;
    for i := 0 to |ps|
      invariant forall j :: 0 <= j < i ==>
        StraysBelow(eq, q.projection[j].expr, q.groupBy, QueryAggs(eq, q), Width(eq, q))
    {
      assert q.projection[i].expr == Outputs(q)[i];
      OutputAccepted(eq, q, q.projection[i].expr);
      if !ColsBelow(ps[i].expr, Width(eq, q)) {
        return false;
      }
    }
    ok := true;
  }

  lemma OutputAccepted(eq: Equality, q: Select, e: Expr)
    ensures ColsBelow(Substitute(eq, e, QueryPatterns(eq, q)), Width(eq, q))
       <==> StraysBelow(eq, e, q.groupBy, QueryAggs(eq, q), Width(eq, q))
  {
    AcceptedIff(eq, e, q.groupBy, QueryAggs(eq, q));
  }

  method CollectAggs(eq: Equality, q: Select) returns (aggs: seq<Expr>)
    ensures aggs == QueryAggs(eq, q)
  {
    aggs := CollectAll(eq, Outputs(q), [], []);
    assert [] + AllAggs(Outputs(q)) == AllAggs(Outputs(q));
  }

  predicate AggsTyped(ops: Ops, q: Select, f: Frame) {
    forall i :: 0 <= i < |QueryAggs(ops.Equals(), q)| ==>
      AggTyped(ops, QueryAggs(ops.Equals(), q)[i], FrameTypes(f)).Some?
  }

  // The groups of the evaluated keys.
  method NumberRows(ops: Ops, keys: seq<Expr>, f: Frame, nrows: nat, sel: Sel) returns (arrays: seq<Arr>,
                    ids: seq<nat>, ngroups: nat)
    requires FrameValid(f, nrows) && SelOk(sel, nrows)
    requires forall k :: 0 <= k < |keys| ==>
      Evaluates(ops, keys[k], f, nrows, sel) && Groupable(Eval(ops, keys[k], f, nrows, sel).value)
    ensures ids == GroupIds(ops, keys, f, Rows(sel)) && ngroups == GroupCount(ops, keys, f, Rows(sel))
    ensures |arrays| == |keys| && forall k :: 0 <= k < |keys| ==> Eval(ops, keys[k], f, nrows, sel) == Ok(arrays[k])
  {
    KeysNumber(ops, keys, f, nrows, sel);
    hide EvalAll, Evaluates, Eval, Groupable, Numbered, Uniques;
    arrays := EvalAll(ops, keys, f, nrows, sel).value;
    assert forall k :: 0 <= k < |keys| ==> Groupable(arrays[k]);
    assert forall k :: 0 <= k < |keys| ==> !arrays[k].Vector? by {
      forall k | 0 <= k < |keys| ensures !arrays[k].Vector? {
        NotVector(arrays[k]);
      }
    }
    var groups := AssignGroups(arrays, sel.Len());
    ids, ngroups := groups.value.0, groups.value.1;
  }

  lemma NotVector(a: Arr)
    requires Groupable(a)
    ensures !a.Vector? && Clean(a)
  {
  }

  // `aggregate`: refused when an aggregate has no type or a stray column lies beyond the frame;
  // otherwise the frame summarises every group and the query is rewritten onto it.
  method Aggregate(ops: Ops, q: Select, f: Frame, nrows: nat, sel: Sel) returns (r: Result<Grouped>)
    requires FrameValid(f, nrows) && SelOk(sel, nrows) && GroupFits(ops, q, f, nrows, sel)
    ensures r.Ok? <==> AggsTyped(ops, q, f) && NoFarStrays(ops.Equals(), q)
    ensures r.Ok? ==>
      var g, pats := r.value, QueryPatterns(ops.Equals(), q);
      && g.ngroups == GroupCount(ops, q.groupBy, f, Rows(sel)) && FrameValid(g.columns, g.ngroups)
      && Summarises(ops, q.groupBy, QueryAggs(ops.Equals(), q), f, Rows(sel), g.columns)
      && ColumnsTyped(ops, q.groupBy, QueryAggs(ops.Equals(), q), FrameTypes(f))
      && FrameTypes(g.columns) == ColumnTypes(ops, q.groupBy, QueryAggs(ops.Equals(), q), FrameTypes(f))
      && g.projection == RewrittenProjection(ops.Equals(), q.projection, pats)
      && g.orderBy == RewrittenOrder(ops.Equals(), q.orderBy, pats)
      && g.having == RewrittenHaving(ops.Equals(), q.having, pats)
  {
    hide Evaluates, Eval, Summarises, GroupIds, GroupCount, QueryAggs, NoFarStrays, KeyColumn, AggColumn, AggTyped,
         Groupable,
         ColumnRoom, Picked, Substitute, TextRoom, Patterns;
    GroupsAreNumbered(ops, q.groupBy, f, Rows(sel));
    var arrays, ids, ngroups := NumberRows(ops, q.groupBy, f, nrows, sel);
    var aggs := CollectAggs(ops.Equals(), q);
    var kc := KeyColumnsOf(ops, q, f, nrows, sel, arrays, ids, ngroups);
    var ac := AggColumns(ops, aggs, f, nrows, sel, ids, ngroups);
    if ac.Err? {
      return Err(ac.error);
    }
    var columns := kc + ac.value;
    assert Built(ops, q.groupBy, aggs, f, nrows, sel, kc, ac.value);
    BuiltFrame(ops, q.groupBy, aggs, f, nrows, sel, kc, ac.value);
    BuiltSummarises(ops, q.groupBy, aggs, f, nrows, sel, kc, ac.value);
    BuiltTypes(ops, q.groupBy, aggs, f, nrows, sel, kc, ac.value);
    hide ColumnsTyped;
    var pats := Patterns(q.groupBy, aggs);
    var projection := RewrittenProjection(ops.Equals(), q.projection, pats);
    var ok := CheckProjection(ops.Equals(), q, projection);
    if !ok {
      return Err(UnknownColumn);
    }
    r := Ok(Grouped(columns, ngroups, projection, RewrittenOrder(ops.Equals(), q.orderBy, pats),
                    RewrittenHaving(ops.Equals(), q.having, pats)));
  }

  method KeyColumnsOf(ops: Ops, q: Select, f: Frame, nrows: nat, sel: Sel, arrays: seq<Arr>, ids: seq<nat>,
                      ngroups: nat)
    returns (kc: seq<Column>)
    requires FrameValid(f, nrows) && SelOk(sel, nrows) && GroupFits(ops, q, f, nrows, sel)
    requires ids == GroupIds(ops, q.groupBy, f, Rows(sel)) && ngroups == GroupCount(ops, q.groupBy, f, Rows(sel))
    requires |arrays| == |q.groupBy|
    requires forall k :: 0 <= k < |arrays| ==> Eval(ops, q.groupBy[k], f, nrows, sel) == Ok(arrays[k])
    ensures |kc| == |arrays|
    ensures forall k :: 0 <= k < |arrays| ==>
      Spread(arrays[k], |ids|) && Inhabited(ids, ngroups) && KeyColumn(arrays[k], ids, ngroups, kc[k])
  {
    hide Eval, GroupIds, GroupCount, KeyColumn, ColumnRoom, Picked, Clean;
    GroupsAreNumbered(ops, q.groupBy, f, Rows(sel));
    if q.groupBy == [] {
      return [];
    }
    forall k | 0 <= k < |arrays|
      ensures !arrays[k].Vector? && Spread(arrays[k], |ids|) && Clean(arrays[k])
      ensures ColumnRoom(Picked(arrays[k], ids, ngroups))
    {
      assert KeyFits(ops, q.groupBy[k], f, nrows, sel, ids, ngroups);
    }
    kc := KeyColumns(arrays, ids, ngroups);
  }
}
