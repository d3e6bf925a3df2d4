/**
 Aggregates (`src/exec.rs`): loops over the selection that keep one accumulator per group, against
 folds over each group's own rows.
 */
module Aggregates {
  import opened Bytes
  import opened Wrappers
  import opened Columns
  import opened Plan
  import opened Arrays
  import opened Functions
  import opened Evaluation
  import opened Refinement

  // --- the rows of a group ---------------------------------------------------------------------------

  // The positions that have the number `g`, in order.
  function Members(ids: seq<nat>, g: nat): (ms: seq<nat>)
    ensures |ms| <= |ids| && forall k :: 0 <= k < |ms| ==> ms[k] < |ids| && ids[ms[k]] == g
  {
    if ids == [] then []
    else
      var n := |ids| - 1;
      var before := Members(ids[..n], g);
      if ids[n] == g then before + [n] else before
  }

  lemma {:induction false} MembersAll(ids: seq<nat>, i: nat)
    requires i < |ids|
    ensures i in Members(ids, ids[i])
  {
    var n := |ids| - 1;
    if i < n {
      MembersAll(ids[..n], i);
    }
  }

  function FoldSeq<A, T>(step: (A, T) -> A, init: A, xs: seq<T>): A {
    if xs == [] then init
    else step(FoldSeq(step, init, xs[..|xs| - 1]), xs[|xs| - 1])
  }

  // The entries of an array at some positions, a constant repeated.
  function Took<T>(xs: seq<T>, ms: seq<nat>): (r: seq<T>)
    requires |xs| == 1 || forall k :: 0 <= k < |ms| ==> ms[k] < |xs|
    ensures |r| == |ms| && forall k :: 0 <= k < |ms| ==> r[k] == At(xs, ms[k])
  {
    seq(|ms|, k requires 0 <= k < |ms| => At(xs, ms[k]))
  }

  predicate Numbers(ids: seq<nat>, ngroups: nat) {
    forall i :: 0 <= i < |ids| ==> ids[i] < ngroups
  }

  lemma NoMembers<A, T>(step: (A, T) -> A, init: A, xs: seq<T>, ids: seq<nat>)
    requires Fitting(xs, |ids|)
    ensures forall g: nat :: FoldSeq(step, init, Took(xs, Members(ids[..0], g))) == init
  {
  }

  // The loop that the aggregates share: one accumulator per group, one step per row.
  method Accumulate<A, T>(step: (A, T) -> A, init: A, xs: seq<T>, ids: seq<nat>, ngroups: nat) returns (r: seq<A>)
    requires Fitting(xs, |ids|) && Numbers(ids, ngroups)
    ensures |r| == ngroups
    ensures forall g :: 0 <= g < ngroups ==> r[g] == FoldSeq(step, init, Took(xs, Members(ids, g)))
  {
    hide Members, FoldSeq, At, Took;
    var acc := new A[ngroups](_ => init);
    NoMembers(step, init, xs, ids);
    for i := 0 to |ids|
      invariant forall g :: 0 <= g < ngroups ==> acc[g] == FoldSeq(step, init, Took(xs, Members(ids[..i], g)))
    {
      FoldStep(step, init, xs, ids, i);
      acc[ids[i]] := step(acc[ids[i]], At(xs, i));
    }
    assert ids[..|ids|] == ids;
    r := acc[..];
  }

  lemma MembersStep(ids: seq<nat>, i: nat)
    requires i < |ids|
    ensures forall g: nat ::
      Members(ids[..i + 1], g) == if g == ids[i] then Members(ids[..i], g) + [i] else Members(ids[..i], g)
  {
    assert ids[..i + 1][..i] == ids[..i];
  }

  lemma FoldSnoc<A, T>(step: (A, T) -> A, init: A, xs: seq<T>, ms: seq<nat>, i: nat)
    requires |xs| == 1 || (i < |xs| && forall k :: 0 <= k < |ms| ==> ms[k] < |xs|)
    ensures FoldSeq(step, init, Took(xs, ms + [i])) == step(FoldSeq(step, init, Took(xs, ms)), At(xs, i))
  {
    assert Took(xs, ms + [i]) == Took(xs, ms) + [At(xs, i)];
  }

  // A step concerns the row's own group.
  lemma FoldStep<A, T>(step: (A, T) -> A, init: A, xs: seq<T>, ids: seq<nat>, i: nat)
    requires Fitting(xs, |ids|) && i < |ids|
    ensures forall g: nat ::
      FoldSeq(step, init, Took(xs, Members(ids[..i + 1], g)))
      == if g == ids[i] then step(FoldSeq(step, init, Took(xs, Members(ids[..i], g))), At(xs, i))
         else FoldSeq(step, init, Took(xs, Members(ids[..i], g)))
  {
    MembersStep(ids, i);
    FoldSnoc(step, init, xs, Members(ids[..i], ids[i]), i);
    hide Members, FoldSeq, At;
  }

  lemma {:induction false} FoldSame<A(!new), T, U>(step: (A, T) -> A, other: (A, U) -> A, init: A, xs: seq<T>,
                                      ys: seq<U>)
    requires |xs| == |ys| && forall a: A, k :: 0 <= k < |xs| ==> step(a, xs[k]) == other(a, ys[k])
    ensures FoldSeq(step, init, xs) == FoldSeq(other, init, ys)
  {
    if xs != [] {
      FoldSame(step, other, init, xs[..|xs| - 1], ys[..|ys| - 1]);
    }
  }

  // --- the meaning of an aggregate ----------------------------------------------------------------------

  // One value added to a sum, kept within 64 bits at every step.
  function PlusInt(a: i64, v: Value): i64 {
    if v.I64? then Saturate(a + v.i) else a
  }

  function AddInt(): (f: (i64, Value) -> i64)
    ensures forall a: i64, v: Value :: f(a, v) == PlusInt(a, v)
  {
    (a: i64, v: Value) => PlusInt(a, v)
  }

  function PlusDouble(ops: Ops, a: u64, v: Value): u64 {
    match Num(ops, v) case Some(x) => ops.arith(Add, a, x) case None => a
  }

  function AddDouble(ops: Ops): (f: (u64, Value) -> u64)
    ensures forall a: u64, v: Value :: f(a, v) == PlusDouble(ops, a, v)
  {
    (a: u64, v: Value) => PlusDouble(ops, a, v)
  }

  // The number of values of a mean, counted in doubles.
  function AddOne(ops: Ops): (f: (u64, Value) -> u64)
    ensures forall a: u64, v: Value :: f(a, v) == ops.arith(Add, a, ops.toDouble(1))
  {
    (a: u64, v: Value) => ops.arith(Add, a, ops.toDouble(1))
  }

  function Mean(ops: Ops, sum: u64, count: u64): u64 {
    if ops.isZero(count) then 0 else ops.arith(Div, sum, count)
  }

  function PickInt(least: bool, cur: Option<i64>, x: i64): Option<i64> {
    Some(if cur.None? then x else if (x < cur.value) == least && x != cur.value then x else cur.value)
  }

  function PickText(least: bool, cur: Option<Text>, x: Text): Option<Text> {
    Some(if cur.None? then x else if (CompareTexts(x, cur.value) == Less) == least then x else cur.value)
  }

  function PickDouble(ops: Ops, least: bool, cur: Option<u64>, x: u64): Option<u64> {
    Some(if cur.None? then x else if least then ops.least(cur.value, x) else ops.greatest(cur.value, x))
  }

  function BestInt(least: bool): (f: (Option<i64>, Value) -> Option<i64>)
    ensures forall a: Option<i64>, v: Value :: f(a, v) == if v.I64? then PickInt(least, a, v.i) else a
  {
    (a: Option<i64>, v: Value) => if v.I64? then PickInt(least, a, v.i) else a
  }

  function BestText(least: bool): (f: (Option<Text>, Value) -> Option<Text>)
    ensures forall a: Option<Text>, v: Value :: f(a, v) == if v.Str? then PickText(least, a, v.s) else a
  {
    (a: Option<Text>, v: Value) => if v.Str? then PickText(least, a, v.s) else a
  }

  function BestDouble(ops: Ops, least: bool): (f: (Option<u64>, Value) -> Option<u64>)
    ensures forall a: Option<u64>, v: Value ::
      f(a, v) == match Num(ops, v) case Some(x) => PickDouble(ops, least, a, x) case None => a
  {
    (a: Option<u64>, v: Value) => match Num(ops, v) case Some(x) => PickDouble(ops, least, a, x) case None => a
  }

  function OrElse<T>(o: Option<T>, d: T): T {
    if o.Some? then o.value else d
  }

  function SumInts(vs: seq<Value>): i64 {
    FoldSeq(AddInt(), 0, vs)
  }

  // The aggregate of a group whose values, of type `t`, are `vs`. An extremum of no values is the
  // zero of its type.
  function AggOf(ops: Ops, func: AggFunc, t: DataType, vs: seq<Value>): Option<Value> {
    match func
    case Count => Some(Value.I64(Saturate(|vs|)))
    case Sum =>
      if t.I64? then Some(Value.I64(SumInts(vs)))
      else if Numeric(t) then Some(Value.F64(FoldSeq(AddDouble(ops), 0, vs))) else None
    case Avg =>
      if Numeric(t)
      then Some(Value.F64(Mean(ops, FoldSeq(AddDouble(ops), 0, vs), FoldSeq(AddOne(ops), 0, vs)))) else None
    case _ =>
      if t.Str? then Some(Value.Str(OrElse(FoldSeq(BestText(func == Min), None, vs), [])))
      else if t.I64? then Some(Value.I64(OrElse(FoldSeq(BestInt(func == Min), None, vs), 0)))
      else if Numeric(t) then Some(Value.F64(OrElse(FoldSeq(BestDouble(ops, func == Min), None, vs), 0))) else None
  }

  // `value_key`: strings by a hash of 64 bits.
  function KeyOf(ops: Ops, v: Value): u64 {
    match v
    case I64(x) => AsU64(x)
    case F64(x) => x
    case Bool(b) => Byte(b)
    case Str(s) => ops.hash(s)
    case Vector(_) => 0
  }

  function KeySet(ops: Ops, vs: seq<Value>): set<u64> {
    set v | v in vs :: KeyOf(ops, v)
  }

  // What DISTINCT counts, whatever the function is.
  function DistinctOf(ops: Ops, vs: seq<Value>): Value {
    Value.I64(Saturate(|KeySet(ops, vs)|))
  }

  // What the code makes of a group's values: the flag is looked at before the function.
  function Combined(ops: Ops, func: AggFunc, distinct: bool, t: DataType, vs: seq<Value>): Option<Value> {
    if distinct then Some(DistinctOf(ops, vs)) else AggOf(ops, func, t, vs)
  }

  // The type of the column of an aggregate over values of type `t`.
  function AggType(func: AggFunc, distinct: bool, t: DataType): Option<DataType> {
    if distinct || func == Count then Some(DataType.I64)
    else if func == Avg then (if Numeric(t) then Some(DataType.F64) else None)
    else if t.I64? then Some(DataType.I64)
    else if Numeric(t) then Some(DataType.F64)
    else if t.Str? && func != Sum then Some(DataType.Str)
    else None
  }

  // --- one method per kind of loop ----------------------------------------------------------------------

  // The values of an array at some positions.
  function Values(a: Arr, ms: seq<nat>): (r: seq<Value>)
    requires a.Len() == 1 || forall k :: 0 <= k < |ms| ==> ms[k] < a.Len()
    ensures |r| == |ms| && forall k :: 0 <= k < |ms| ==> r[k] == a.Value(ms[k])
  {
    seq(|ms|, k requires 0 <= k < |ms| => a.Value(ms[k]))
  }

  // The values of a column, one per group.
  predicate Holds(c: Column, vs: seq<Value>) {
    && c.Valid() && c.Len() == |vs| && CleanColumn(c)
    && forall g :: 0 <= g < |vs| ==> c.Get(g) == vs[g]
  }

  // What the column of an aggregate over the values `v` of the selected rows holds, group by group.
  ghost predicate Aggregated(ops: Ops, func: AggFunc, v: Arr, ids: seq<nat>, ngroups: nat, c: Column)
    requires Spread(v, |ids|)
  {
    && c.Valid() && c.Len() == ngroups && CleanColumn(c)
    && AggType(func, false, v.Type()) == Some(c.Type())
    && forall g: nat :: g < ngroups ==>
         AggOf(ops, func, v.Type(), Values(v, Members(ids, g))) == Some(c.Get(g))
  }

  method CountRows(ids: seq<nat>, ngroups: nat) returns (counts: seq<i64>)
    requires Numbers(ids, ngroups) && |ids| < TWO63
    ensures |counts| == ngroups && forall g :: 0 <= g < ngroups ==> counts[g] == |Members(ids, g)|
  {
    var acc := new i64[ngroups](_ => 0);
    for i := 0 to |ids|
      invariant forall g :: 0 <= g < ngroups ==> acc[g] == |Members(ids[..i], g)|
    {
      assert ids[..i + 1][..i] == ids[..i];
      acc[ids[i]] := acc[ids[i]] + 1;
    }
    assert ids[..|ids|] == ids;
    counts := acc[..];
  }

  method SumInt(ops: Ops, v: Arr, ids: seq<nat>, ngroups: nat) returns (c: Column)
    requires Spread(v, |ids|) && Numbers(ids, ngroups) && v.I64? && ngroups < TWO64
    ensures Aggregated(ops, Sum, v, ids, ngroups, c)
  {
    var sums := Accumulate((a: i64, x: i64) => Saturate(a + x), 0, v.ns, ids, ngroups);
    forall g | 0 <= g < ngroups ensures sums[g] == SumInts(Values(v, Members(ids, g))) {
      FoldSame((a: i64, x: i64) => Saturate(a + x), AddInt(), 0, Took(v.ns, Members(ids, g)),
               Values(v, Members(ids, g)));
    }
    c := Column.I64(sums);
  }

  method SumDouble(ops: Ops, v: Arr, ids: seq<nat>, ngroups: nat) returns (c: Column)
    requires Spread(v, |ids|) && Clean(v) && Numbers(ids, ngroups) && Numeric(v.Type()) && !v.I64? && ngroups < TWO64
    ensures Aggregated(ops, Sum, v, ids, ngroups, c)
  {
    NumsAt(ops, v, |ids|);
    var xs := ToDoubles(ops, v).value;
    var sums := Accumulate((a: u64, x: u64) => ops.arith(Add, a, x), 0, xs, ids, ngroups);
    hide ToDoubles, Num, Members, FoldSeq, At;
    forall g | 0 <= g < ngroups ensures sums[g] == FoldSeq(AddDouble(ops), 0, Values(v, Members(ids, g))) {
      FoldSame((a: u64, x: u64) => ops.arith(Add, a, x), AddDouble(ops), 0, Took(xs, Members(ids, g)),
               Values(v, Members(ids, g)));
    }
    c := Column.F64(sums);
  }

  method MeanDouble(ops: Ops, v: Arr, ids: seq<nat>, ngroups: nat) returns (c: Column)
    requires Spread(v, |ids|) && Clean(v) && Numbers(ids, ngroups) && Numeric(v.Type()) && ngroups < TWO64
    ensures Aggregated(ops, Avg, v, ids, ngroups, c)
  {
    NumsAt(ops, v, |ids|);
    var xs := ToDoubles(ops, v).value;
    var sums := Accumulate((a: u64, x: u64) => ops.arith(Add, a, x), 0, xs, ids, ngroups);
    var counts := Accumulate((a: u64, x: u64) => ops.arith(Add, a, ops.toDouble(1)), 0, xs, ids, ngroups);
    hide ToDoubles, Num, Members, FoldSeq, At;
    forall g | 0 <= g < ngroups
      ensures sums[g] == FoldSeq(AddDouble(ops), 0, Values(v, Members(ids, g)))
      ensures counts[g] == FoldSeq(AddOne(ops), 0, Values(v, Members(ids, g)))
    {
      var ms := Members(ids, g);
      FoldSame((a: u64, x: u64) => ops.arith(Add, a, x), AddDouble(ops), 0, Took(xs, ms), Values(v, ms));
      FoldSame((a: u64, x: u64) => ops.arith(Add, a, ops.toDouble(1)), AddOne(ops), 0, Took(xs, ms), Values(v, ms));
    }
    c := Column.F64(seq<u64>(ngroups, g requires 0 <= g < ngroups => Mean(ops, sums[g], counts[g])));
  }

  method ExtremeInt(ops: Ops, func: AggFunc, v: Arr, ids: seq<nat>, ngroups: nat) returns (c: Column)
    requires Spread(v, |ids|) && Numbers(ids, ngroups) && v.I64? && (func == Min || func == Max) && ngroups < TWO64
    ensures Aggregated(ops, func, v, ids, ngroups, c)
  {
    var best := Accumulate((a: Option<i64>, x: i64) => PickInt(func == Min, a, x), None, v.ns, ids, ngroups);
    forall g | 0 <= g < ngroups
      ensures best[g] == FoldSeq(BestInt(func == Min), None, Values(v, Members(ids, g)))
    {
      var ms := Members(ids, g);
      FoldSame((a: Option<i64>, x: i64) => PickInt(func == Min, a, x), BestInt(func == Min), None, Took(v.ns, ms),
               Values(v, ms));
    }
    c := Column.I64(seq<i64>(ngroups, g requires 0 <= g < ngroups => OrElse(best[g], 0)));
  }

  method ExtremeDouble(ops: Ops, func: AggFunc, v: Arr, ids: seq<nat>, ngroups: nat) returns (c: Column)
    requires Spread(v, |ids|) && Clean(v) && Numbers(ids, ngroups) && Numeric(v.Type()) && !v.I64? && ngroups < TWO64
    requires func == Min || func == Max
    ensures Aggregated(ops, func, v, ids, ngroups, c)
  {
    hide PickDouble, Members, FoldSeq, At;
    NumsAt(ops, v, |ids|);
    var xs := ToDoubles(ops, v).value;
    var best := Accumulate((a: Option<u64>, x: u64) => PickDouble(ops, func == Min, a, x), None, xs, ids, ngroups);
    hide ToDoubles, Num, Members, FoldSeq, At;
    forall g | 0 <= g < ngroups
      ensures best[g] == FoldSeq(BestDouble(ops, func == Min), None, Values(v, Members(ids, g)))
    {
      var ms := Members(ids, g);
      FoldSame((a: Option<u64>, x: u64) => PickDouble(ops, func == Min, a, x), BestDouble(ops, func == Min), None,
               Took(xs, ms), Values(v, ms));
    }
    c := Column.F64(seq<u64>(ngroups, g requires 0 <= g < ngroups => OrElse(best[g], 0)));
  }

  // --- columns of strings ----------------------------------------------------------------------------

  // The arena after the strings were pushed one by one.
  function ArenaOf(ss: seq<Text>): StrColumn {
    if ss == [] then StrColumn.EMPTY else ArenaOf(ss[..|ss| - 1]).Push(ss[|ss| - 1])
  }

  function TotalLen(ss: seq<Text>): nat {
    if ss == [] then 0 else TotalLen(ss[..|ss| - 1]) + |ss[|ss| - 1]|
  }

  lemma {:induction false} ArenaHolds(ss: seq<Text>)
    requires TotalLen(ss) < TWO32
    ensures var s := ArenaOf(ss);
      && s.Valid() && s.Len() == |ss| && |s.buf| == TotalLen(ss)
      && forall i :: 0 <= i < |ss| ==> s.Get(i) == ss[i]
  {
    hide StrColumn.Valid, StrColumn.GetBytes;
    if ss == [] {
      EmptyArena();
    } else {
      ArenaHolds(ss[..|ss| - 1]);
      StrPush(ArenaOf(ss[..|ss| - 1]), ss[|ss| - 1]);
    }
  }

  lemma EmptyArena()
    ensures StrColumn.EMPTY.Valid() && StrColumn.EMPTY.Len() == 0 && StrColumn.EMPTY.buf == []
  {
  }

  // The strings that MIN or MAX finds, one per group.
  function GroupTexts(least: bool, v: Arr, ids: seq<nat>, ngroups: nat): (r: seq<Text>)
    requires Spread(v, |ids|) && v.Str?
    ensures |r| == ngroups
    ensures forall g :: 0 <= g < ngroups ==>
      r[g] == OrElse(FoldSeq(BestText(least), None, Values(v, Members(ids, g))), [])
  {
    seq<Text>(ngroups, g requires 0 <= g < ngroups =>
      OrElse<Text>(FoldSeq(BestText(least), None, Values(v, Members(ids, g))), []))
  }

  method BestTexts(least: bool, v: Arr, ids: seq<nat>, ngroups: nat) returns (texts: seq<Text>)
    requires Spread(v, |ids|) && Numbers(ids, ngroups) && v.Str?
    ensures texts == GroupTexts(least, v, ids, ngroups)
  {
    hide CompareTexts, PickText;
    var best := Accumulate((a: Option<Text>, x: Text) => PickText(least, a, x), None, v.ss, ids, ngroups);
    forall g | 0 <= g < ngroups
      ensures best[g] == FoldSeq(BestText(least), None, Values(v, Members(ids, g)))
    {
      var ms := Members(ids, g);
      FoldSame((a: Option<Text>, x: Text) => PickText(least, a, x), BestText(least), None, Took(v.ss, ms),
               Values(v, ms));
    }
    texts := seq<Text>(ngroups, g requires 0 <= g < ngroups => OrElse<Text>(best[g], []));
  }

  method PushAll(texts: seq<Text>) returns (arena: StrColumn)
    ensures arena == ArenaOf(texts)
  {
    arena := StrColumn.EMPTY;
    for g := 0 to |texts|
      invariant arena == ArenaOf(texts[..g])
    {
      assert texts[..g + 1][..g] == texts[..g];
      arena := arena.Push(texts[g]);
    }
    assert texts[..|texts|] == texts;
  }

  method ExtremeText(ops: Ops, func: AggFunc, v: Arr, ids: seq<nat>, ngroups: nat) returns (c: Column)
    requires Spread(v, |ids|) && Numbers(ids, ngroups) && v.Str? && (func == Min || func == Max) && ngroups + 1 < TWO64
    requires TotalLen(GroupTexts(func == Min, v, ids, ngroups)) < TWO32
    ensures Aggregated(ops, func, v, ids, ngroups, c)
  {
    hide TotalLen, BestText, ArenaOf, Members, FoldSeq, At, StrColumn.Valid, StrColumn.GetBytes;
    var texts := BestTexts(func == Min, v, ids, ngroups);
    var arena := PushAll(texts);
    ArenaHolds(texts);
    c := Column.Str(arena);
  }

  // --- counting different values --------------------------------------------------------------------

  function KeyAt(ops: Ops, v: Arr, i: nat): u64
    requires i < v.Len()
  {
    match v
    case I64(x) => AsU64(x[i])
    case F64(x) => x[i]
    case Bool(x) => x[i]
    case Str(x) => ops.hash(x[i])
    case Vector(_, _) => 0
  }

  function KeysAt(ops: Ops, v: Arr): (ks: seq<u64>)
    ensures |ks| == v.Len()
    ensures Clean(v) ==> forall i: nat :: v.Len() == 1 || i < v.Len() ==> At(ks, i) == KeyOf(ops, v.Value(i))
  {
    seq<u64>(v.Len(), i requires 0 <= i < v.Len() => KeyAt(ops, v, i))
  }

  lemma {:induction false} FoldIsSet<T>(xs: seq<T>)
    ensures FoldSeq((a: set<T>, x: T) => a + {x}, {}, xs) == set x | x in xs
  {
    if xs != [] {
      FoldIsSet(xs[..|xs| - 1]);
    }
  }

  method CountDistinct(ops: Ops, v: Arr, ids: seq<nat>, ngroups: nat) returns (counts: seq<i64>)
    requires Spread(v, |ids|) && Clean(v) && Numbers(ids, ngroups)
    ensures |counts| == ngroups
    ensures forall g :: 0 <= g < ngroups ==> DistinctOf(ops, Values(v, Members(ids, g))) == Value.I64(counts[g])
  {
    var keys := KeysAt(ops, v);
    hide FoldSeq, Members, At, KeyOf;
    var sets := Accumulate((a: set<u64>, x: u64) => a + {x}, {}, keys, ids, ngroups);
    forall g | 0 <= g < ngroups
      ensures sets[g] == KeySet(ops, Values(v, Members(ids, g)))
    {
      FoldIsSet(Took(keys, Members(ids, g)));
      SameKeys(ops, Took(keys, Members(ids, g)), Values(v, Members(ids, g)));
    }
    counts := seq<i64>(ngroups, g requires 0 <= g < ngroups => Saturate(|sets[g]|));
  }

  lemma SameKeys(ops: Ops, ks: seq<u64>, vs: seq<Value>)
    requires |ks| == |vs| && forall i :: 0 <= i < |ks| ==> ks[i] == KeyOf(ops, vs[i])
    ensures (set k | k in ks) == KeySet(ops, vs)
  {
    forall x | x in vs ensures KeyOf(ops, x) in ks {
      var i :| 0 <= i < |vs| && vs[i] == x;
      assert ks[i] in ks;
    }
  }

  // --- an aggregate of a query --------------------------------------------------------------------------

  // The expression's values at some rows.
  function ValuesOn(ops: Ops, x: Expr, f: Frame, rows: seq<nat>): (vs: Option<seq<Value>>)
    ensures vs.Some? ==> |vs.value| == |rows|
    ensures vs.Some? ==> forall k :: 0 <= k < |rows| ==> RowValue(ops, x, f, rows[k], NO_AGG) == Some(vs.value[k])
  {
    if forall k :: 0 <= k < |rows| ==> RowValue(ops, x, f, rows[k], NO_AGG).Some?
    then Some(seq(|rows|, k requires 0 <= k < |rows| => RowValue(ops, x, f, rows[k], NO_AGG).value))
    else None
  }

  // The value of an aggregate over a group that consists of these rows.
  function AggMeaning(ops: Ops, e: Expr, f: Frame, rows: seq<nat>): Option<Value> {
    if !e.Agg? then None
    else if e.arg.None? then Some(Value.I64(Saturate(|rows|)))
    else
      match (Typed(ops, e.arg.value, FrameTypes(f)), ValuesOn(ops, e.arg.value, f, rows))
      case (Some(t), Some(vs)) => Combined(ops, e.agg, e.distinct, t, vs)
      case _ => None
  }

  // The type of the aggregate's column; None when it cannot be computed.
  function AggTyped(ops: Ops, e: Expr, types: seq<DataType>): Option<DataType> {
    if !e.Agg? then None
    else if e.arg.None? then Some(DataType.I64)
    else
      match Typed(ops, e.arg.value, types)
      case None => None
      case Some(t) => AggType(e.agg, e.distinct, t)
  }

  // The strings that MIN or MAX puts into a column fit its arena.
  ghost predicate TextRoom(ops: Ops, e: Expr, f: Frame, nrows: nat, sel: Sel, ids: seq<nat>, ngroups: nat)
    requires FrameValid(f, nrows) && SelOk(sel, nrows) && |ids| == sel.Len()
  {
    e.Agg? && e.arg.Some? && !e.distinct && (e.agg == Min || e.agg == Max) ==>
      var v := Eval(ops, e.arg.value, f, nrows, sel);
      v.Ok? && v.value.Str? ==>
        Spread(v.value, |ids|) && TotalLen(GroupTexts(e.agg == Min, v.value, ids, ngroups)) < TWO32
  }

  ghost predicate AggColumn(ops: Ops, e: Expr, f: Frame, sel: Sel, ids: seq<nat>, ngroups: nat, c: Column)
    requires |ids| == sel.Len()
  {
    && c.Valid() && c.Len() == ngroups && CleanColumn(c)
    && AggTyped(ops, e, FrameTypes(f)) == Some(c.Type())
    && forall g: nat :: g < ngroups ==> AggMeaning(ops, e, f, Pick(Rows(sel), Members(ids, g))) == Some(c.Get(g))
  }

  lemma MemberValues(ops: Ops, x: Expr, f: Frame, nrows: nat, sel: Sel, ms: seq<nat>)
    requires FrameValid(f, nrows) && SelOk(sel, nrows) && Typed(ops, x, FrameTypes(f)).Some?
    requires forall k :: 0 <= k < |ms| ==> ms[k] < sel.Len()
    ensures Evaluates(ops, x, f, nrows, sel)
    ensures ValuesOn(ops, x, f, Pick(Rows(sel), ms)) == Some(Values(Eval(ops, x, f, nrows, sel).value, ms))
  {
    EvalExact(ops, x, f, nrows, sel);
    hide Eval, RowValue, Typed, Clean, At, Arr.Value;
    var rows, vs := Pick(Rows(sel), ms), Values(Eval(ops, x, f, nrows, sel).value, ms);
    forall k | 0 <= k < |ms| ensures RowValue(ops, x, f, rows[k], NO_AGG) == Some(vs[k]) {
      assert rows[k] == sel.Row(ms[k]);
    }
    assert ValuesOn(ops, x, f, rows).value == vs;
  }

  method FoldAgg(ops: Ops, func: AggFunc, v: Arr, ids: seq<nat>, ngroups: nat) returns (r: Result<Column>)
    requires Spread(v, |ids|) && Clean(v) && Numbers(ids, ngroups) && |ids| < TWO63 && ngroups + 1 < TWO64
    requires v.Str? && (func == Min || func == Max) ==> TotalLen(GroupTexts(func == Min, v, ids, ngroups)) < TWO32
    ensures r.Ok? <==> AggType(func, false, v.Type()).Some?
    ensures r.Ok? ==> Aggregated(ops, func, v, ids, ngroups, r.value)
  {
    hide Members, FoldSeq, GroupTexts, TotalLen, At;
    match func {
      case Count =>
        var counts := CountRows(ids, ngroups);
        return Ok(Column.I64(counts));
      case Sum =>
        if v.I64? {
          var c := SumInt(ops, v, ids, ngroups);
          return Ok(c);
        } else if Numeric(v.Type()) {
          var c := SumDouble(ops, v, ids, ngroups);
          return Ok(c);
        }
      case Avg =>
        if Numeric(v.Type()) {
          var c := MeanDouble(ops, v, ids, ngroups);
          return Ok(c);
        }
      case _ =>
        if v.Str? {
          var c := ExtremeText(ops, func, v, ids, ngroups);
          return Ok(c);
        } else if v.I64? {
          var c := ExtremeInt(ops, func, v, ids, ngroups);
          return Ok(c);
        } else if Numeric(v.Type()) {
          var c := ExtremeDouble(ops, func, v, ids, ngroups);
          return Ok(c);
        }
    }
    r := Err(BadType);
  }

  // `run_agg`: one value per group, the aggregate of the expression's values at the group's rows.
  method RunAgg(ops: Ops, e: Expr, f: Frame, nrows: nat, sel: Sel, ids: seq<nat>,
                ngroups: nat) returns (r: Result<Column>)
    requires FrameValid(f, nrows) && SelOk(sel, nrows) && |ids| == sel.Len() && Numbers(ids, ngroups)
    requires |ids| < TWO63 && ngroups + 1 < TWO64
    requires e.Agg? && (e.arg.Some? ==> Typed(ops, e.arg.value, FrameTypes(f)).Some?)
    requires TextRoom(ops, e, f, nrows, sel, ids, ngroups)
    ensures r.Ok? <==> AggTyped(ops, e, FrameTypes(f)).Some?
    ensures r.Ok? ==> AggColumn(ops, e, f, sel, ids, ngroups, r.value)
  {
    if e.arg.None? {
      var counts := CountRows(ids, ngroups);
      return Ok(Column.I64(counts));
    }
    forall g: nat | g < ngroups {
      MemberValues(ops, e.arg.value, f, nrows, sel, Members(ids, g));
    }
    EvalExact(ops, e.arg.value, f, nrows, sel);
    hide Eval, Members, ValuesOn, Values, Pick, AggOf, Typed, FoldSeq;
    var v := Eval(ops, e.arg.value, f, nrows, sel).value;
    if e.distinct {
      var counts := CountDistinct(ops, v, ids, ngroups);
      return Ok(Column.I64(counts));
    }
    r := FoldAgg(ops, e.agg, v, ids, ngroups);
  }
}
