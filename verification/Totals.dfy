/**
 What the aggregates are (`src/exec.rs`): the value of COUNT, SUM, AVG, MIN and MAX over the values of a
 group, in terms of those values.
 */
module Totals {
  import opened Bytes
  import opened Wrappers
  import opened Columns
  import opened Plan
  import opened Arrays
  import opened Orders
  import opened Functions
  import opened Aggregates
  import opened GroupLaws

  // --- integers and texts -----------------------------------------------------------------------------

  predicate Bounds(least: bool, v: Value, vs: seq<Value>) {
    && v in vs
    && forall k :: 0 <= k < |vs| ==> v == vs[k] || if least then Smaller(v, vs[k]) else Smaller(vs[k], v)
  }

  // MIN is a value of the group below all others, MAX is one above all others.
  lemma IntExtremes(ops: Ops, vs: seq<Value>)
    requires vs != [] && forall k :: 0 <= k < |vs| ==> vs[k].I64?
    ensures forall func | func in {Min, Max} ::
      AggOf(ops, func, DataType.I64, vs).Some? && Bounds(func == Min, AggOf(ops, func, DataType.I64, vs).value, vs)
  {
    ExtremeOfInts(true, vs);
    ExtremeOfInts(false, vs);
    hide FoldSeq;
  }

  lemma TextExtremes(ops: Ops, vs: seq<Value>)
    requires vs != [] && forall k :: 0 <= k < |vs| ==> vs[k].Str?
    ensures forall func | func in {Min, Max} ::
      AggOf(ops, func, DataType.Str, vs).Some? && Bounds(func == Min, AggOf(ops, func, DataType.Str, vs).value, vs)
  {
    TextExtreme(ops, true, vs);
    TextExtreme(ops, false, vs);
  }

  lemma TextExtreme(ops: Ops, least: bool, vs: seq<Value>)
    requires vs != [] && forall k :: 0 <= k < |vs| ==> vs[k].Str?
    ensures var r := AggOf(ops, if least then Min else Max, DataType.Str, vs);
      r.Some? && Bounds(least, r.value, vs)
  {
    hide FoldSeq, CompareTexts, TextBelow;
    ExtremeOfTexts(least, vs);
    var best := FoldSeq(BestText(least), None, vs).value;
    assert AggOf(ops, if least then Min else Max, DataType.Str, vs) == Some(Value.Str(best));
    forall k | 0 <= k < |vs|
      ensures Value.Str(best) == vs[k]
        || if least then Smaller(Value.Str(best), vs[k]) else Smaller(vs[k], Value.Str(best))
    {
      TextsCompared(best, vs[k].s);
      TextsCompared(vs[k].s, best);
    }
  }

  // --- doubles ----------------------------------------------------------------------------------------

  // The smaller and the larger of two doubles, in some total order of them.
  ghost predicate BoundsOf(ops: Ops, leq: (u64, u64) -> bool) {
    && (forall x: u64, y: u64 :: leq(x, y) || leq(y, x))
    && (forall x: u64, y: u64, z: u64 :: leq(x, y) && leq(y, z) ==> leq(x, z))
    && (forall x: u64, y: u64 :: ops.least(x, y) in {x, y} && leq(ops.least(x, y), x) && leq(ops.least(x, y), y))
    && (forall x: u64, y: u64 ::
          ops.greatest(x, y) in {x, y} && leq(x, ops.greatest(x, y)) && leq(y, ops.greatest(x, y)))
  }

  // The values of a group as doubles.
  function AsDoubles(ops: Ops, vs: seq<Value>): (xs: seq<u64>)
    requires forall k :: 0 <= k < |vs| ==> Num(ops, vs[k]).Some?
    ensures |xs| == |vs| && forall k :: 0 <= k < |vs| ==> Num(ops, vs[k]) == Some(xs[k])
  {
    seq(|vs|, k requires 0 <= k < |vs| => Num(ops, vs[k]).value)
  }

  predicate DoubleBounds(leq: (u64, u64) -> bool, least: bool, x: u64, xs: seq<u64>) {
    x in xs && forall k :: 0 <= k < |xs| ==> if least then leq(x, xs[k]) else leq(xs[k], x)
  }

  lemma {:induction false} BestOfDoubles(ops: Ops, least: bool, vs: seq<Value>, leq: (u64, u64) -> bool)
    requires BoundsOf(ops, leq) && vs != [] && forall k :: 0 <= k < |vs| ==> Num(ops, vs[k]).Some?
    ensures var best := FoldSeq(BestDouble(ops, least), None, vs);
      best.Some? && DoubleBounds(leq, least, best.value, AsDoubles(ops, vs))
  {
    hide Num;
    var n := |vs| - 1;
    var before, best := FoldSeq(BestDouble(ops, least), None, vs[..n]), FoldSeq(BestDouble(ops, least), None, vs);
    var xs := AsDoubles(ops, vs);
    assert best == PickDouble(ops, least, before, xs[n]);
    if n > 0 {
      BestOfDoubles(ops, least, vs[..n], leq);
      assert AsDoubles(ops, vs[..n]) == xs[..n];
      PickBounds(ops, least, before.value, xs[n], best.value, leq);
      assert xs == xs[..n] + [xs[n]];
      forall k | 0 <= k < n ensures if least then leq(best.value, xs[k]) else leq(xs[k], best.value) {
        assert xs[..n][k] == xs[k];
      }
    } else {
      assert FoldSeq(BestDouble(ops, least), None, vs[..n]) == None;
    }
  }

  lemma PickBounds(ops: Ops, least: bool, cur: u64, x: u64, best: u64, leq: (u64, u64) -> bool)
    requires BoundsOf(ops, leq) && Some(best) == PickDouble(ops, least, Some(cur), x)
    ensures best in {cur, x}
    ensures forall y: u64 :: y == x || (if least then leq(cur, y) else leq(y, cur)) ==>
      if least then leq(best, y) else leq(y, best)
  {
  }

  // MIN and MAX over doubles, with other numbers taken as doubles, likewise, in that order.
  lemma DoubleExtremes(ops: Ops, t: DataType, vs: seq<Value>, leq: (u64, u64) -> bool)
    requires BoundsOf(ops, leq) && vs != [] && (t.F64? || t.Bool?)
    requires forall k :: 0 <= k < |vs| ==> Num(ops, vs[k]).Some?
    ensures forall func | func in {Min, Max} ::
      && AggOf(ops, func, t, vs).Some? && AggOf(ops, func, t, vs).value.F64?
      && DoubleBounds(leq, func == Min, AggOf(ops, func, t, vs).value.f, AsDoubles(ops, vs))
  {
    BestOfDoubles(ops, true, vs, leq);
    BestOfDoubles(ops, false, vs, leq);
    hide FoldSeq, Num, BoundsOf;
  }

  // --- sums and means ---------------------------------------------------------------------------------

  // Doubles hold the integers up to here, and compute with them exactly.
  const BIG: int := 0x20_0000_0000_0000

  predicate Small(i: int) {
    -BIG <= i <= BIG
  }

  // The integer that a double stands for, if it is one of these.
  ghost predicate WholeExact(ops: Ops, whole: u64 -> Option<int>) {
    && (forall x: u64 :: whole(x).Some? ==> Small(whole(x).value))
    && whole(0) == Some(0)
    && (forall i: i64 :: Small(i) ==> whole(ops.toDouble(i)) == Some(i))
    && (forall x: u64 :: whole(x).Some? ==> (ops.isZero(x) <==> whole(x) == Some(0)))
    && (forall x: u64, y: u64 :: whole(x).Some? && whole(y).Some? && Small(whole(x).value + whole(y).value) ==>
          whole(ops.arith(Add, x, y)) == Some(whole(x).value + whole(y).value))
    && (forall x: u64, y: u64, q: int ::
          whole(x).Some? && whole(y).Some? && whole(y) != Some(0) && whole(x).value == q * whole(y).value ==>
            whole(ops.arith(Div, x, y)) == Some(q))
  }

  predicate Wholes(ops: Ops, whole: u64 -> Option<int>, vs: seq<Value>) {
    forall k :: 0 <= k < |vs| ==> Num(ops, vs[k]).Some? && whole(Num(ops, vs[k]).value).Some?
  }

  function SumOf(ops: Ops, whole: u64 -> Option<int>, vs: seq<Value>): int
    requires Wholes(ops, whole, vs)
  {
    if vs == [] then 0
    else SumOf(ops, whole, vs[..|vs| - 1]) + whole(Num(ops, vs[|vs| - 1]).value).value
  }

  // No partial sum leaves the integers that doubles hold.
  predicate StaysSmall(ops: Ops, whole: u64 -> Option<int>, vs: seq<Value>) {
    Wholes(ops, whole, vs) && forall k :: 0 <= k <= |vs| ==> Small(SumOf(ops, whole, vs[..k]))
  }

  lemma AddStep(ops: Ops, whole: u64 -> Option<int>, before: u64, v: Value, sum: int)
    requires WholeExact(ops, whole) && whole(before) == Some(sum)
    requires Num(ops, v).Some? && whole(Num(ops, v).value).Some? && Small(sum + whole(Num(ops, v).value).value)
    ensures whole(PlusDouble(ops, before, v)) == Some(sum + whole(Num(ops, v).value).value)
  {
    hide Num;
  }

  lemma SmallBefore(ops: Ops, whole: u64 -> Option<int>, vs: seq<Value>)
    requires StaysSmall(ops, whole, vs) && vs != []
    ensures var n := |vs| - 1;
      && StaysSmall(ops, whole, vs[..n]) && Num(ops, vs[n]).Some? && whole(Num(ops, vs[n]).value).Some?
      && SumOf(ops, whole, vs) == SumOf(ops, whole, vs[..n]) + whole(Num(ops, vs[n]).value).value
      && Small(SumOf(ops, whole, vs))
  {
    hide Num;
    var n := |vs| - 1;
    assert forall k :: 0 <= k <= n ==> vs[..n][..k] == vs[..k];
    assert vs[..|vs|] == vs;
  }

  lemma {:induction false} SumFolds(ops: Ops, whole: u64 -> Option<int>, vs: seq<Value>)
    requires WholeExact(ops, whole) && StaysSmall(ops, whole, vs)
    ensures whole(FoldSeq(AddDouble(ops), 0, vs)) == Some(SumOf(ops, whole, vs))
  {
    if vs == [] {
      NothingFolds(ops, whole);
    } else {
      hide WholeExact, Num, Small;
      var n := |vs| - 1;
      SmallBefore(ops, whole, vs);
      hide StaysSmall, SumOf, Wholes;
      SumFolds(ops, whole, vs[..n]);
      AddStep(ops, whole, FoldSeq(AddDouble(ops), 0, vs[..n]), vs[n], SumOf(ops, whole, vs[..n]));
    }
  }

  lemma NothingFolds(ops: Ops, whole: u64 -> Option<int>)
    requires WholeExact(ops, whole)
    ensures whole(FoldSeq(AddDouble(ops), 0, [])) == Some(0)
  {
  }

  lemma {:induction false} CountFolds(ops: Ops, whole: u64 -> Option<int>, vs: seq<Value>)
    requires WholeExact(ops, whole) && |vs| <= BIG
    ensures whole(FoldSeq(AddOne(ops), 0, vs)) == Some(|vs|)
  {
    if vs != [] {
      CountFolds(ops, whole, vs[..|vs| - 1]);
      assert Small(1) && Small(|vs|);
    }
  }

  // SUM over integers is the exact sum when no partial sum leaves 64 bits; over whole doubles likewise,
  // when none leaves the integers that doubles hold.
  lemma SumMeans(ops: Ops, t: DataType, vs: seq<Value>, whole: u64 -> Option<int>)
    requires WholeExact(ops, whole)
    ensures t.I64? && Fits(vs) ==> InRange(ExactSum(vs)) && AggOf(ops, Sum, t, vs) == Some(Value.I64(ExactSum(vs)))
    ensures (t.F64? || t.Bool?) && StaysSmall(ops, whole, vs) ==>
      var r := AggOf(ops, Sum, t, vs);
      r.Some? && r.value.F64? && whole(r.value.f) == Some(SumOf(ops, whole, vs))
  {
    if t.I64? && Fits(vs) {
      WholeSum(vs);
      assert vs[..|vs|] == vs;
    }
    if (t.F64? || t.Bool?) && StaysSmall(ops, whole, vs) {
      SumFolds(ops, whole, vs);
    }
    hide FoldSeq, WholeExact, StaysSmall, Fits, ExactSum;
  }

  // AVG, times the number of values, is their sum.
  lemma MeanMeans(ops: Ops, t: DataType, vs: seq<Value>, whole: u64 -> Option<int>, mean: int)
    requires WholeExact(ops, whole) && StaysSmall(ops, whole, vs) && Numeric(t) && 0 < |vs| <= BIG
    requires SumOf(ops, whole, vs) == mean * |vs|
    ensures var r := AggOf(ops, Avg, t, vs);
      r.Some? && r.value.F64? && whole(r.value.f) == Some(mean)
  {
    SumFolds(ops, whole, vs);
    CountFolds(ops, whole, vs);
    hide FoldSeq, SumOf, StaysSmall;
    var sum, count := FoldSeq(AddDouble(ops), 0, vs), FoldSeq(AddOne(ops), 0, vs);
    assert whole(ops.arith(Div, sum, count)) == Some(mean);
  }

  // --- counts, and no values --------------------------------------------------------------------------

  // COUNT is the number of values; without values the sums, means and extrema are the zero of their type.
  lemma CountMeans(ops: Ops, t: DataType, vs: seq<Value>)
    ensures |vs| < TWO63 ==> AggOf(ops, Count, t, vs) == Some(Value.I64(|vs|))
    ensures forall func | func in {Sum, Min, Max} :: AggOf(ops, func, DataType.I64, []) == Some(Value.I64(0))
    ensures forall func | func in {Sum, Min, Max} :: AggOf(ops, func, DataType.F64, []) == Some(Value.F64(0))
    ensures forall func | func in {Min, Max} :: AggOf(ops, func, DataType.Str, []) == Some(Value.Str([]))
    ensures ops.isZero(0) && Numeric(t) ==> AggOf(ops, Avg, t, []) == Some(Value.F64(0))
  {
  }
}
