/** What the aggregates of all groups say together about the whole selection. */
module GroupLaws {
  import opened Bytes
  import opened Wrappers
  import opened Columns
  import opened Plan
  import opened Arrays
  import opened Groups
  import opened Aggregates
  import opened TopK

  // --- sums over the groups ----------------------------------------------------------------------------

  function Total(xs: seq<int>): int {
    if xs == [] then 0 else Total(xs[..|xs| - 1]) + xs[|xs| - 1]
  }

  // The quantity of every group.
  function PerGroup(f: nat -> int, ngroups: nat): (r: seq<int>)
    ensures |r| == ngroups && forall g :: 0 <= g < ngroups ==> r[g] == f(g)
  {
    seq(ngroups, g requires 0 <= g < ngroups => f(g))
  }

  // Changing the quantity of one group changes the total by as much.
  lemma {:induction false} TotalChange(a: nat -> int, b: nat -> int, ngroups: nat, at: nat)
    requires at < ngroups && forall g: nat :: g != at ==> a(g) == b(g)
    ensures Total(PerGroup(b, ngroups)) == Total(PerGroup(a, ngroups)) + b(at) - a(at)
  {
    var n := ngroups - 1;
    assert PerGroup(a, ngroups)[..n] == PerGroup(a, n) && PerGroup(b, ngroups)[..n] == PerGroup(b, n);
    if at < n {
      TotalChange(a, b, n, at);
    } else {
      assert PerGroup(a, n) == PerGroup(b, n);
    }
  }

  lemma {:induction false} TotalZero(a: nat -> int, ngroups: nat)
    requires forall g: nat :: a(g) == 0
    ensures Total(PerGroup(a, ngroups)) == 0
  {
    if ngroups > 0 {
      TotalZero(a, ngroups - 1);
      assert PerGroup(a, ngroups)[..ngroups - 1] == PerGroup(a, ngroups - 1);
    }
  }

  // The sum of a weight over a group's rows.
  function Weight(w: nat -> int, ms: seq<nat>): int {
    if ms == [] then 0 else Weight(w, ms[..|ms| - 1]) + w(ms[|ms| - 1])
  }

  function GroupWeight(w: nat -> int, ids: seq<nat>): nat -> int {
    (g: nat) => Weight(w, Members(ids, g))
  }

  lemma WeightStep(w: nat -> int, ids: seq<nat>)
    requires ids != []
    ensures var n := |ids| - 1;
      && (forall g: nat :: g != ids[n] ==> GroupWeight(w, ids[..n])(g) == GroupWeight(w, ids)(g))
      && GroupWeight(w, ids)(ids[n]) == GroupWeight(w, ids[..n])(ids[n]) + w(n)
  {
    var n := |ids| - 1;
    MembersStep(ids, n);
    assert ids[..n + 1] == ids;
  }

  lemma WeightLast(w: nat -> int, n: nat)
    ensures Weight(w, Iota(n + 1)) == Weight(w, Iota(n)) + w(n)
  {
    assert Iota(n + 1)[..n] == Iota(n);
  }

  // Grouping loses no row and counts none twice: any weight of the rows, summed group by group,
  // is its sum over all rows.
  lemma {:induction false} WeightConserved(w: nat -> int, ids: seq<nat>, ngroups: nat)
    requires Numbers(ids, ngroups)
    ensures Total(PerGroup(GroupWeight(w, ids), ngroups)) == Weight(w, Iota(|ids|))
  {
    if ids == [] {
      TotalZero(GroupWeight(w, ids), ngroups);
    } else {
      var n := |ids| - 1;
      WeightConserved(w, ids[..n], ngroups);
      WeightStep(w, ids);
      hide GroupWeight, Members, PerGroup;
      TotalChange(GroupWeight(w, ids[..n]), GroupWeight(w, ids), ngroups, ids[n]);
      WeightLast(w, n);
    }
  }

  lemma {:induction false} WeightOfOne(ms: seq<nat>)
    ensures Weight(_ => 1, ms) == |ms|
  {
    if ms != [] {
      WeightOfOne(ms[..|ms| - 1]);
    }
  }

  // The counts of the groups add up to the size of the selection.
  lemma CountsAddUp(ids: seq<nat>, ngroups: nat, counts: seq<int>)
    requires Numbers(ids, ngroups) && |counts| == ngroups
    requires forall g :: 0 <= g < ngroups ==> counts[g] == |Members(ids, g)|
    ensures Total(counts) == |ids|
  {
    var w: nat -> int := _ => 1;
    WeightConserved(w, ids, ngroups);
    WeightOfOne(Iota(|ids|));
    forall g | 0 <= g < ngroups ensures counts[g] == GroupWeight(w, ids)(g) {
      WeightOfOne(Members(ids, g));
    }
    assert counts == PerGroup(GroupWeight(w, ids), ngroups);
  }

  // --- integer sums ------------------------------------------------------------------------------------

  function IntOf(v: Value): int {
    if v.I64? then v.i else 0
  }

  // The sum in unbounded integers.
  function ExactSum(vs: seq<Value>): int {
    if vs == [] then 0 else ExactSum(vs[..|vs| - 1]) + IntOf(vs[|vs| - 1])
  }

  predicate InRange(x: int) {
    -TWO63 <= x < TWO63
  }

  // No partial sum leaves 64 bits.
  predicate Fits(vs: seq<Value>) {
    forall k :: 0 <= k <= |vs| ==> InRange(ExactSum(vs[..k]))
  }

  // Every partial sum is exact if and only if no partial sum leaves 64 bits.
  lemma {:induction false} SumExactIff(vs: seq<Value>)
    ensures Fits(vs) <==> forall k :: 0 <= k <= |vs| ==> SumInts(vs[..k]) == ExactSum(vs[..k])
  {
    if Fits(vs) {
      forall k | 0 <= k <= |vs| ensures SumInts(vs[..k]) == ExactSum(vs[..k]) {
        FittingSum(vs, k);
      }
    } else {
      var k :| 0 <= k <= |vs| && !InRange(ExactSum(vs[..k]));
      assert SumInts(vs[..k]) != ExactSum(vs[..k]);
    }
  }

  lemma {:induction false} FittingSum(vs: seq<Value>, k: nat)
    requires Fits(vs) && k <= |vs|
    ensures SumInts(vs[..k]) == ExactSum(vs[..k])
  {
    if k > 0 {
      FittingSum(vs, k - 1);
      assert vs[..k][..k - 1] == vs[..k - 1];
      assert InRange(ExactSum(vs[..k]));
    }
  }

  function IntAt(v: Arr): (w: nat -> int)
    ensures forall i: nat :: v.Len() == 1 || i < v.Len() ==> w(i) == IntOf(v.Value(i))
  {
    (i: nat) => if v.Len() == 1 || i < v.Len() then IntOf(v.Value(i)) else 0
  }

  lemma {:induction false} WeightIsSum(v: Arr, ms: seq<nat>, w: nat -> int)
    requires v.Len() == 1 || forall k :: 0 <= k < |ms| ==> ms[k] < v.Len()
    requires forall i: nat :: v.Len() == 1 || i < v.Len() ==> w(i) == IntOf(v.Value(i))
    ensures Weight(w, ms) == ExactSum(Values(v, ms))
  {
    if ms != [] {
      var n := |ms| - 1;
      WeightIsSum(v, ms[..n], w);
      assert Values(v, ms)[..n] == Values(v, ms[..n]);
    }
  }

  // When nothing saturates, the sums of the groups add up to the sum over the selection.
  lemma SumsAddUp(v: Arr, ids: seq<nat>, ngroups: nat, sums: seq<int>)
    requires Spread(v, |ids|) && Numbers(ids, ngroups) && |sums| == ngroups
    requires forall g :: 0 <= g < ngroups ==>
      Fits(Values(v, Members(ids, g))) && sums[g] == SumInts(Values(v, Members(ids, g)))
    requires Fits(Values(v, Iota(|ids|)))
    ensures Total(sums) == SumInts(Values(v, Iota(|ids|)))
  {
    var w := IntAt(v);
    hide Fits, Arr.Value, Arr.Len, IntOf, SumInts, IntAt, ExactSum, Members;
    WeightConserved(w, ids, ngroups);
    WeightIsSum(v, Iota(|ids|), w);
    WholeSum(Values(v, Iota(|ids|)));
    forall g | 0 <= g < ngroups ensures sums[g] == GroupWeight(w, ids)(g) {
      WeightIsSum(v, Members(ids, g), w);
      WholeSum(Values(v, Members(ids, g)));
    }
    assert sums == PerGroup(GroupWeight(w, ids), ngroups);
  }

  lemma WholeSum(vs: seq<Value>)
    requires Fits(vs)
    ensures SumInts(vs) == ExactSum(vs)
  {
    FittingSum(vs, |vs|);
    assert vs[..|vs|] == vs;
  }

  // --- extrema -----------------------------------------------------------------------------------------

  // MIN and MAX over integers: a value of the group that no other value beats.
  lemma {:induction false} ExtremeOfInts(least: bool, vs: seq<Value>)
    requires vs != [] && forall k :: 0 <= k < |vs| ==> vs[k].I64?
    ensures var best := FoldSeq(BestInt(least), None, vs);
      && best.Some? && Value.I64(best.value) in vs
      && forall k :: 0 <= k < |vs| ==> if least then best.value <= vs[k].i else vs[k].i <= best.value
  {
    var n := |vs| - 1;
    if n > 0 {
      ExtremeOfInts(least, vs[..n]);
    } else {
      assert FoldSeq(BestInt(least), None, vs[..n]) == None;
    }
  }

  predicate NotAfter(a: Text, b: Text) {
    CompareTexts(a, b) != Greater
  }

  lemma {:induction false} ExtremeOfTexts(least: bool, vs: seq<Value>)
    requires vs != [] && forall k :: 0 <= k < |vs| ==> vs[k].Str?
    ensures var best := FoldSeq(BestText(least), None, vs);
      && best.Some? && Value.Str(best.value) in vs
      && forall k :: 0 <= k < |vs| ==> if least then NotAfter(best.value, vs[k].s) else NotAfter(vs[k].s, best.value)
  {
    hide CompareTexts;
    var n := |vs| - 1;
    var before, best := FoldSeq(BestText(least), None, vs[..n]), FoldSeq(BestText(least), None, vs);
    assert best == PickText(least, before, vs[n].s);
    TextsReverse(vs[n].s, vs[n].s);
    if n > 0 {
      ExtremeOfTexts(least, vs[..n]);
      TextsReverse(vs[n].s, before.value);
      forall k | 0 <= k < n
        ensures if least then NotAfter(best.value, vs[k].s) else NotAfter(vs[k].s, best.value)
      {
        TextsReverse(vs[k].s, before.value);
        TextsReverse(vs[k].s, vs[n].s);
        TextsChain(vs[n].s, before.value, vs[k].s);
        assert vs[..n][k] == vs[k];
      }
    } else {
      assert before == None;
    }
  }

  // --- different values --------------------------------------------------------------------------------

  function ValueSet(vs: seq<Value>): set<Value> {
    set v | v in vs
  }

  function Image<T, U>(f: T -> U, s: set<T>): set<U> {
    set x | x in s :: f(x)
  }

  lemma {:induction false} ImageSize<T, U>(s: set<T>, f: T -> U)
    ensures |Image(f, s)| <= |s|
    ensures |Image(f, s)| == |s| <==> forall x, y :: x in s && y in s && f(x) == f(y) ==> x == y
    decreases s
  {
    if s != {} {
      var a :| a in s;
      var rest := s - {a};
      ImageSize(rest, f);
      assert Image(f, s) == Image(f, rest) + {f(a)};
      assert s == rest + {a};
      if f(a) in Image(f, rest) {
        var b :| b in rest && f(b) == f(a);
        assert Image(f, s) == Image(f, rest);
      }
    }
  }

  // No two different values of the group have one key.
  predicate KeysApart(ops: Ops, vs: seq<Value>) {
    forall i, j :: 0 <= i < |vs| && 0 <= j < |vs| && KeyOf(ops, vs[i]) == KeyOf(ops, vs[j]) ==> vs[i] == vs[j]
  }

  function KeyFn(ops: Ops): (f: Value -> u64)
    ensures forall v: Value :: f(v) == KeyOf(ops, v)
  {
    (v: Value) => KeyOf(ops, v)
  }

  lemma KeysAreImage(ops: Ops, vs: seq<Value>)
    ensures KeySet(ops, vs) == Image(KeyFn(ops), ValueSet(vs))
  {
    forall k | k in KeySet(ops, vs) ensures k in Image(KeyFn(ops), ValueSet(vs)) {
      var v :| v in vs && KeyOf(ops, v) == k;
      assert v in ValueSet(vs) && KeyFn(ops)(v) == k;
    }
  }

  lemma KeySizes(ops: Ops, vs: seq<Value>)
    ensures |KeySet(ops, vs)| <= |ValueSet(vs)|
    ensures |KeySet(ops, vs)| == |ValueSet(vs)| <==> KeysApart(ops, vs)
  {
    var s, f := ValueSet(vs), KeyFn(ops);
    ImageSize(s, f);
    KeysAreImage(ops, vs);
    hide Image, KeySet, KeyOf;
    if KeysApart(ops, vs) {
      forall x, y | x in s && y in s && f(x) == f(y) ensures x == y {
        var i :| 0 <= i < |vs| && vs[i] == x;
        var j :| 0 <= j < |vs| && vs[j] == y;
      }
    } else {
      var i, j :| 0 <= i < |vs| && 0 <= j < |vs| && KeyOf(ops, vs[i]) == KeyOf(ops, vs[j]) && vs[i] != vs[j];
      var x, y := vs[i], vs[j];
      assert x in s && y in s && f(x) == f(y) && x != y;
    }
  }

  // COUNT DISTINCT is the number of different values exactly when no two of them share a key.
  lemma DistinctExactIff(ops: Ops, vs: seq<Value>)
    requires |vs| < TWO63
    ensures DistinctOf(ops, vs).i == |ValueSet(vs)| <==> KeysApart(ops, vs)
  {
    SetBound(vs);
    KeySizes(ops, vs);
  }

  lemma {:induction false} SetBound(vs: seq<Value>)
    ensures |ValueSet(vs)| <= |vs|
  {
    if vs != [] {
      var n := |vs| - 1;
      SetBound(vs[..n]);
      assert ValueSet(vs) == ValueSet(vs[..n]) + {vs[n]};
    }
  }

  // Integers, doubles (by their bits) and booleans never share a key.
  lemma NumbersApart(ops: Ops, t: DataType, vs: seq<Value>)
    requires Numeric(t) && forall k :: 0 <= k < |vs| ==> !vs[k].Vector? && vs[k].TypeOf() == t
    ensures KeysApart(ops, vs)
  {
  }

  // --- DISTINCT ------------------------------------------------------------------------------------------

  predicate AllOf(t: DataType, vs: seq<Value>) {
    forall k :: 0 <= k < |vs| ==> (vs[k].Vector? ==> |vs[k].v| < TWO64) && vs[k].TypeOf() == t
  }

  // What SQL asks for: the aggregate of the different values.
  function OverDifferent(ops: Ops, func: AggFunc, distinct: bool, t: DataType, vs: seq<Value>): Option<Value> {
    AggOf(ops, func, t, if distinct then Uniques(vs) else vs)
  }

  lemma {:induction false} UniquesSize(vs: seq<Value>)
    ensures |Uniques(vs)| == |ValueSet(vs)|
  {
    if vs != [] {
      var n := |vs| - 1;
      UniquesSize(vs[..n]);
      UniquesHold(vs[..n]);
      assert ValueSet(vs) == ValueSet(vs[..n]) + {vs[n]};
    }
  }

  lemma CountedDifferent(ops: Ops, t: DataType, vs: seq<Value>)
    requires KeysApart(ops, vs)
    ensures Combined(ops, Count, true, t, vs) == OverDifferent(ops, Count, true, t, vs)
  {
    UniquesSize(vs);
    KeySizes(ops, vs);
  }

  function Sample(t: DataType): (v: Value)
    ensures AllOf(t, [v])
  {
    match t
    case I64 => Value.I64(2)
    case F64 => Value.F64(0)
    case Bool => Value.Bool(true)
    case Str => Value.Str([])
    case Vector(dim) => Value.Vector(seq(dim, _ => 0))
  }

  // One value is enough to tell the number of different values from any other aggregate of them.
  lemma OneValueTells(ops: Ops, func: AggFunc, t: DataType)
    requires func != Count
    ensures AllOf(t, [Sample(t)]) && KeysApart(ops, [Sample(t)])
    ensures Combined(ops, func, true, t, [Sample(t)]) != OverDifferent(ops, func, true, t, [Sample(t)])
  {
    var vs := [Sample(t)];
    assert vs[..0] == [];
    assert Uniques(vs) == vs;
    if t.I64? {
      assert vs[0] in vs;
      assert KeySet(ops, vs) == {KeyOf(ops, vs[0])};
      assert FoldSeq(AddInt(), 0, vs) == 2;
      assert FoldSeq(BestInt(func == Min), None, vs) == Some(2);
    }
  }

  // An aggregate is the one that SQL asks for, on all values whose keys tell them apart, if and only
  // if it is not DISTINCT or its function is COUNT.
  lemma DistinctRightIff(ops: Ops, func: AggFunc, distinct: bool, t: DataType)
    ensures (forall vs: seq<Value> :: AllOf(t, vs) && KeysApart(ops, vs) ==>
               Combined(ops, func, distinct, t, vs) == OverDifferent(ops, func, distinct, t, vs))
        <==> (!distinct || func == Count)
  {
    hide KeysApart, AllOf, Combined, OverDifferent;
    if !distinct {
      forall vs: seq<Value> ensures Combined(ops, func, distinct, t, vs) == OverDifferent(ops, func, distinct, t, vs) {
        PlainAggregate(ops, func, t, vs);
      }
    } else if func == Count {
      forall vs: seq<Value> | KeysApart(ops, vs)
        ensures Combined(ops, func, distinct, t, vs) == OverDifferent(ops, func, distinct, t, vs)
      {
        CountedDifferent(ops, t, vs);
      }
    } else {
      OneValueTells(ops, func, t);
    }
  }

  lemma PlainAggregate(ops: Ops, func: AggFunc, t: DataType, vs: seq<Value>)
    ensures Combined(ops, func, false, t, vs) == OverDifferent(ops, func, false, t, vs)
  {
  }

  // DISTINCT overrides the function: a sum of different values comes out as their number.
  lemma DistinctOverrides(ops: Ops, func: AggFunc, x: i64, f: seq<Column>)
    ensures AggMeaning(ops, Agg(func, Some(Lit(Value.I64(x))), true), f, [0]) == Some(Value.I64(1))
  {
    var vs := ValuesOn(ops, Lit(Value.I64(x)), f, [0]).value;
    assert vs == [Value.I64(x)];
    assert vs[0] in vs;
    assert KeySet(ops, vs) == {KeyOf(ops, vs[0])};
  }
}
