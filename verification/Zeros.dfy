/**
 A query that is rewritten wrongly: two aggregates that differ in the sign of a zero share a column
 (`src/exec.rs`, `src/plan.rs`).
 */
module Zeros {
  import opened Bytes
  import opened Wrappers
  import opened Columns
  import opened Plan
  import opened Arrays
  import opened Functions
  import opened Evaluation
  import opened Refinement
  import opened TopK
  import opened Groups
  import opened Aggregates
  import opened Rewriting
  import opened Grouping
  import opened Agreement
  import opened Keeping
  import opened Queries

  // The first column by a literal, and its largest value.
  function Quotient(d: u64): Expr {
    Binary(Div, Col(0), Lit(Value.F64(d)))
  }

  function Largest(d: u64): Expr {
    Agg(Max, Some(Quotient(d)), false)
  }

  // The double with all bits zero but the sign.
  const MINUS_ZERO: u64 := TWO63

  // SELECT max(x / 0.0), max(x / -0.0) FROM t.
  function BothZeros(): Select {
    Select(None, [], None, [Projection(Largest(0), []), Projection(Largest(MINUS_ZERO), [])], [], None, 0)
  }

  // The table with the row `x` alone.
  function OneRow(x: u64): Frame {
    [Column.F64([x])]
  }

  lemma BothOutputs()
    ensures Outputs(BothZeros()) == [Largest(0), Largest(MINUS_ZERO)]
    ensures AllAggs(Outputs(BothZeros())) == [Largest(0), Largest(MINUS_ZERO)]
    ensures WellGroupedQuery(BothZeros()) && BothZeros().IsAggregate()
  {
    var q, es := BothZeros(), [Largest(0), Largest(MINUS_ZERO)];
    assert Outputs(q) == es;
    assert es[1..] == [es[1]] && es[1..][1..] == [];
    assert AllAggs(es[1..]) == Aggs(es[1]) + AllAggs(es[1..][1..]);
    assert ContainsAgg(q.projection[0].expr);
  }

  lemma SameLargest(eq: Equality, d: u64, e: u64)
    ensures Same(eq, Largest(d), Largest(e)) <==> eq.doubles(d, e)
  {
    assert Same(eq, Lit(Value.F64(d)), Lit(Value.F64(e))) <==> eq.doubles(d, e);
    assert Same(eq, Quotient(d), Quotient(e)) <==> eq.doubles(d, e);
  }

  // Both zeros are equal to themselves and to each other, as numbers are.
  predicate ZerosEqual(ops: Ops) {
    forall d, e :: d in {0, MINUS_ZERO} && e in {0, MINUS_ZERO} ==> ops.compare(d, e) == Some(Equal)
  }

  lemma CollectedBoth(eq: Equality)
    ensures QueryAggs(eq, BothZeros())
         == if eq.doubles(0, MINUS_ZERO) then [Largest(0)] else AllAggs(Outputs(BothZeros()))
  {
    BothOutputs();
    SameLargest(eq, 0, MINUS_ZERO);
    var es := AllAggs(Outputs(BothZeros()));
    hide Same;
    assert es[..1] == [Largest(0)] && [Largest(0)][..0] == [];
    assert Collected(eq, [Largest(0)][..0]) == [] && !Listed(eq, [], Largest(0));
    assert Collected(eq, [Largest(0)]) == [Largest(0)];
    assert Listed(eq, [Largest(0)], Largest(MINUS_ZERO)) <==> Same(eq, [Largest(0)][0], Largest(MINUS_ZERO));
  }

  // The one row has its own value for the quotient, and so has the group that it forms.
  lemma LargestOfOne(ops: Ops, x: u64, d: u64)
    ensures AggMeaning(ops, Largest(d), OneRow(x), [0]) == Some(Value.F64(ops.arith(Div, x, d)))
  {
    var f, e, y := OneRow(x), Quotient(d), ops.arith(Div, x, d);
    assert RowValue(ops, Col(0), f, 0, NO_AGG) == Some(Value.F64(x));
    assert RowValue(ops, e, f, 0, NO_AGG) == Some(Value.F64(y));
    var vs := ValuesOn(ops, e, f, [0]).value;
    assert vs == [Value.F64(y)] && vs[..0] == [];
    assert FoldSeq(BestDouble(ops, false), None, vs[..0]) == None;
    assert FoldSeq(BestDouble(ops, false), None, vs) == Some(y);
    assert Typed(ops, e, FrameTypes(f)) == Some(DataType.F64);
  }

  lemma OneGroup(ops: Ops, f: Frame)
    ensures GroupCount(ops, [], f, [0]) == 1 && Iota(1) == [0]
    ensures GroupRows([0], GroupIds(ops, [], f, [0]), 0) == [0]
  {
    GroupsAreNumbered(ops, [], f, [0]);
    var ids := GroupIds(ops, [], f, [0]);
    assert ids == [0];
    assert ids[..0] == [] && Members(ids[..0], 0) == [];
    assert Members(ids, 0) == [0];
  }

  lemma OneAnswer(view: View)
    requires (forall i: nat :: view.key(i) == []) && view.keep(0)
    ensures Answer([0], view, [], None, 0) == [view.out(0)]
  {
    var kept := Kept([0], view.keep);
    assert [0][..0] == [];
    assert kept == [0];
    var r := Ranked(KeyTable([], kept, view.key));
    assert r == [0];
    assert Window(r, None, 0) == [0];
  }

  lemma TupleOfTwo(ops: Ops, a: Expr, b: Expr, f: Frame, r: nat, agg: Expr -> Option<Value>, v: Value, w: Value)
    requires RowValue(ops, a, f, r, agg) == Some(v) && RowValue(ops, b, f, r, agg) == Some(w)
    ensures Tuple(ops, [a, b], f, r, agg) == [v, w]
  {
    hide RowValue;
    assert [a, b][1..] == [b] && [b][1..] == [];
    assert RowValues(ops, [], f, r, agg) == Some([]);
    assert [w] + [] == [w] && [v] + [w] == [v, w];
    assert RowValues(ops, [b], f, r, agg) == Some([w] + []);
    assert RowValues(ops, [a, b], f, r, agg) == Some([v] + [w]);
  }

  // The question: the quotients by either zero.
  lemma AskedFor(ops: Ops, x: u64)
    ensures GroupedAnswer(ops, BothZeros(), OneRow(x), [0])
         == [[Value.F64(ops.arith(Div, x, 0)), Value.F64(ops.arith(Div, x, MINUS_ZERO))]]
  {
    var q, f := BothZeros(), OneRow(x);
    OneGroup(ops, f);
    LargestOfOne(ops, x, 0);
    LargestOfOne(ops, x, MINUS_ZERO);
    hide AggMeaning, GroupIds, GroupCount, GroupRows, Answer;
    var ids := GroupIds(ops, [], f, [0]);
    var agg, view := GroupAgg(ops, f, [0]), GroupView(ops, q, f, [0]);
    assert ProjExprs(q.projection) == [Largest(0), Largest(MINUS_ZERO)];
    TupleOfTwo(ops, Largest(0), Largest(MINUS_ZERO), f, Member([0], ids, 0), agg,
               Value.F64(ops.arith(Div, x, 0)), Value.F64(ops.arith(Div, x, MINUS_ZERO)));
    assert Directions(q.orderBy) == [];
    OneAnswer(view);
  }

  lemma BothRewritten(ops: Ops)
    requires ZerosEqual(ops)
    ensures var eq, pats := ops.Equals(), QueryPatterns(ops.Equals(), BothZeros());
      Substitute(eq, Largest(0), pats) == Col(0) && Substitute(eq, Largest(MINUS_ZERO), pats) == Col(0)
  {
    var eq := ops.Equals();
    CollectedBoth(eq);
    var pats := QueryPatterns(eq, BothZeros());
    assert pats == [(Largest(0), Col(0))];
    SameLargest(eq, 0, 0);
    SameLargest(eq, MINUS_ZERO, 0);
    hide Same;
  }

  // The answer: the quotient by the first zero, twice.
  lemma Answered(ops: Ops, x: u64, f2: Frame)
    requires ZerosEqual(ops)
    requires Summarises(ops, [], QueryAggs(ops.Equals(), BothZeros()), OneRow(x), [0], f2)
    ensures Answer([0], FrameView(ops, BothZeros(), f2), [], None, 0)
         == [[Value.F64(ops.arith(Div, x, 0)), Value.F64(ops.arith(Div, x, 0))]]
  {
    var eq, q, f, v := ops.Equals(), BothZeros(), OneRow(x), Value.F64(ops.arith(Div, x, 0));
    BothRewritten(ops);
    FrameHoldsIt(ops, x, f2);
    hide Summarises, Substitute, QueryPatterns, RowValue;
    var view := FrameView(ops, q, f2);
    var ps := RewrittenProjection(eq, q.projection, QueryPatterns(eq, q));
    assert ProjExprs(ps) == [Col(0), Col(0)];
    TupleOfTwo(ops, Col(0), Col(0), f2, 0, NO_AGG, v, v);
    OneAnswer(view);
  }

  lemma FrameHoldsIt(ops: Ops, x: u64, f2: Frame)
    requires ZerosEqual(ops)
    requires Summarises(ops, [], QueryAggs(ops.Equals(), BothZeros()), OneRow(x), [0], f2)
    ensures RowValue(ops, Col(0), f2, 0, NO_AGG) == Some(Value.F64(ops.arith(Div, x, 0)))
  {
    var f := OneRow(x);
    CollectedBoth(ops.Equals());
    OneGroup(ops, f);
    LargestOfOne(ops, x, 0);
    hide AggMeaning, GroupIds, GroupCount, GroupRows, RowValue;
    assert InGroup([], [0], GroupIds(ops, [], f, [0]), 0, 0);
    var keys: seq<Expr>, aggs := [], [Largest(0)];
    assert Prepared(ops, keys, aggs, f, 0, GroupAgg(ops, f, GroupRows([0], GroupIds(ops, [], f, [0]), 0)), f2, 0);
    assert aggs[0] == Largest(0);
    assert RowValue(ops, Col(|keys| + 0), f2, 0, NO_AGG) == AggMeaning(ops, aggs[0], f, [0]);
  }

  lemma Ambiguous(ops: Ops)
    requires ZerosEqual(ops)
    ensures !Unambiguous(ops.Equals(), BothZeros())
  {
    if Unambiguous(ops.Equals(), BothZeros()) {
      UnambiguousAlike(ops.Equals(), BothZeros());
      BothOutputs();
      CollectedBoth(ops.Equals());
      CollectedBoth(BITS);
      assert false;
    }
  }

  // Where the two zeros compare equal, the query is ambiguous: one aggregate is collected for its two,
  // and over a row `x` every answer that the code can give has the quotient by 0.0 twice, while the
  // quotients by 0.0 and by -0.0 are asked for.
  lemma ZerosMerged(ops: Ops, x: u64, answer: seq<seq<Value>>)
    requires ZerosEqual(ops) && FromGroups(ops, BothZeros(), OneRow(x), [0], answer)
    ensures WellGroupedQuery(BothZeros()) && !Unambiguous(ops.Equals(), BothZeros())
    ensures QueryAggs(ops.Equals(), BothZeros()) == [Largest(0)]
    ensures QueryAggs(BITS, BothZeros()) == [Largest(0), Largest(MINUS_ZERO)]
    ensures answer == [[Value.F64(ops.arith(Div, x, 0)), Value.F64(ops.arith(Div, x, 0))]]
    ensures GroupedAnswer(ops, BothZeros(), OneRow(x), [0])
         == [[Value.F64(ops.arith(Div, x, 0)), Value.F64(ops.arith(Div, x, MINUS_ZERO))]]
  {
    var q, f := BothZeros(), OneRow(x);
    BothOutputs();
    CollectedBoth(ops.Equals());
    CollectedBoth(BITS);
    Ambiguous(ops);
    AskedFor(ops, x);
    OneGroup(ops, f);
    hide Answer, FrameView, Summarises, QueryAggs, GroupCount;
    var f2: Frame :|
      && Summarises(ops, q.groupBy, QueryAggs(ops.Equals(), q), f, [0], f2)
      && answer == Answer(Iota(GroupCount(ops, q.groupBy, f, [0])), FrameView(ops, q, f2), Directions(q.orderBy),
                          q.limit, q.offset);
    Answered(ops, x, f2);
    assert Directions(q.orderBy) == [];
  }
}
