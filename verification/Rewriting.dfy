/**
 The rewriting of a grouped query onto its intermediate frame (`src/exec.rs`, `src/plan.rs`): one
 column per key, then one column per different aggregate.
 */
module Rewriting {
  import opened Wrappers
  import opened Columns
  import opened Plan
  import opened Equalities
  import opened Arrays
  import opened Functions
  import opened Evaluation

  // The outermost aggregates, from left to right: the walk does not go into them.
  function Aggs(e: Expr): seq<Expr>
    decreases e, 1
  {
    match e
    case Agg(_, _, _) => [e]
    case Binary(_, l, r) => Aggs(l) + Aggs(r)
    case Unary(_, x) => Aggs(x)
    case Like(x, _, _) => Aggs(x)
    case InList(x, _, _) => Aggs(x)
    case Between(x, low, high, _) => Aggs(x) + Aggs(low) + Aggs(high)
    case Func(_, args) => AllAggs(args)
    case Cast(x, _) => Aggs(x)
    case _ => []
  }

  function AllAggs(es: seq<Expr>): seq<Expr>
    decreases es, 0
  {
    if es == [] then [] else Aggs(es[0]) + AllAggs(es[1..])
  }

  lemma {:induction false} SomeAggs(es: seq<Expr>)
    ensures AllAggs(es) != [] <==> exists i :: 0 <= i < |es| && Aggs(es[i]) != []
  {
    if es != [] {
      SomeAggs(es[1..]);
      forall i | 0 <= i < |es[1..]| ensures es[1..][i] == es[i + 1] {
      }
      forall i | 0 < i < |es| ensures es[i] == es[1..][i - 1] {
      }
      hide Aggs;
    }
  }

  lemma PartsWalked(e: Expr)
    requires !e.Agg?
    ensures Aggs(e) != [] <==> exists c :: c in e.Children() && Aggs(c) != []
  {
    match e
    case Binary(_, l, r) => assert e.Children() == [l, r] && l in e.Children() && r in e.Children();
    case Between(x, l, h, _) =>
      assert e.Children() == [x, l, h] && x in e.Children() && l in e.Children() && h in e.Children();
    case Unary(_, x) => assert e.Children() == [x] && x in e.Children();
    case Like(x, _, _) => assert e.Children() == [x] && x in e.Children();
    case InList(x, _, _) => assert e.Children() == [x] && x in e.Children();
    case Cast(x, _) => assert e.Children() == [x] && x in e.Children();
    case Func(_, args) =>
      SomeAggs(args);
      assert e.Children() == args && forall i :: 0 <= i < |args| ==> args[i] in e.Children();
    case _ =>
  }

  // The walk finds an aggregate if and only if there is one.
  lemma {:induction false} AggsFound(e: Expr)
    ensures ContainsAgg(e) <==> Aggs(e) != []
    decreases e
  {
    if !e.Agg? {
      PartsWalked(e);
      hide Aggs;
      forall c | c in e.Children() ensures ContainsAgg(c) <==> Aggs(c) != [] {
        AggsFound(c);
      }
    }
  }

  // `contains`: one of the listed expressions equals it.
  predicate Listed(eq: Equality, es: seq<Expr>, e: Expr) {
    exists i :: 0 <= i < |es| && Same(eq, es[i], e)
  }

  // The aggregates in order, each unless an equal one is there already.
  function Collected(eq: Equality, es: seq<Expr>): seq<Expr> {
    if es == [] then []
    else
      var last := es[|es| - 1];
      var before := Collected(eq, es[..|es| - 1]);
      if Listed(eq, before, last) then before else before + [last]
  }

  lemma {:induction false} CollectedFrom(eq: Equality, es: seq<Expr>)
    ensures forall x :: x in Collected(eq, es) ==> x in es
  {
    if es != [] {
      CollectedFrom(eq, es[..|es| - 1]);
    }
  }

  lemma ListedBits(es: seq<Expr>, e: Expr)
    ensures Listed(BITS, es, e) <==> e in es
  {
    forall i | 0 <= i < |es| ensures Same(BITS, es[i], e) <==> es[i] == e {
      SameBits(es[i], e);
    }
  }

  // Told apart by their bits, none is missing.
  lemma {:induction false} CollectedAll(es: seq<Expr>)
    ensures forall x :: x in es ==> x in Collected(BITS, es)
  {
    if es != [] {
      var n := |es| - 1;
      CollectedAll(es[..n]);
      ListedBits(Collected(BITS, es[..n]), es[n]);
      assert es == es[..n] + [es[n]];
    }
  }

  // What is replaced: each aggregate by its column after the keys, then each key by its own.
  function Patterns(keys: seq<Expr>, aggs: seq<Expr>): (p: seq<(Expr, Expr)>)
    ensures |p| == |aggs| + |keys|
    ensures forall i :: 0 <= i < |aggs| ==> p[i] == (aggs[i], Col(|keys| + i))
    ensures forall i :: 0 <= i < |keys| ==> p[|aggs| + i] == (keys[i], Col(i))
  {
    seq(|aggs|, i requires 0 <= i < |aggs| => (aggs[i], Col(|keys| + i)))
    + seq(|keys|, i requires 0 <= i < |keys| => (keys[i], Col(i)))
  }

  // The expression equals one of the listed ones.
  predicate Known(eq: Equality, e: Expr, es: seq<Expr>) {
    exists i :: 0 <= i < |es| && Same(eq, e, es[i])
  }

  // Every column of the source sits inside an aggregate or a key, and distances only inside keys.
  predicate WellGrouped(e: Expr, keys: seq<Expr>)
    decreases e
  {
    || e.Agg?
    || e in keys
    || match e
       case Lit(_) => true
       case Binary(_, l, r) => WellGrouped(l, keys) && WellGrouped(r, keys)
       case Unary(_, x) => WellGrouped(x, keys)
       case Like(x, _, _) => WellGrouped(x, keys)
       case InList(x, _, _) => WellGrouped(x, keys)
       case Between(x, low, high, _) => WellGrouped(x, keys) && WellGrouped(low, keys) && WellGrouped(high, keys)
       case Func(_, args) => forall i :: 0 <= i < |args| ==> WellGrouped(args[i], keys)
       case Cast(x, _) => WellGrouped(x, keys)
       case _ => false
  }

  // --- replacements -----------------------------------------------------------------------------------

  // The first pattern that equals the expression decides.
  lemma {:induction false} FirstReplacement(eq: Equality, e: Expr, pats: seq<(Expr, Expr)>)
    ensures Replacement(eq, e, pats).None? <==> forall i :: 0 <= i < |pats| ==> !Same(eq, e, pats[i].0)
    ensures Replacement(eq, e, pats).Some? ==>
      exists i :: 0 <= i < |pats| && Same(eq, e, pats[i].0) && pats[i].1 == Replacement(eq, e, pats).value
        && forall j :: 0 <= j < i ==> !Same(eq, e, pats[j].0)
  {
    hide Same;
    if pats != [] && !Same(eq, e, pats[0].0) {
      FirstReplacement(eq, e, pats[1..]);
      if Replacement(eq, e, pats).Some? {
        var i :| 0 <= i < |pats| - 1 && Same(eq, e, pats[1..][i].0) && pats[1..][i].1 == Replacement(eq, e, pats).value
              && forall j :: 0 <= j < i ==> !Same(eq, e, pats[1..][j].0);
        assert pats[i + 1] == pats[1..][i];
        forall j | 0 <= j < i + 1 ensures !Same(eq, e, pats[j].0) {
          assert j > 0 ==> pats[j] == pats[1..][j - 1];
        }
      } else {
        forall i | 0 <= i < |pats| ensures !Same(eq, e, pats[i].0) {
          assert i > 0 ==> pats[i] == pats[1..][i - 1];
        }
      }
    }
  }

  // An aggregate becomes its column; a key that is no aggregate becomes its own; nothing else is replaced.
  lemma ReplacedBy(e: Expr, keys: seq<Expr>, aggs: seq<Expr>)
    ensures var r := Replacement(BITS, e, Patterns(keys, aggs));
      && (r.None? <==> e !in aggs && e !in keys)
      && (e in aggs ==> r.Some? && exists i :: 0 <= i < |aggs| && aggs[i] == e && r.value == Col(|keys| + i))
      && (e !in aggs && e in keys ==> r.Some? && exists i :: 0 <= i < |keys| && keys[i] == e && r.value == Col(i))
  {
    var p := Patterns(keys, aggs);
    FirstReplacement(BITS, e, p);
    forall i | 0 <= i < |p| ensures Same(BITS, e, p[i].0) <==> e == p[i].0 {
      SameBits(e, p[i].0);
    }
    hide Same;
    forall i | 0 <= i < |aggs| && aggs[i] == e ensures Replacement(BITS, e, p).Some? {
      assert p[i].0 == e;
    }
    forall i | 0 <= i < |keys| && keys[i] == e ensures Replacement(BITS, e, p).Some? {
      assert p[|aggs| + i].0 == e;
    }
    if Replacement(BITS, e, p).Some? {
      var i :| 0 <= i < |p| && Same(BITS, e, p[i].0) && p[i].1 == Replacement(BITS, e, p).value
            && forall j :: 0 <= j < i ==> !Same(BITS, e, p[j].0);
      if i < |aggs| {
        assert aggs[i] == e;
      } else {
        assert p[|aggs| + (i - |aggs|)] == (keys[i - |aggs|], Col(i - |aggs|));
        assert forall k :: 0 <= k < |aggs| ==> p[k].0 == aggs[k];
        assert e !in aggs;
      }
    }
  }

  // --- meaning ----------------------------------------------------------------------------------------

  // Without aggregates inside, their meaning does not matter.
  lemma {:induction false} NoAggsSame(ops: Ops, e: Expr, f: Frame, r: nat, agg: Expr -> Option<Value>)
    requires Aggs(e) == []
    ensures RowValue(ops, e, f, r, agg) == RowValue(ops, e, f, r, NO_AGG)
    decreases e, 1
  {
    hide BinaryValue, UnaryValue, BetweenValue, CastValue, AnyEqual, FuncValue;
    match e
    case Binary(_, x, y) =>
      NoAggsSame(ops, x, f, r, agg);
      NoAggsSame(ops, y, f, r, agg);
    case Unary(_, x) => NoAggsSame(ops, x, f, r, agg);
    case Like(x, _, _) => NoAggsSame(ops, x, f, r, agg);
    case InList(x, _, _) => NoAggsSame(ops, x, f, r, agg);
    case Between(x, low, high, _) =>
      NoAggsSame(ops, x, f, r, agg);
      NoAggsSame(ops, low, f, r, agg);
      NoAggsSame(ops, high, f, r, agg);
    case Func(_, args) => NoAggsSameAll(ops, args, f, r, agg);
    case Cast(x, _) => NoAggsSame(ops, x, f, r, agg);
    case _ =>
  }

  lemma {:induction false} NoAggsSameAll(ops: Ops, es: seq<Expr>, f: Frame, r: nat, agg: Expr -> Option<Value>)
    requires AllAggs(es) == []
    ensures RowValues(ops, es, f, r, agg) == RowValues(ops, es, f, r, NO_AGG)
    decreases es, 0
  {
    if es != [] {
      NoAggsSame(ops, es[0], f, r, agg);
      NoAggsSameAll(ops, es[1..], f, r, agg);
    }
  }

  // The frame `f2` holds at row `g` the keys' values at row `r` of `f` and the aggregates' values.
  ghost predicate Prepared(ops: Ops, keys: seq<Expr>, aggs: seq<Expr>, f: Frame, r: nat, agg: Expr -> Option<Value>,
                           f2: Frame, g: nat)
  {
    && (forall i {:trigger keys[i]} :: 0 <= i < |keys| ==>
          Aggs(keys[i]) == [] && RowValue(ops, Col(i), f2, g, NO_AGG) == RowValue(ops, keys[i], f, r, NO_AGG))
    && (forall i {:trigger aggs[i]} :: 0 <= i < |aggs| ==>
          aggs[i].Agg? && RowValue(ops, Col(|keys| + i), f2, g, NO_AGG) == agg(aggs[i]))
  }

  predicate Covered(es: seq<Expr>, aggs: seq<Expr>) {
    forall a :: a in es ==> a in aggs
  }

  lemma CoveredParts(a: seq<Expr>, b: seq<Expr>, aggs: seq<Expr>)
    ensures Covered(a + b, aggs) <==> Covered(a, aggs) && Covered(b, aggs)
  {
    if Covered(a + b, aggs) {
      forall x | x in a ensures x in aggs {
        assert x in a + b;
      }
      forall x | x in b ensures x in aggs {
        assert x in a + b;
      }
    }
  }

  lemma ReplacedMeaning(ops: Ops, e: Expr, keys: seq<Expr>, aggs: seq<Expr>, f: Frame, r: nat,
                        agg: Expr -> Option<Value>, f2: Frame, g: nat)
    requires Prepared(ops, keys, aggs, f, r, agg, f2, g) && (e in aggs || e in keys)
    ensures RowValue(ops, Substitute(BITS, e, Patterns(keys, aggs)), f2, g, NO_AGG) == RowValue(ops, e, f, r, agg)
  {
    ReplacedBy(e, keys, aggs);
    hide Patterns;
    if e in aggs {
      var i :| 0 <= i < |aggs| && aggs[i] == e && Replacement(BITS, e, Patterns(keys, aggs)) == Some(Col(|keys| + i));
      assert RowValue(ops, Col(|keys| + i), f2, g, NO_AGG) == agg(aggs[i]);
    } else {
      var i :| 0 <= i < |keys| && keys[i] == e && Replacement(BITS, e, Patterns(keys, aggs)) == Some(Col(i));
      NoAggsSame(ops, keys[i], f, r, agg);
    }
  }

  // The rewritten expression, computed on row `g` of the intermediate frame, has the value of the
  // original with keys taken at the row `r` and aggregates as given.
  lemma {:induction false} RewriteKeepsMeaning(ops: Ops, e: Expr, keys: seq<Expr>, aggs: seq<Expr>,
                                               f: Frame, r: nat, agg: Expr -> Option<Value>, f2: Frame, g: nat)
    requires WellGrouped(e, keys) && Covered(Aggs(e), aggs)
    requires Prepared(ops, keys, aggs, f, r, agg, f2, g)
    ensures RowValue(ops, Substitute(BITS, e, Patterns(keys, aggs)), f2, g, NO_AGG) == RowValue(ops, e, f, r, agg)
    decreases e, 1
  {
    hide BinaryValue, UnaryValue, BetweenValue, CastValue, AnyEqual, FuncValue, Patterns, Prepared, Replacement;
    if e in aggs || e in keys {
      ReplacedMeaning(ops, e, keys, aggs, f, r, agg, f2, g);
    } else {
      ReplacedBy(e, keys, aggs);
      match e
      case Binary(_, x, y) =>
        CoveredParts(Aggs(x), Aggs(y), aggs);
        RewriteKeepsMeaning(ops, x, keys, aggs, f, r, agg, f2, g);
        RewriteKeepsMeaning(ops, y, keys, aggs, f, r, agg, f2, g);
      case Unary(_, x) => RewriteKeepsMeaning(ops, x, keys, aggs, f, r, agg, f2, g);
      case Like(x, _, _) => RewriteKeepsMeaning(ops, x, keys, aggs, f, r, agg, f2, g);
      case InList(x, _, _) => RewriteKeepsMeaning(ops, x, keys, aggs, f, r, agg, f2, g);
      case Between(x, low, high, _) =>
        CoveredParts(Aggs(x) + Aggs(low), Aggs(high), aggs);
        CoveredParts(Aggs(x), Aggs(low), aggs);
        RewriteKeepsMeaning(ops, x, keys, aggs, f, r, agg, f2, g);
        RewriteKeepsMeaning(ops, low, keys, aggs, f, r, agg, f2, g);
        RewriteKeepsMeaning(ops, high, keys, aggs, f, r, agg, f2, g);
      case Func(_, args) => RewriteKeepsAll(ops, args, keys, aggs, f, r, agg, f2, g);
      case Cast(x, _) => RewriteKeepsMeaning(ops, x, keys, aggs, f, r, agg, f2, g);
      case _ =>
    }
  }

  lemma {:induction false} RewriteKeepsAll(ops: Ops, es: seq<Expr>, keys: seq<Expr>, aggs: seq<Expr>,
                                           f: Frame, r: nat, agg: Expr -> Option<Value>, f2: Frame, g: nat)
    requires (forall i :: 0 <= i < |es| ==> WellGrouped(es[i], keys)) && Covered(AllAggs(es), aggs)
    requires Prepared(ops, keys, aggs, f, r, agg, f2, g)
    ensures RowValues(ops, SubstituteAll(BITS, es, Patterns(keys, aggs)), f2, g, NO_AGG)
         == RowValues(ops, es, f, r, agg)
    decreases es, 0
  {
    hide RowValue, Patterns, Prepared, Substitute, WellGrouped;
    if es != [] {
      CoveredParts(Aggs(es[0]), AllAggs(es[1..]), aggs);
      RewriteKeepsMeaning(ops, es[0], keys, aggs, f, r, agg, f2, g);
      RewriteKeepsAll(ops, es[1..], keys, aggs, f, r, agg, f2, g);
    }
  }

  // --- the check of the projection -------------------------------------------------------------------------

  // No column reference of the expression lies beyond the frame. Distances are not looked at.
  predicate ColsBelow(e: Expr, width: nat)
    decreases e
  {
    match e
    case Col(i) => i < width
    case Binary(_, l, r) => ColsBelow(l, width) && ColsBelow(r, width)
    case Unary(_, x) => ColsBelow(x, width)
    case Like(x, _, _) => ColsBelow(x, width)
    case InList(x, _, _) => ColsBelow(x, width)
    case Between(x, low, high, _) => ColsBelow(x, width) && ColsBelow(low, width) && ColsBelow(high, width)
    case Func(_, args) => forall i :: 0 <= i < |args| ==> ColsBelow(args[i], width)
    case Agg(_, arg, _) => arg.Some? ==> ColsBelow(arg.value, width)
    case Cast(x, _) => ColsBelow(x, width)
    case _ => true
  }

  // The expression itself, or one inside it.
  ghost predicate Contains(e: Expr, inner: Expr)
    decreases e
  {
    e == inner || exists c :: c in e.Children() && Contains(c, inner)
  }

  lemma PartsBelow(e: Expr, width: nat)
    requires !e.Col?
    ensures ColsBelow(e, width) <==> forall c :: c in e.Children() ==> ColsBelow(c, width)
  {
    match e
    case Binary(_, l, r) => assert e.Children() == [l, r] && l in e.Children() && r in e.Children();
    case Between(x, l, h, _) =>
      assert e.Children() == [x, l, h] && x in e.Children() && l in e.Children() && h in e.Children();
    case Unary(_, x) => assert e.Children() == [x] && x in e.Children();
    case Like(x, _, _) => assert e.Children() == [x] && x in e.Children();
    case InList(x, _, _) => assert e.Children() == [x] && x in e.Children();
    case Cast(x, _) => assert e.Children() == [x] && x in e.Children();
    case Func(_, args) => assert e.Children() == args && forall i :: 0 <= i < |args| ==> args[i] in e.Children();
    case Agg(_, x, _) =>
      assert e.Children() == if x.Some? then [x.value] else [];
      assert x.Some? ==> x.value in e.Children();
    case _ =>
  }

  // The check looks at every column reference, however deep.
  lemma {:induction false} BelowIff(e: Expr, width: nat)
    ensures ColsBelow(e, width) <==> forall i: nat :: Contains(e, Col(i)) ==> i < width
    decreases e
  {
    if e.Col? {
      assert Contains(e, Col(e.i));
      assert forall i: nat :: Contains(e, Col(i)) ==> i == e.i;
    } else {
      PartsBelow(e, width);
      hide ColsBelow;
      forall c | c in e.Children() ensures ColsBelow(c, width) <==> forall i: nat :: Contains(c, Col(i)) ==> i < width {
        BelowIff(c, width);
      }
      forall i: nat, c | c in e.Children() && Contains(c, Col(i)) ensures Contains(e, Col(i)) {
      }
    }
  }

  // What is not replaced refers to columns with a number below the width only.
  predicate StraysBelow(eq: Equality, e: Expr, keys: seq<Expr>, aggs: seq<Expr>, width: nat)
    decreases e
  {
    || Known(eq, e, aggs)
    || Known(eq, e, keys)
    || match e
       case Col(i) => i < width
       case Binary(_, l, r) => StraysBelow(eq, l, keys, aggs, width) && StraysBelow(eq, r, keys, aggs, width)
       case Unary(_, x) => StraysBelow(eq, x, keys, aggs, width)
       case Like(x, _, _) => StraysBelow(eq, x, keys, aggs, width)
       case InList(x, _, _) => StraysBelow(eq, x, keys, aggs, width)
       case Between(x, low, high, _) =>
         && StraysBelow(eq, x, keys, aggs, width) && StraysBelow(eq, low, keys, aggs, width)
         && StraysBelow(eq, high, keys, aggs, width)
       case Func(_, args) => forall i :: 0 <= i < |args| ==> StraysBelow(eq, args[i], keys, aggs, width)
       case Agg(_, arg, _) => arg.Some? ==> StraysBelow(eq, arg.value, keys, aggs, width)
       case Cast(x, _) => StraysBelow(eq, x, keys, aggs, width)
       case _ => true
  }

  lemma ReplacedOrNot(eq: Equality, e: Expr, keys: seq<Expr>, aggs: seq<Expr>)
    ensures var r := Replacement(eq, e, Patterns(keys, aggs));
      && (r.Some? <==> Known(eq, e, aggs) || Known(eq, e, keys))
      && (r.Some? ==> r.value.Col? && r.value.i < |keys| + |aggs|)
  {
    var p := Patterns(keys, aggs);
    hide Same;
    FirstReplacement(eq, e, p);
    forall i | 0 <= i < |aggs| && Same(eq, e, aggs[i]) ensures Replacement(eq, e, p).Some? {
      assert p[i].0 == aggs[i];
    }
    forall i | 0 <= i < |keys| && Same(eq, e, keys[i]) ensures Replacement(eq, e, p).Some? {
      assert p[|aggs| + i].0 == keys[i];
    }
    if Replacement(eq, e, p).Some? {
      var i :| 0 <= i < |p| && Same(eq, e, p[i].0) && p[i].1 == Replacement(eq, e, p).value
            && forall j :: 0 <= j < i ==> !Same(eq, e, p[j].0);
      if i >= |aggs| {
        assert p[|aggs| + (i - |aggs|)] == (keys[i - |aggs|], Col(i - |aggs|));
      }
    }
  }

  // The rewritten expression passes the check exactly when the source columns that the rewriting
  // leaves in place have numbers below the width of the frame.
  lemma {:induction false} AcceptedIff(eq: Equality, e: Expr, keys: seq<Expr>, aggs: seq<Expr>)
    ensures ColsBelow(Substitute(eq, e, Patterns(keys, aggs)), |keys| + |aggs|)
       <==> StraysBelow(eq, e, keys, aggs, |keys| + |aggs|)
    decreases e
  {
    ReplacedOrNot(eq, e, keys, aggs);
    hide Patterns, Replacement, Same, Known;
    if Replacement(eq, e, Patterns(keys, aggs)).None? {
      match e
      case Binary(_, x, y) =>
        AcceptedIff(eq, x, keys, aggs);
        AcceptedIff(eq, y, keys, aggs);
      case Unary(_, x) => AcceptedIff(eq, x, keys, aggs);
      case Like(x, _, _) => AcceptedIff(eq, x, keys, aggs);
      case InList(x, _, _) => AcceptedIff(eq, x, keys, aggs);
      case Between(x, low, high, _) =>
        AcceptedIff(eq, x, keys, aggs);
        AcceptedIff(eq, low, keys, aggs);
        AcceptedIff(eq, high, keys, aggs);
      case Func(_, args) =>
        forall i | 0 <= i < |args|
          ensures ColsBelow(Substitute(eq, args[i], Patterns(keys, aggs)), |keys| + |aggs|)
              <==> StraysBelow(eq, args[i], keys, aggs, |keys| + |aggs|)
        {
          AcceptedIff(eq, args[i], keys, aggs);
        }
      case Agg(_, arg, _) =>
        if arg.Some? {
          AcceptedIff(eq, arg.value, keys, aggs);
        }
      case Cast(x, _) => AcceptedIff(eq, x, keys, aggs);
      case _ =>
    }
  }

  lemma {:induction false} ArgCovered(es: seq<Expr>, aggs: seq<Expr>, i: nat)
    requires Covered(AllAggs(es), aggs) && i < |es|
    ensures Covered(Aggs(es[i]), aggs)
  {
    CoveredParts(Aggs(es[0]), AllAggs(es[1..]), aggs);
    if i > 0 {
      ArgCovered(es[1..], aggs, i - 1);
    }
  }

  // A well-formed expression, rewritten by its bits, is never rejected.
  lemma {:induction false} WellGroupedAccepted(e: Expr, keys: seq<Expr>, aggs: seq<Expr>, width: nat)
    requires WellGrouped(e, keys) && Covered(Aggs(e), aggs)
    ensures StraysBelow(BITS, e, keys, aggs, width)
    decreases e
  {
    if e in aggs {
      var i :| 0 <= i < |aggs| && aggs[i] == e;
      SameBits(e, aggs[i]);
    } else if e in keys {
      var i :| 0 <= i < |keys| && keys[i] == e;
      SameBits(e, keys[i]);
    } else {
      hide Same;
      match e
      case Binary(_, x, y) =>
        CoveredParts(Aggs(x), Aggs(y), aggs);
        WellGroupedAccepted(x, keys, aggs, width);
        WellGroupedAccepted(y, keys, aggs, width);
      case Unary(_, x) => WellGroupedAccepted(x, keys, aggs, width);
      case Like(x, _, _) => WellGroupedAccepted(x, keys, aggs, width);
      case InList(x, _, _) => WellGroupedAccepted(x, keys, aggs, width);
      case Between(x, low, high, _) =>
        CoveredParts(Aggs(x) + Aggs(low), Aggs(high), aggs);
        CoveredParts(Aggs(x), Aggs(low), aggs);
        WellGroupedAccepted(x, keys, aggs, width);
        WellGroupedAccepted(low, keys, aggs, width);
        WellGroupedAccepted(high, keys, aggs, width);
      case Func(_, args) =>
        forall i | 0 <= i < |args| ensures StraysBelow(BITS, args[i], keys, aggs, width) {
          ArgCovered(args, aggs, i);
          WellGroupedAccepted(args[i], keys, aggs, width);
        }
      case Cast(x, _) => WellGroupedAccepted(x, keys, aggs, width);
      case _ =>
    }
  }

  // A stray column whose number is below the width is accepted, and reads a column of the
  // intermediate frame that has nothing to do with it: SELECT b, count(*) FROM t GROUP BY a, with
  // `b` the second column, gives the count for `b`.
  lemma StrayColumnReadsAnother(eq: Equality, ops: Ops, f: Frame, r: nat, agg: Expr -> Option<Value>, f2: Frame, g: nat)
    requires Prepared(ops, [Col(0)], [Agg(Count, None, false)], f, r, agg, f2, g)
    ensures !WellGrouped(Col(1), [Col(0)]) && StraysBelow(eq, Col(1), [Col(0)], [Agg(Count, None, false)], 2)
    ensures var pats := Patterns([Col(0)], [Agg(Count, None, false)]);
      RowValue(ops, Substitute(eq, Col(1), pats), f2, g, NO_AGG) == agg(Agg(Count, None, false))
  {
    var keys, aggs := [Col(0)], [Agg(Count, None, false)];
    ReplacedOrNot(eq, Col(1), keys, aggs);
    assert !Same(eq, Col(1), keys[0]) && !Same(eq, Col(1), aggs[0]);
    assert RowValue(ops, Col(|keys| + 0), f2, g, NO_AGG) == agg(aggs[0]);
  }
}
