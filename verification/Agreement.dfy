/**
 When a grouped query is rewritten as if its expressions were told apart bit by bit. The code's
 equality merges literals that compare equal, and never matches one that is not a number.
 */
module Agreement {
  import opened Bytes
  import opened Wrappers
  import opened Columns
  import opened Plan
  import opened Equalities
  import opened Rewriting
  import opened Grouping

  // --- replacing ------------------------------------------------------------------------------------

  // The expression is one of the patterns.
  predicate Pattern(e: Expr, pats: seq<(Expr, Expr)>) {
    exists i :: 0 <= i < |pats| && pats[i].0 == e
  }

  // No pattern before its own, if it has one, looks like the expression; and it equals itself.
  predicate Recognised(eq: Equality, e: Expr, pats: seq<(Expr, Expr)>) {
    && (forall i :: 0 <= i < |pats| && (forall j :: 0 <= j <= i ==> pats[j].0 != e) ==> !Same(eq, e, pats[i].0))
    && (Pattern(e, pats) ==> Same(eq, e, e))
  }

  // Every subexpression that the rewriting comes to is recognised.
  predicate Clear(eq: Equality, e: Expr, pats: seq<(Expr, Expr)>)
    decreases e
  {
    && Recognised(eq, e, pats)
    && (Pattern(e, pats) || forall c :: c in e.Children() ==> Clear(eq, c, pats))
  }

  // The patterns of a query give different columns.
  predicate Columned(pats: seq<(Expr, Expr)>) {
    && (forall i :: 0 <= i < |pats| ==> pats[i].1.Col?)
    && (forall i, j :: 0 <= i < j < |pats| ==> pats[i].1 != pats[j].1)
  }

  lemma PatternsColumned(keys: seq<Expr>, aggs: seq<Expr>)
    ensures Columned(Patterns(keys, aggs))
  {
    var p := Patterns(keys, aggs);
    forall i | 0 <= i < |p| ensures p[i].1 == Col(if i < |aggs| then |keys| + i else i - |aggs|) {
      if i >= |aggs| {
        assert p[|aggs| + (i - |aggs|)] == (keys[i - |aggs|], Col(i - |aggs|));
      }
    }
  }

  // The pattern that replaces an expression: the first that equals it.
  lemma Replacer(eq: Equality, e: Expr, pats: seq<(Expr, Expr)>) returns (i: nat)
    requires Replacement(eq, e, pats).Some?
    ensures i < |pats| && Same(eq, e, pats[i].0) && Replacement(eq, e, pats) == Some(pats[i].1)
    ensures forall j :: 0 <= j < i ==> !Same(eq, e, pats[j].0)
  {
    FirstReplacement(eq, e, pats);
    i :| 0 <= i < |pats| && Same(eq, e, pats[i].0) && pats[i].1 == Replacement(eq, e, pats).value
      && forall j :: 0 <= j < i ==> !Same(eq, e, pats[j].0);
  }

  // Its own pattern, by bits.
  lemma OwnPattern(e: Expr, pats: seq<(Expr, Expr)>)
    ensures Replacement(BITS, e, pats).Some? <==> Pattern(e, pats)
    ensures forall j :: 0 <= j < |pats| ==> (Same(BITS, e, pats[j].0) <==> pats[j].0 == e)
  {
    forall j | 0 <= j < |pats| ensures Same(BITS, e, pats[j].0) <==> pats[j].0 == e {
      SameBits(e, pats[j].0);
    }
    FirstReplacement(BITS, e, pats);
  }

  // One replacement is that by bits exactly when the expression is recognised.
  lemma ReplacementIff(eq: Equality, e: Expr, pats: seq<(Expr, Expr)>)
    requires Columned(pats)
    ensures Replacement(eq, e, pats) == Replacement(BITS, e, pats) <==> Recognised(eq, e, pats)
  {
    hide Same;
    OwnPattern(e, pats);
    FirstReplacement(eq, e, pats);
    if Pattern(e, pats) {
      var t := Replacer(BITS, e, pats);
      if Replacement(eq, e, pats).Some? {
        var s := Replacer(eq, e, pats);
        if Recognised(eq, e, pats) {
          assert s >= t;
          assert Same(eq, e, pats[t].0);
        }
      } else {
        assert !Same(eq, e, pats[t].0);
      }
    }
  }

  lemma {:induction false} SubstituteAgrees(eq: Equality, e: Expr, pats: seq<(Expr, Expr)>)
    requires Columned(pats) && Clear(eq, e, pats)
    ensures Substitute(eq, e, pats) == Substitute(BITS, e, pats)
    decreases e, 1
  {
    ReplacementIff(eq, e, pats);
    OwnPattern(e, pats);
    hide Same, Recognised, Replacement, Columned;
    if !Pattern(e, pats) {
      forall c | c in e.Children() ensures Substitute(eq, c, pats) == Substitute(BITS, c, pats) {
        SubstituteAgrees(eq, c, pats);
      }
      NodeAgrees(eq, e, pats);
    }
  }

  lemma NodeAgrees(eq: Equality, e: Expr, pats: seq<(Expr, Expr)>)
    requires Replacement(eq, e, pats).None? && Replacement(BITS, e, pats).None?
    ensures Substitute(eq, e, pats) == Substitute(BITS, e, pats)
       <==> forall c :: c in e.Children() ==> Substitute(eq, c, pats) == Substitute(BITS, c, pats)
  {
    hide Replacement;
    assert forall i :: 0 <= i < |e.Children()| ==> e.Children()[i] in e.Children();
    match e
    case Func(_, args) =>
      assert SubstituteAll(eq, args, pats) == SubstituteAll(BITS, args, pats) ==>
        forall i :: 0 <= i < |args| ==> SubstituteAll(eq, args, pats)[i] == SubstituteAll(BITS, args, pats)[i];
      assert (forall c :: c in e.Children() ==> Substitute(eq, c, pats) == Substitute(BITS, c, pats)) ==>
        forall i :: 0 <= i < |args| ==> SubstituteAll(eq, args, pats)[i] == SubstituteAll(BITS, args, pats)[i];
    case Binary(_, l, r) => assert e.Children()[0] == l && e.Children()[1] == r;
    case Between(x, l, h, _) => assert e.Children()[0] == x && e.Children()[1] == l && e.Children()[2] == h;
    case Unary(_, x) => assert e.Children()[0] == x;
    case Like(x, _, _) => assert e.Children()[0] == x;
    case InList(x, _, _) => assert e.Children()[0] == x;
    case Cast(x, _) => assert e.Children()[0] == x;
    case Agg(_, x, _) => assert x.Some? ==> e.Children()[0] == x.value;
    case _ =>
  }

  // A node that only one of the two replaces comes out differently.
  lemma ReplacedDiffers(eq: Equality, e: Expr, pats: seq<(Expr, Expr)>)
    requires Columned(pats) && Substitute(eq, e, pats) == Substitute(BITS, e, pats)
    ensures Replacement(eq, e, pats) == Replacement(BITS, e, pats)
  {
    OwnPattern(e, pats);
    FirstReplacement(eq, e, pats);
    ColSame(eq, e, pats);
    hide Same;
    if Replacement(BITS, e, pats).Some? {
      var t := Replacer(BITS, e, pats);
      assert pats[t].0 == e && pats[t].1.Col?;
    }
    if Replacement(eq, e, pats).Some? {
      var s := Replacer(eq, e, pats);
      assert pats[s].1.Col?;
    }
  }

  lemma ColSame(eq: Equality, e: Expr, pats: seq<(Expr, Expr)>)
    ensures forall j :: 0 <= j < |pats| && (e.Col? || pats[j].0.Col?) ==> (Same(eq, e, pats[j].0) <==> pats[j].0 == e)
  {
  }

  lemma {:induction false} AgreeingIsClear(eq: Equality, e: Expr, pats: seq<(Expr, Expr)>)
    requires Columned(pats) && Substitute(eq, e, pats) == Substitute(BITS, e, pats)
    ensures Clear(eq, e, pats)
    decreases e
  {
    ReplacedDiffers(eq, e, pats);
    ReplacementIff(eq, e, pats);
    OwnPattern(e, pats);
    hide Same, Recognised, Replacement, Columned, Substitute;
    if !Pattern(e, pats) {
      NodeAgrees(eq, e, pats);
      forall c | c in e.Children() ensures Clear(eq, c, pats) {
        AgreeingIsClear(eq, c, pats);
      }
    }
  }

  // An expression is rewritten as by bits if and only if every subexpression that the rewriting comes
  // to equals itself, if it is a pattern, and equals no other pattern before that.
  lemma SubstituteIff(eq: Equality, e: Expr, pats: seq<(Expr, Expr)>)
    requires Columned(pats)
    ensures Substitute(eq, e, pats) == Substitute(BITS, e, pats) <==> Clear(eq, e, pats)
  {
    if Clear(eq, e, pats) {
      SubstituteAgrees(eq, e, pats);
    } else if Substitute(eq, e, pats) == Substitute(BITS, e, pats) {
      AgreeingIsClear(eq, e, pats);
    }
  }

  // --- collecting -------------------------------------------------------------------------------------

  // Each occurrence equals those before it that are the same, and no others.
  predicate Apart(eq: Equality, es: seq<Expr>) {
    forall i, j :: 0 <= i < j < |es| ==> (Same(eq, es[i], es[j]) <==> es[i] == es[j])
  }

  lemma ListedApart(eq: Equality, es: seq<Expr>)
    requires es != [] && Apart(eq, es)
    ensures var n := |es| - 1;
      Listed(eq, Collected(BITS, es[..n]), es[n]) <==> Listed(BITS, Collected(BITS, es[..n]), es[n])
  {
    var n := |es| - 1;
    var u := Collected(BITS, es[..n]);
    CollectedFrom(BITS, es[..n]);
    ListedBits(u, es[n]);
    hide Same;
    forall i | 0 <= i < |u| ensures Same(eq, u[i], es[n]) <==> u[i] == es[n] {
      assert u[i] in es[..n];
      var k :| 0 <= k < n && es[k] == u[i];
    }
  }

  lemma {:induction false} CollectedAgrees(eq: Equality, es: seq<Expr>)
    requires Apart(eq, es)
    ensures Collected(eq, es) == Collected(BITS, es)
  {
    hide Same, Listed;
    if es != [] {
      CollectedAgrees(eq, es[..|es| - 1]);
      ListedApart(eq, es);
    }
  }

  predicate Once(u: seq<Expr>) {
    forall i, j :: 0 <= i < j < |u| ==> u[i] != u[j]
  }

  lemma AddedOnce(u: seq<Expr>, e: Expr)
    requires e !in u && Once(u)
    ensures Once(u + [e])
  {
  }

  lemma NoneOnce()
    ensures Once([])
  {
  }

  lemma {:induction false} CollectedOnce(es: seq<Expr>)
    ensures Once(Collected(BITS, es))
  {
    hide Listed, Once;
    if es == [] {
      NoneOnce();
    } else {
      var n := |es| - 1;
      var u := Collected(BITS, es[..n]);
      CollectedOnce(es[..n]);
      ListedBits(u, es[n]);
      if es[n] !in u {
        AddedOnce(u, es[n]);
      }
    }
  }

  lemma OneMore(u: seq<Expr>, c: seq<Expr>, e: Expr)
    requires u == c + [e] && Once(u)
    ensures e in u && e !in c
  {
    assert u[|c|] == e;
    assert forall i :: 0 <= i < |c| ==> u[i] == c[i];
  }

  // Lists that agree agreed before their last entry.
  lemma AgreedBefore(eq: Equality, es: seq<Expr>)
    requires es != [] && Collected(eq, es) == Collected(BITS, es)
    ensures Collected(eq, es[..|es| - 1]) == Collected(BITS, es[..|es| - 1])
  {
    var n := |es| - 1;
    var c, u := Collected(eq, es[..n]), Collected(BITS, es[..n]);
    ListedBits(u, es[n]);
    hide Listed, Once;
    if Listed(eq, c, es[n]) && !Listed(BITS, u, es[n]) {
      CollectedFrom(eq, es[..n]);
      CollectedAll(es[..n]);
    } else if !Listed(eq, c, es[n]) && Listed(BITS, u, es[n]) {
      assert u == c + [es[n]];
      CollectedOnce(es[..n]);
      OneMore(u, c, es[n]);
      CollectedFrom(BITS, es[..n]);
      LastMissed(eq, es[..n], es[n]);
    } else if !Listed(eq, c, es[n]) {
      assert (c + [es[n]])[..|c|] == c && (u + [es[n]])[..|u|] == u;
    }
  }

  // An entry is in the collection, or one like it is.
  lemma {:induction false} LastMissed(eq: Equality, es: seq<Expr>, e: Expr)
    requires e in es
    ensures Listed(eq, Collected(eq, es), e) || e in Collected(eq, es)
  {
    hide Same;
    var n := |es| - 1;
    if e in es[..n] {
      LastMissed(eq, es[..n], e);
      if Listed(eq, Collected(eq, es[..n]), e) {
        StillListed(eq, es, e);
      }
    } else {
      assert es[n] == e;
    }
  }

  lemma StillListed(eq: Equality, es: seq<Expr>, e: Expr)
    requires es != [] && Listed(eq, Collected(eq, es[..|es| - 1]), e)
    ensures Listed(eq, Collected(eq, es), e)
  {
    hide Same;
    var before := Collected(eq, es[..|es| - 1]);
    var i :| 0 <= i < |before| && Same(eq, before[i], e);
    assert Collected(eq, es)[i] == before[i];
  }

  lemma {:induction false} SameSymmetric(eq: Equality, a: Expr, b: Expr)
    requires Symmetric(eq)
    ensures Same(eq, a, b) == Same(eq, b, a)
    decreases a
  {
    hide Same;
    var xs, ys := a.Children(), b.Children();
    if |xs| == |ys| {
      forall i | 0 <= i < |xs| ensures Same(eq, xs[i], ys[i]) == Same(eq, ys[i], xs[i]) {
        SameSymmetric(eq, xs[i], ys[i]);
      }
    }
    NodeSymmetric(eq, a, b);
  }

  predicate SameKind(a: Expr, b: Expr) {
    match a
    case Col(_) => b.Col?
    case Lit(_) => b.Lit?
    case Binary(_, _, _) => b.Binary?
    case Unary(_, _) => b.Unary?
    case Like(_, _, _) => b.Like?
    case InList(_, _, _) => b.InList?
    case Between(_, _, _, _) => b.Between?
    case Func(_, _) => b.Func?
    case Distance(_, _, _) => b.Distance?
    case Agg(_, _, _) => b.Agg?
    case Cast(_, _) => b.Cast?
  }

  lemma KindsDiffer(eq: Equality, a: Expr, b: Expr)
    requires !SameKind(a, b)
    ensures !Same(eq, a, b)
  {
    hide SameValue, SameFloats;
  }

  // The operands are as equal one way round as the other, place by place.
  predicate PartsSymmetric(eq: Equality, a: Expr, b: Expr) {
    |a.Children()| == |b.Children()| ==>
      forall i :: 0 <= i < |a.Children()| ==>
        Same(eq, a.Children()[i], b.Children()[i]) == Same(eq, b.Children()[i], a.Children()[i])
  }

  lemma NodeSymmetric(eq: Equality, a: Expr, b: Expr)
    requires Symmetric(eq) && PartsSymmetric(eq, a, b)
    ensures Same(eq, a, b) == Same(eq, b, a)
  {
    hide Same, Symmetric, PartsSymmetric;
    if !SameKind(a, b) {
      KindsDiffer(eq, a, b);
      KindsDiffer(eq, b, a);
    } else {
      match a
      case Binary(_, _, _) => BinarySymmetric(eq, a, b);
      case Between(_, _, _, _) => BetweenSymmetric(eq, a, b);
      case Func(_, _) => CallSymmetric(eq, a, b);
      case InList(_, _, _) => ListSymmetric(eq, a, b);
      case Agg(_, _, _) => AggSymmetric(eq, a, b);
      case Unary(_, _) => UnarySymmetric(eq, a, b);
      case Like(_, _, _) => UnarySymmetric(eq, a, b);
      case Cast(_, _) => UnarySymmetric(eq, a, b);
      case _ => LeafSymmetric(eq, a, b);
    }
  }

  lemma LeafSymmetric(eq: Equality, a: Expr, b: Expr)
    requires Symmetric(eq) && ((a.Col? && b.Col?) || (a.Lit? && b.Lit?) || (a.Distance? && b.Distance?))
    ensures Same(eq, a, b) == Same(eq, b, a)
  {
  }

  lemma UnarySymmetric(eq: Equality, a: Expr, b: Expr)
    requires PartsSymmetric(eq, a, b)
    requires (a.Unary? && b.Unary?) || (a.Like? && b.Like?) || (a.Cast? && b.Cast?)
    ensures Same(eq, a, b) == Same(eq, b, a)
  {
    assert a.Children()[0] == a.e && b.Children()[0] == b.e;
  }

  lemma BinarySymmetric(eq: Equality, a: Expr, b: Expr)
    requires PartsSymmetric(eq, a, b) && a.Binary? && b.Binary?
    ensures Same(eq, a, b) == Same(eq, b, a)
  {
    assert a.Children()[0] == a.l && b.Children()[0] == b.l && a.Children()[1] == a.r && b.Children()[1] == b.r;
  }

  lemma BetweenSymmetric(eq: Equality, a: Expr, b: Expr)
    requires PartsSymmetric(eq, a, b) && a.Between? && b.Between?
    ensures Same(eq, a, b) == Same(eq, b, a)
  {
    assert a.Children()[0] == a.e && b.Children()[0] == b.e;
    assert a.Children()[1] == a.low && b.Children()[1] == b.low;
    assert a.Children()[2] == a.high && b.Children()[2] == b.high;
  }

  lemma CallSymmetric(eq: Equality, a: Expr, b: Expr)
    requires PartsSymmetric(eq, a, b) && a.Func? && b.Func?
    ensures Same(eq, a, b) == Same(eq, b, a)
  {
    assert a.Children() == a.args && b.Children() == b.args;
  }

  lemma AggSymmetric(eq: Equality, a: Expr, b: Expr)
    requires PartsSymmetric(eq, a, b) && a.Agg? && b.Agg?
    ensures Same(eq, a, b) == Same(eq, b, a)
  {
    assert a.arg.Some? && b.arg.Some? ==> a.Children()[0] == a.arg.value && b.Children()[0] == b.arg.value;
  }

  lemma ListSymmetric(eq: Equality, a: Expr, b: Expr)
    requires Symmetric(eq) && PartsSymmetric(eq, a, b) && a.InList? && b.InList?
    ensures Same(eq, a, b) == Same(eq, b, a)
  {
    assert a.Children()[0] == a.e && b.Children()[0] == b.e;
    hide SameValue, Symmetric;
    forall v: Value, w: Value ensures SameValue(eq, v, w) == SameValue(eq, w, v) {
      ValueSymmetric(eq, v, w);
    }
  }

  lemma ValueSymmetric(eq: Equality, v: Value, w: Value)
    requires Symmetric(eq)
    ensures SameValue(eq, v, w) == SameValue(eq, w, v)
  {
  }

  // The collection is the one by bits if and only if no two different aggregates are equal, and one
  // that occurs again is recognised.
  lemma {:induction false} CollectedIff(eq: Equality, es: seq<Expr>)
    requires Symmetric(eq)
    ensures Collected(eq, es) == Collected(BITS, es) <==> Apart(eq, es)
  {
    hide Same, Listed;
    if Apart(eq, es) {
      CollectedAgrees(eq, es);
    } else if Collected(eq, es) == Collected(BITS, es) {
      AgreedBefore(eq, es);
      CollectedIff(eq, es[..|es| - 1]);
      LastApart(eq, es);
    }
  }

  // Of two different places either order will do.
  lemma PairApart(eq: Equality, es: seq<Expr>, i: nat, j: nat)
    requires Symmetric(eq) && Apart(eq, es) && i < |es| && j < |es| && i != j
    ensures Same(eq, es[i], es[j]) <==> es[i] == es[j]
  {
    SameSymmetric(eq, es[i], es[j]);
    hide Same;
  }

  lemma ListedAlike(eq: Equality, es: seq<Expr>)
    requires es != [] && Collected(eq, es) == Collected(BITS, es)
    requires Collected(eq, es[..|es| - 1]) == Collected(BITS, es[..|es| - 1])
    ensures var n := |es| - 1;
      Listed(eq, Collected(BITS, es[..n]), es[n]) <==> es[n] in es[..n]
  {
    var n := |es| - 1;
    ListedBits(Collected(BITS, es[..n]), es[n]);
    CollectedAll(es[..n]);
    CollectedFrom(BITS, es[..n]);
    hide Listed;
  }

  lemma LastApart(eq: Equality, es: seq<Expr>)
    requires es != [] && Symmetric(eq) && Apart(eq, es[..|es| - 1])
    requires Collected(eq, es) == Collected(BITS, es)
    requires Collected(eq, es[..|es| - 1]) == Collected(BITS, es[..|es| - 1])
    ensures Apart(eq, es)
  {
    hide Same, Symmetric, Collected, Listed, Apart;
    var n := |es| - 1;
    var p := es[..n];
    ListedAlike(eq, es);
    assert es == p + [es[n]];
    forall i | 0 <= i < n ensures Same(eq, p[i], es[n]) <==> p[i] == es[n] {
      LastPair(eq, p, es[n], i);
    }
    ApartSnoc(eq, p, es[n]);
  }

  lemma ApartSnoc(eq: Equality, p: seq<Expr>, e: Expr)
    requires Apart(eq, p) && forall i :: 0 <= i < |p| ==> (Same(eq, p[i], e) <==> p[i] == e)
    ensures Apart(eq, p + [e])
  {
    hide Same;
    forall i, j | 0 <= i < j < |p + [e]|
      ensures Same(eq, (p + [e])[i], (p + [e])[j]) <==> (p + [e])[i] == (p + [e])[j]
    {
      assert (p + [e])[i] == p[i];
      assert j < |p| ==> (p + [e])[j] == p[j];
    }
  }

  lemma LastPair(eq: Equality, p: seq<Expr>, e: Expr, i: nat)
    requires Symmetric(eq) && Apart(eq, p) && i < |p| && (Listed(eq, Collected(BITS, p), e) <==> e in p)
    ensures Same(eq, p[i], e) <==> p[i] == e
  {
    var u := Collected(BITS, p);
    CollectedFrom(BITS, p);
    CollectedAll(p);
    hide Same, Symmetric, Collected, Apart;
    if p[i] == e {
      var k :| 0 <= k < |u| && Same(eq, u[k], e);
      assert u[k] in p;
      var m :| 0 <= m < |p| && p[m] == u[k];
      if m != i {
        PairApart(eq, p, m, i);
      }
    } else if Same(eq, p[i], e) {
      assert p[i] in u;
      var k :| 0 <= k < |u| && u[k] == p[i];
      assert Listed(eq, u, e);
      var m :| 0 <= m < |p| && p[m] == e;
      PairApart(eq, p, i, m);
    }
  }

  // --- a query ----------------------------------------------------------------------------------------

  // No two different aggregates of the outputs are equal, and every subexpression of an output that
  // the rewriting comes to is equal to its own column's expression, if it has one, and to none before.
  predicate Unambiguous(eq: Equality, q: Select) {
    && Apart(eq, AllAggs(Outputs(q)))
    && forall i :: 0 <= i < |Outputs(q)| ==> Clear(eq, Outputs(q)[i], QueryPatterns(BITS, q))
  }

  // The same aggregates are collected as by bits, and every output is rewritten to the same expression.
  predicate RewrittenAlike(eq: Equality, q: Select) {
    && QueryAggs(eq, q) == QueryAggs(BITS, q)
    && forall i :: 0 <= i < |Outputs(q)| ==>
         Substitute(eq, Outputs(q)[i], QueryPatterns(eq, q)) == Substitute(BITS, Outputs(q)[i], QueryPatterns(BITS, q))
  }

  lemma UnambiguousAlike(eq: Equality, q: Select)
    requires Unambiguous(eq, q)
    ensures RewrittenAlike(eq, q)
  {
    CollectedAgrees(eq, AllAggs(Outputs(q)));
    PatternsColumned(q.groupBy, QueryAggs(BITS, q));
    hide Clear, Apart, Outputs, Substitute, Patterns, Columned, Collected;
    forall i | 0 <= i < |Outputs(q)|
      ensures Substitute(eq, Outputs(q)[i], QueryPatterns(eq, q))
           == Substitute(BITS, Outputs(q)[i], QueryPatterns(BITS, q))
    {
      SubstituteAgrees(eq, Outputs(q)[i], QueryPatterns(BITS, q));
    }
  }

  // A query is rewritten as by bits if and only if it is unambiguous.
  lemma RewrittenAlikeIff(eq: Equality, q: Select)
    requires Symmetric(eq)
    ensures RewrittenAlike(eq, q) <==> Unambiguous(eq, q)
  {
    if Unambiguous(eq, q) {
      UnambiguousAlike(eq, q);
    } else if RewrittenAlike(eq, q) {
      CollectedIff(eq, AllAggs(Outputs(q)));
      PatternsColumned(q.groupBy, QueryAggs(BITS, q));
      hide Clear, Apart, Outputs, Substitute, Patterns, Columned, Collected, Symmetric;
      forall i | 0 <= i < |Outputs(q)| ensures Clear(eq, Outputs(q)[i], QueryPatterns(BITS, q)) {
        SubstituteIff(eq, Outputs(q)[i], QueryPatterns(BITS, q));
      }
    }
  }

  // --- queries without such literals ------------------------------------------------------------------

  // All that is compared: keys and outputs.
  function Compared(q: Select): seq<Expr> {
    q.groupBy + Outputs(q)
  }

  function QueryDoubles(q: Select): set<u64> {
    set e, d | e in Compared(q) && d in Doubles(e) :: d
  }

  function QueryFloats(q: Select): set<u32> {
    set e, x | e in Compared(q) && x in Floats(e) :: x
  }

  // Every literal of the query is equal to itself and to no literal with other bits.
  predicate LiteralsTold(eq: Equality, q: Select) {
    Told(eq, QueryDoubles(q), QueryFloats(q))
  }

  lemma {:induction false} AggsWithin(e: Expr, ds: set<u64>, fs: set<u32>)
    requires Within(e, ds, fs)
    ensures forall a :: a in Aggs(e) ==> Within(a, ds, fs)
    decreases e, 1
  {
    PartWithin(e, ds, fs);
    hide Within;
    match e
    case Binary(_, l, r) =>
      assert e.Children()[0] == l && e.Children()[1] == r;
      AggsWithin(l, ds, fs);
      AggsWithin(r, ds, fs);
    case Between(x, l, h, _) =>
      assert e.Children()[0] == x && e.Children()[1] == l && e.Children()[2] == h;
      AggsWithin(x, ds, fs);
      AggsWithin(l, ds, fs);
      AggsWithin(h, ds, fs);
    case Func(_, args) => AllAggsWithin(args, ds, fs);
    case Unary(_, x) =>
      assert e.Children()[0] == x;
      AggsWithin(x, ds, fs);
    case Like(x, _, _) =>
      assert e.Children()[0] == x;
      AggsWithin(x, ds, fs);
    case InList(x, _, _) =>
      assert e.Children()[0] == x;
      AggsWithin(x, ds, fs);
    case Cast(x, _) =>
      assert e.Children()[0] == x;
      AggsWithin(x, ds, fs);
    case _ =>
  }

  lemma {:induction false} AllAggsWithin(es: seq<Expr>, ds: set<u64>, fs: set<u32>)
    requires forall e :: e in es ==> Within(e, ds, fs)
    ensures forall a :: a in AllAggs(es) ==> Within(a, ds, fs)
    decreases es, 0
  {
    hide Within;
    if es != [] {
      assert es[0] in es;
      AggsWithin(es[0], ds, fs);
      AllAggsWithin(es[1..], ds, fs);
    }
  }

  lemma {:induction false} ClearTold(eq: Equality, ds: set<u64>, fs: set<u32>, e: Expr, pats: seq<(Expr, Expr)>)
    requires Told(eq, ds, fs) && Within(e, ds, fs)
    requires forall i :: 0 <= i < |pats| ==> Within(pats[i].0, ds, fs)
    ensures Clear(eq, e, pats)
    decreases e
  {
    PartWithin(e, ds, fs);
    hide Within, Told, Same;
    SameMeans(eq, ds, fs, e, e);
    forall i | 0 <= i < |pats| ensures Same(eq, e, pats[i].0) <==> e == pats[i].0 {
      SameMeans(eq, ds, fs, e, pats[i].0);
    }
    assert Recognised(eq, e, pats);
    forall c | c in e.Children() ensures Clear(eq, c, pats) {
      ClearTold(eq, ds, fs, c, pats);
    }
  }

  lemma ApartTold(eq: Equality, ds: set<u64>, fs: set<u32>, es: seq<Expr>)
    requires Told(eq, ds, fs) && forall e :: e in es ==> Within(e, ds, fs)
    ensures Apart(eq, es)
  {
    hide Within, Told, Same;
    forall i, j | 0 <= i < j < |es| ensures Same(eq, es[i], es[j]) <==> es[i] == es[j] {
      assert es[i] in es && es[j] in es;
      SameMeans(eq, ds, fs, es[i], es[j]);
    }
  }

  // A query whose literals are told apart is unambiguous, whatever else it says.
  lemma LiteralsSuffice(eq: Equality, q: Select)
    requires LiteralsTold(eq, q)
    ensures Unambiguous(eq, q)
  {
    var ds, fs := QueryDoubles(q), QueryFloats(q);
    ComparedWithin(q);
    var pats := QueryPatterns(BITS, q);
    PatternsWithin(q, ds, fs);
    hide Within, Told, Clear, Apart, QueryPatterns, Compared, QueryDoubles, QueryFloats;
    AllAggsWithin(Outputs(q), ds, fs);
    ApartTold(eq, ds, fs, AllAggs(Outputs(q)));
    forall i | 0 <= i < |Outputs(q)| ensures Clear(eq, Outputs(q)[i], pats) {
      assert Outputs(q)[i] in Outputs(q);
      ClearTold(eq, ds, fs, Outputs(q)[i], pats);
    }
  }

  lemma ComparedWithin(q: Select)
    ensures forall e :: e in q.groupBy ==> Within(e, QueryDoubles(q), QueryFloats(q))
    ensures forall e :: e in Outputs(q) ==> Within(e, QueryDoubles(q), QueryFloats(q))
  {
    hide Outputs, Doubles, Floats;
    var ds, fs := QueryDoubles(q), QueryFloats(q);
    forall e | e in Compared(q) ensures Within(e, ds, fs) {
      assert forall d :: d in Doubles(e) ==> d in ds;
      assert forall x :: x in Floats(e) ==> x in fs;
    }
    assert forall e :: e in q.groupBy ==> e in Compared(q);
    assert forall e :: e in Outputs(q) ==> e in Compared(q);
  }

  lemma PatternsWithin(q: Select, ds: set<u64>, fs: set<u32>)
    requires forall e :: e in q.groupBy ==> Within(e, ds, fs)
    requires forall e :: e in Outputs(q) ==> Within(e, ds, fs)
    ensures var pats := QueryPatterns(BITS, q);
      forall i :: 0 <= i < |pats| ==> Within(pats[i].0, ds, fs)
  {
    AllAggsWithin(Outputs(q), ds, fs);
    CollectedFrom(BITS, AllAggs(Outputs(q)));
    hide Within, Outputs, Collected, AllAggs;
    var keys, aggs := q.groupBy, QueryAggs(BITS, q);
    var pats := Patterns(keys, aggs);
    forall i | 0 <= i < |pats| ensures Within(pats[i].0, ds, fs) {
      if i < |aggs| {
        assert pats[i].0 == aggs[i] && aggs[i] in aggs;
      } else {
        assert pats[|aggs| + (i - |aggs|)] == (keys[i - |aggs|], Col(i - |aggs|));
        assert keys[i - |aggs|] in keys;
      }
    }
  }
}
