/**
 The equality of expressions (`src/plan.rs`, `src/exec.rs`) and when it is sameness. Doubles in
 literals are compared as numbers, so that 0.0 and -0.0 are equal, and NaN is not equal to itself.
 */
module Equalities {
  import opened Bytes
  import opened Wrappers
  import opened Columns
  import opened Plan

  // --- the literals of an expression --------------------------------------------------------------

  function DoublesOf(v: Value): set<u64> {
    if v.F64? then {v.f} else {}
  }

  function FloatsOf(v: Value): set<u32> {
    if v.Vector? then set x | x in v.v else {}
  }

  function Doubles(e: Expr): set<u64>
    decreases e
  {
    match e
    case Lit(v) => DoublesOf(v)
    case InList(x, list, _) => Doubles(x) + set v, d | v in list && d in DoublesOf(v) :: d
    case Func(_, args) => set x, d | x in args && d in Doubles(x) :: d
    case Binary(_, l, r) => Doubles(l) + Doubles(r)
    case Unary(_, x) => Doubles(x)
    case Like(x, _, _) => Doubles(x)
    case Between(x, low, high, _) => Doubles(x) + Doubles(low) + Doubles(high)
    case Agg(_, arg, _) => if arg.Some? then Doubles(arg.value) else {}
    case Cast(x, _) => Doubles(x)
    case _ => {}
  }

  function Floats(e: Expr): set<u32>
    decreases e
  {
    match e
    case Lit(v) => FloatsOf(v)
    case Distance(_, _, query) => set x | x in query
    case InList(x, list, _) => Floats(x) + set v, d | v in list && d in FloatsOf(v) :: d
    case Func(_, args) => set x, d | x in args && d in Floats(x) :: d
    case Binary(_, l, r) => Floats(l) + Floats(r)
    case Unary(_, x) => Floats(x)
    case Like(x, _, _) => Floats(x)
    case Between(x, low, high, _) => Floats(x) + Floats(low) + Floats(high)
    case Agg(_, arg, _) => if arg.Some? then Floats(arg.value) else {}
    case Cast(x, _) => Floats(x)
    case _ => {}
  }

  // Every one of these numbers is equal to itself and to no other.
  predicate Told(eq: Equality, ds: set<u64>, fs: set<u32>) {
    && (forall x, y :: x in ds && y in ds ==> (eq.doubles(x, y) <==> x == y))
    && (forall x, y :: x in fs && y in fs ==> (eq.floats(x, y) <==> x == y))
  }

  predicate Within(e: Expr, ds: set<u64>, fs: set<u32>) {
    Doubles(e) <= ds && Floats(e) <= fs
  }

  lemma FloatsTold(eq: Equality, ds: set<u64>, fs: set<u32>, v: seq<u32>, w: seq<u32>)
    requires Told(eq, ds, fs) && (forall x :: x in v ==> x in fs) && (forall x :: x in w ==> x in fs)
    ensures SameFloats(eq, v, w) <==> v == w
  {
  }

  lemma ValuesTold(eq: Equality, ds: set<u64>, fs: set<u32>, a: Value, b: Value)
    requires Told(eq, ds, fs)
    requires DoublesOf(a) <= ds && FloatsOf(a) <= fs && DoublesOf(b) <= ds && FloatsOf(b) <= fs
    ensures SameValue(eq, a, b) <==> a == b
  {
    if a.Vector? && b.Vector? {
      assert forall x :: x in a.v ==> x in FloatsOf(a);
      assert forall x :: x in b.v ==> x in FloatsOf(b);
      FloatsTold(eq, ds, fs, a.v, b.v);
    } else if a.F64? && b.F64? {
      assert a.f in ds && b.f in ds;
    }
  }

  lemma ItemWithin(a: Expr, ds: set<u64>, fs: set<u32>, i: nat)
    requires a.InList? && Within(a, ds, fs) && i < |a.list|
    ensures DoublesOf(a.list[i]) <= ds && FloatsOf(a.list[i]) <= fs
  {
    assert a.list[i] in a.list;
    assert forall d :: d in DoublesOf(a.list[i]) ==> d in Doubles(a);
    assert forall d :: d in FloatsOf(a.list[i]) ==> d in Floats(a);
  }

  lemma ArgWithin(a: Expr, ds: set<u64>, fs: set<u32>, i: nat)
    requires a.Func? && Within(a, ds, fs) && i < |a.args|
    ensures Within(a.args[i], ds, fs)
  {
    assert a.args[i] in a.args;
    assert forall d :: d in Doubles(a.args[i]) ==> d in Doubles(a);
    assert forall d :: d in Floats(a.args[i]) ==> d in Floats(a);
  }

  lemma PartWithin(a: Expr, ds: set<u64>, fs: set<u32>)
    requires Within(a, ds, fs)
    ensures forall c :: c in a.Children() ==> Within(c, ds, fs)
  {
    if a.Func? {
      forall i | 0 <= i < |a.args| ensures Within(a.args[i], ds, fs) {
        ArgWithin(a, ds, fs, i);
      }
    }
  }

  // Two nodes whose parts are equal exactly when they are the same.
  lemma NodeTold(eq: Equality, ds: set<u64>, fs: set<u32>, a: Expr, b: Expr)
    requires Told(eq, ds, fs) && Within(a, ds, fs) && Within(b, ds, fs)
    requires forall x, y :: x in a.Children() && y in b.Children() ==> (Same(eq, x, y) <==> x == y)
    ensures Same(eq, a, b) <==> a == b
  {
    hide Told, SameValue, SameFloats, Within;
    if a.Lit? && b.Lit? {
      LiteralTold(eq, ds, fs, a, b);
    } else if a.InList? && b.InList? {
      ListsTold(eq, ds, fs, a, b);
    } else if a.Distance? && b.Distance? {
      DistanceTold(eq, ds, fs, a, b);
    } else if a.Func? && b.Func? {
      assert |a.args| == |b.args| ==>
        forall i :: 0 <= i < |a.args| ==> a.args[i] in a.Children() && b.args[i] in b.Children();
    } else if a.Between? && b.Between? {
      assert a.e in a.Children() && a.low in a.Children() && a.high in a.Children();
      assert b.e in b.Children() && b.low in b.Children() && b.high in b.Children();
    } else if a.Binary? && b.Binary? {
      assert a.l in a.Children() && a.r in a.Children() && b.l in b.Children() && b.r in b.Children();
    } else if a.Agg? && b.Agg? {
      assert a.arg.Some? && b.arg.Some? ==> a.arg.value in a.Children() && b.arg.value in b.Children();
    } else if (a.Unary? && b.Unary?) || (a.Like? && b.Like?) || (a.Cast? && b.Cast?) {
      assert a.e in a.Children() && b.e in b.Children();
    }
  }

  lemma LiteralTold(eq: Equality, ds: set<u64>, fs: set<u32>, a: Expr, b: Expr)
    requires a.Lit? && b.Lit? && Told(eq, ds, fs) && Within(a, ds, fs) && Within(b, ds, fs)
    ensures Same(eq, a, b) <==> a == b
  {
    ValuesTold(eq, ds, fs, a.v, b.v);
  }

  lemma DistanceTold(eq: Equality, ds: set<u64>, fs: set<u32>, a: Expr, b: Expr)
    requires a.Distance? && b.Distance? && Told(eq, ds, fs) && Within(a, ds, fs) && Within(b, ds, fs)
    ensures Same(eq, a, b) <==> a == b
  {
    assert forall x :: x in a.query ==> x in Floats(a);
    assert forall x :: x in b.query ==> x in Floats(b);
    FloatsTold(eq, ds, fs, a.query, b.query);
  }

  lemma ListsTold(eq: Equality, ds: set<u64>, fs: set<u32>, a: Expr, b: Expr)
    requires a.InList? && b.InList? && Told(eq, ds, fs) && Within(a, ds, fs) && Within(b, ds, fs)
    requires forall x, y :: x in a.Children() && y in b.Children() ==> (Same(eq, x, y) <==> x == y)
    ensures Same(eq, a, b) <==> a == b
  {
    hide Told, Within, SameValue;
    assert a.e in a.Children() && b.e in b.Children();
    if |a.list| == |b.list| {
      forall i | 0 <= i < |a.list| ensures SameValue(eq, a.list[i], b.list[i]) <==> a.list[i] == b.list[i] {
        ItemWithin(a, ds, fs, i);
        ItemWithin(b, ds, fs, i);
        ValuesTold(eq, ds, fs, a.list[i], b.list[i]);
      }
    }
  }

  // Where the literals are told apart, equal expressions are the same.
  lemma {:induction false} SameMeans(eq: Equality, ds: set<u64>, fs: set<u32>, a: Expr, b: Expr)
    requires Told(eq, ds, fs) && Within(a, ds, fs) && Within(b, ds, fs)
    ensures Same(eq, a, b) <==> a == b
    decreases a
  {
    hide Told, Within, Same;
    PartWithin(a, ds, fs);
    PartWithin(b, ds, fs);
    forall x, y | x in a.Children() && y in b.Children() ensures Same(eq, x, y) <==> x == y {
      SameMeans(eq, ds, fs, x, y);
    }
    NodeTold(eq, ds, fs, a, b);
  }

  lemma SameBits(a: Expr, b: Expr)
    ensures Same(BITS, a, b) <==> a == b
  {
    SameMeans(BITS, Doubles(a) + Doubles(b), Floats(a) + Floats(b), a, b);
  }

  predicate Symmetric(eq: Equality) {
    (forall x, y :: eq.doubles(x, y) == eq.doubles(y, x)) && (forall x, y :: eq.floats(x, y) == eq.floats(y, x))
  }
}
