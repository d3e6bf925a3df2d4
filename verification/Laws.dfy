/**
 What the operators of a query mean (`src/exec.rs`): laws of the value of an expression at a row, in
 terms of the values of its operands. Arrays hold these values at every row (module Refinement).
 */
module Laws {
  import opened Bytes
  import opened Wrappers
  import opened Columns
  import opened Plan
  import opened Arrays
  import opened Orders
  import opened Functions
  import opened Evaluation
  import opened Refinement

  // --- comparisons ------------------------------------------------------------------------------------

  // The relation of that name, of two things of which one is below, the same as, or above the other.
  predicate Relation(op: BinOp, below: bool, same: bool, above: bool) {
    match op
    case Eq => same
    case NotEq => below || above
    case Lt => below
    case LtEq => below || same
    case Gt => above
    case GtEq => above || same
    case _ => false
  }

  lemma IntsRelate(ops: Ops, op: BinOp, x: Expr, y: Expr, f: Frame, r: nat, agg: Expr -> Option<Value>, a: i64, b: i64)
    requires IsCmp(op) && RowValue(ops, x, f, r, agg) == Some(Value.I64(a))
    requires RowValue(ops, y, f, r, agg) == Some(Value.I64(b))
    ensures RowValue(ops, Binary(op, x, y), f, r, agg) == Some(Value.Bool(Relation(op, a < b, a == b, a > b)))
  {
  }

  lemma TextsRelate(ops: Ops, op: BinOp, x: Expr, y: Expr, f: Frame, r: nat, agg: Expr -> Option<Value>, a: Text,
                    b: Text)
    requires IsCmp(op) && RowValue(ops, x, f, r, agg) == Some(Value.Str(a))
    requires RowValue(ops, y, f, r, agg) == Some(Value.Str(b))
    ensures RowValue(ops, Binary(op, x, y), f, r, agg)
         == Some(Value.Bool(Relation(op, TextBelow(a, b), a == b, TextBelow(b, a))))
  {
    TextsCompared(a, b);
    hide CompareTexts, TextBelow;
  }

  // The doubles stand for real numbers, or for none, and are compared as such.
  ghost predicate Reads(ops: Ops, num: u64 -> Option<real>) {
    forall x: u64, y: u64 ::
      ops.compare(x, y) ==
        match (num(x), num(y))
        case (Some(s), Some(t)) => Some(if s < t then Less else if s > t then Greater else Equal)
        case _ => None
  }

  // Numbers of which one is no integer are compared as the reals they stand for; what is not a number is
  // only different.
  lemma NumbersRelate(ops: Ops, op: BinOp, x: Expr, y: Expr, f: Frame, r: nat, agg: Expr -> Option<Value>,
                      num: u64 -> Option<real>)
    requires IsCmp(op) && Reads(ops, num)
    requires RowValue(ops, x, f, r, agg).Some? && RowValue(ops, y, f, r, agg).Some?
    requires var (v, w) := (RowValue(ops, x, f, r, agg).value, RowValue(ops, y, f, r, agg).value);
      Num(ops, v).Some? && Num(ops, w).Some? && !(v.I64? && w.I64?)
    ensures var (v, w) := (RowValue(ops, x, f, r, agg).value, RowValue(ops, y, f, r, agg).value);
      RowValue(ops, Binary(op, x, y), f, r, agg) == Some(Value.Bool(
        match (num(Num(ops, v).value), num(Num(ops, w).value))
        case (Some(s), Some(t)) => Relation(op, s < t, s == t, s > t)
        case _ => op == NotEq))
  {
    var v, w := RowValue(ops, x, f, r, agg).value, RowValue(ops, y, f, r, agg).value;
    DoublesValue(ops, op, v, w);
    hide BinaryValue;
  }

  predicate Holds(ops: Ops, op: BinOp, v: Value, w: Value) {
    BinaryValue(ops, op, v, w) == Some(Value.Bool(true))
  }

  // Values that can be compared, and if they are numbers, that are some.
  predicate Comparable(ops: Ops, v: Value, w: Value) {
    || (v.Str? && w.Str?)
    || (v.I64? && w.I64?)
    || (Num(ops, v).Some? && Num(ops, w).Some? && ops.compare(Num(ops, v).value, Num(ops, w).value).Some?)
  }

  ghost predicate Turns(ops: Ops) {
    forall x: u64, y: u64 ::
      && (ops.compare(x, y) == Some(Less) <==> ops.compare(y, x) == Some(Greater))
      && (ops.compare(x, y) == Some(Equal) <==> ops.compare(y, x) == Some(Equal))
  }

  // Exactly one of <, = and > holds, and the other three operators say what their names say.
  predicate OneHolds(ops: Ops, v: Value, w: Value) {
    && (Holds(ops, Lt, v, w) || Holds(ops, Eq, v, w) || Holds(ops, Gt, v, w))
    && !(Holds(ops, Lt, v, w) && Holds(ops, Eq, v, w)) && !(Holds(ops, Lt, v, w) && Holds(ops, Gt, v, w))
    && !(Holds(ops, Eq, v, w) && Holds(ops, Gt, v, w))
    && (Holds(ops, LtEq, v, w) <==> Holds(ops, Lt, v, w) || Holds(ops, Eq, v, w))
    && (Holds(ops, GtEq, v, w) <==> Holds(ops, Gt, v, w) || Holds(ops, Eq, v, w))
    && (Holds(ops, NotEq, v, w) <==> !Holds(ops, Eq, v, w))
  }

  predicate Mirrored(ops: Ops, v: Value, w: Value) {
    && (Holds(ops, Lt, v, w) <==> Holds(ops, Gt, w, v))
    && (Holds(ops, Eq, v, w) <==> Holds(ops, Eq, w, v))
  }

  lemma TextsThree(ops: Ops, v: Value, w: Value)
    requires v.Str? && w.Str?
    ensures OneHolds(ops, v, w) && Mirrored(ops, v, w)
  {
    TextsCompared(v.s, w.s);
    TextsCompared(w.s, v.s);
    hide CompareTexts, TextBelow;
  }

  lemma IntsThree(ops: Ops, v: Value, w: Value)
    requires v.I64? && w.I64?
    ensures OneHolds(ops, v, w) && Mirrored(ops, v, w)
  {
  }

  lemma NumberHolds(ops: Ops, op: BinOp, v: Value, w: Value)
    requires IsCmp(op) && Num(ops, v).Some? && Num(ops, w).Some? && !(v.I64? && w.I64?)
    ensures Holds(ops, op, v, w) <==> DoubleCmp(ops, op, Num(ops, v).value, Num(ops, w).value)
  {
    DoublesValue(ops, op, v, w);
    hide BinaryValue;
  }

  lemma NumbersThree(ops: Ops, v: Value, w: Value)
    requires Comparable(ops, v, w) && Num(ops, v).Some? && Num(ops, w).Some? && !(v.I64? && w.I64?)
    ensures OneHolds(ops, v, w) && (Turns(ops) ==> Mirrored(ops, v, w))
  {
    assert ops.compare(Num(ops, v).value, Num(ops, w).value).Some?;
    hide Num, Holds, Turns;
    var c := ops.compare(Num(ops, v).value, Num(ops, w).value).value;
    HoldsBy(ops, v, w, c);
    hide Comparable;
    if Turns(ops) {
      TurnedRound(ops, v, w);
    }
  }

  lemma HoldsBy(ops: Ops, v: Value, w: Value, c: Ordering)
    requires Num(ops, v).Some? && Num(ops, w).Some? && !(v.I64? && w.I64?)
    requires ops.compare(Num(ops, v).value, Num(ops, w).value) == Some(c)
    ensures Holds(ops, Lt, v, w) <==> c == Less
    ensures Holds(ops, Eq, v, w) <==> c == Equal
    ensures Holds(ops, Gt, v, w) <==> c == Greater
    ensures Holds(ops, LtEq, v, w) <==> c != Greater
    ensures Holds(ops, GtEq, v, w) <==> c != Less
    ensures Holds(ops, NotEq, v, w) <==> c != Equal
  {
    hide Num, Holds;
    NumberHolds(ops, Lt, v, w);
    NumberHolds(ops, Eq, v, w);
    NumberHolds(ops, Gt, v, w);
    NumberHolds(ops, LtEq, v, w);
    NumberHolds(ops, GtEq, v, w);
    NumberHolds(ops, NotEq, v, w);
  }

  lemma TurnedRound(ops: Ops, v: Value, w: Value)
    requires Turns(ops) && Num(ops, v).Some? && Num(ops, w).Some? && !(v.I64? && w.I64?)
    requires ops.compare(Num(ops, v).value, Num(ops, w).value).Some?
    ensures Mirrored(ops, v, w)
  {
    hide Num, Holds;
    var x, y := Num(ops, v).value, Num(ops, w).value;
    HoldsBy(ops, v, w, ops.compare(x, y).value);
    assert ops.compare(y, x).Some?;
    HoldsBy(ops, w, v, ops.compare(y, x).value);
  }

  // So it is for any two values that can be compared; and < is > the other way round.
  lemma OneOfThree(ops: Ops, v: Value, w: Value)
    requires Comparable(ops, v, w)
    ensures OneHolds(ops, v, w) && (Turns(ops) ==> Mirrored(ops, v, w))
  {
    hide OneHolds, Mirrored, Turns;
    if v.Str? && w.Str? {
      TextsThree(ops, v, w);
    } else if v.I64? && w.I64? {
      IntsThree(ops, v, w);
    } else {
      NumbersThree(ops, v, w);
    }
  }

  // --- logic ------------------------------------------------------------------------------------------

  lemma LogicMeans(ops: Ops, x: Expr, y: Expr, f: Frame, r: nat, agg: Expr -> Option<Value>, a: bool, b: bool)
    requires RowValue(ops, x, f, r, agg) == Some(Value.Bool(a))
    requires RowValue(ops, y, f, r, agg) == Some(Value.Bool(b))
    ensures RowValue(ops, Binary(And, x, y), f, r, agg) == Some(Value.Bool(a && b))
    ensures RowValue(ops, Binary(Or, x, y), f, r, agg) == Some(Value.Bool(a || b))
    ensures RowValue(ops, Unary(Not, x), f, r, agg) == Some(Value.Bool(!a))
  {
  }

  // --- integers ---------------------------------------------------------------------------------------

  function Gap(a: int, b: int): nat {
    if a < b then b - a else a - b
  }

  // Of the integers of 64 bits none is nearer to the exact result.
  ghost predicate Nearest(r: i64, exact: int) {
    forall z: i64 :: Gap(r, exact) <= Gap(z, exact)
  }

  lemma ClampedIsNearest(exact: int)
    ensures Nearest(Saturate(exact), exact)
  {
  }

  // Sums, differences and products are the nearest integers of 64 bits.
  lemma IntegersComputed(ops: Ops, x: Expr, y: Expr, f: Frame, r: nat, agg: Expr -> Option<Value>, a: i64, b: i64)
    requires RowValue(ops, x, f, r, agg) == Some(Value.I64(a))
    requires RowValue(ops, y, f, r, agg) == Some(Value.I64(b))
    ensures forall op | op in {Add, Sub, Mul} ::
      var v := RowValue(ops, Binary(op, x, y), f, r, agg);
      v.Some? && v.value.I64? && Nearest(v.value.i, if op == Add then a + b else if op == Sub then a - b else a * b)
    ensures RowValue(ops, Unary(Neg, x), f, r, agg).Some? && RowValue(ops, Unary(Neg, x), f, r, agg).value.I64?
    ensures Nearest(RowValue(ops, Unary(Neg, x), f, r, agg).value.i, 0 - a)
  {
    hide Nearest, Saturate, BinaryValue, UnaryValue;
    ClampedIsNearest(a + b);
    ClampedIsNearest(a - b);
    ClampedIsNearest(a * b);
    ClampedIsNearest(0 - a);
    IntegersClamped(ops, a, b);
  }

  lemma IntegersClamped(ops: Ops, a: i64, b: i64)
    ensures BinaryValue(ops, Add, Value.I64(a), Value.I64(b)) == Some(Value.I64(Saturate(a + b)))
    ensures BinaryValue(ops, Sub, Value.I64(a), Value.I64(b)) == Some(Value.I64(Saturate(a - b)))
    ensures BinaryValue(ops, Mul, Value.I64(a), Value.I64(b)) == Some(Value.I64(Saturate(a * b)))
    ensures UnaryValue(ops, Neg, Value.I64(a)) == Some(Value.I64(Saturate(0 - a)))
  {
  }

  lemma RemOf(a: int, b: int)
    requires b != 0
    ensures exists q :: a == q * b + Rem(a, b)
    ensures Gap(Rem(a, b), 0) < Gap(b, 0) && (Rem(a, b) == 0 || (Rem(a, b) < 0 <==> a < 0))
  {
    var m, n := if a < 0 then -a else a, if b < 0 then -b else b;
    assert m == m / n * n + m % n;
    var q := if (a < 0) == (b < 0) then m / n else -(m / n);
    assert q * b == if a < 0 then -(m / n * n) else m / n * n by {
      assert b == n || b == -n;
      assert q == m / n || q == -(m / n);
    }
    assert a == q * b + Rem(a, b);
  }

  // The remainder completes a multiple of the divisor, is smaller than it, and has the dividend's sign;
  // by zero it is zero.
  lemma RemainderMeans(ops: Ops, x: Expr, y: Expr, f: Frame, r: nat, agg: Expr -> Option<Value>, a: i64, b: i64)
    requires RowValue(ops, x, f, r, agg) == Some(Value.I64(a))
    requires RowValue(ops, y, f, r, agg) == Some(Value.I64(b))
    ensures var v := RowValue(ops, Binary(Mod, x, y), f, r, agg);
      && v.Some? && v.value.I64?
      && (b == 0 ==> v.value.i == 0)
      && (b != 0 ==>
            && (exists q :: a == q * b + v.value.i)
            && Gap(v.value.i, 0) < Gap(b, 0) && (v.value.i == 0 || (v.value.i < 0 <==> a < 0)))
  {
    if b != 0 {
      RemOf(a, b);
      assert Gap(Rem(a, b), 0) < Gap(b, 0) <= TWO63;
      assert -TWO63 <= Rem(a, b) < TWO63;
      hide Rem;
      assert RowValue(ops, Binary(Mod, x, y), f, r, agg) == Some(Value.I64(Rem(a, b)));
    }
  }

  // The absolute value likewise.
  lemma AbsoluteMeans(ops: Ops, x: Expr, f: Frame, r: nat, agg: Expr -> Option<Value>, a: i64)
    requires RowValue(ops, x, f, r, agg) == Some(Value.I64(a))
    ensures var v := RowValue(ops, Func(Abs, [x]), f, r, agg);
      v.Some? && v.value.I64? && Nearest(v.value.i, Gap(a, 0))
  {
    OneArgument(ops, x, f, r, agg, Value.I64(a));
    ClampedIsNearest(Gap(a, 0));
    assert AbsInt(a) == Saturate(Gap(a, 0));
    hide Nearest;
  }

  lemma OneArgument(ops: Ops, x: Expr, f: Frame, r: nat, agg: Expr -> Option<Value>, v: Value)
    requires RowValue(ops, x, f, r, agg) == Some(v)
    ensures RowValues(ops, [x], f, r, agg) == Some([v])
  {
    hide RowValue;
    assert [x][1..] == [] && RowValues(ops, [], f, r, agg) == Some([]);
    assert [v] + [] == [v];
  }

  // Other arithmetic is that of doubles, the operands in their order.
  lemma DoublesComputed(ops: Ops, op: BinOp, x: Expr, y: Expr, f: Frame, r: nat, agg: Expr -> Option<Value>)
    requires op in {Add, Sub, Mul, Div, Mod}
    requires RowValue(ops, x, f, r, agg).Some? && RowValue(ops, y, f, r, agg).Some?
    requires var (v, w) := (RowValue(ops, x, f, r, agg).value, RowValue(ops, y, f, r, agg).value);
      Num(ops, v).Some? && Num(ops, w).Some? && (v.I64? && w.I64? ==> op == Div)
    ensures var (v, w) := (RowValue(ops, x, f, r, agg).value, RowValue(ops, y, f, r, agg).value);
      RowValue(ops, Binary(op, x, y), f, r, agg)
      == Some(Value.F64(ops.arith(op, Num(ops, v).value, Num(ops, w).value)))
  {
  }

  // --- lists, ranges, patterns ------------------------------------------------------------------------

  lemma {:induction false} AnyEqualIs(ops: Ops, v: Value, list: seq<Value>)
    requires AnyEqual(ops, v, list).Some?
    ensures AnyEqual(ops, v, list).value <==> exists i :: 0 <= i < |list| && Holds(ops, Eq, v, list[i])
  {
    if list != [] {
      AnyEqualIs(ops, v, list[1..]);
      hide BinaryValue;
      if AnyEqual(ops, v, list).value && !Holds(ops, Eq, v, list[0]) {
        var i :| 0 <= i < |list[1..]| && Holds(ops, Eq, v, list[1..][i]);
        assert list[i + 1] == list[1..][i];
      }
      if exists i :: 0 <= i < |list| && Holds(ops, Eq, v, list[i]) {
        var i :| 0 <= i < |list| && Holds(ops, Eq, v, list[i]);
        assert i > 0 ==> list[i] == list[1..][i - 1];
      }
    }
  }

  // IN asks for some literal that is equal.
  lemma InListMeans(ops: Ops, x: Expr, list: seq<Value>, f: Frame, r: nat, agg: Expr -> Option<Value>)
    requires RowValue(ops, x, f, r, agg).Some? && RowValue(ops, InList(x, list, false), f, r, agg).Some?
    ensures RowValue(ops, InList(x, list, false), f, r, agg)
         == Some(Value.Bool(exists i :: 0 <= i < |list|
                              && Holds(ops, Eq, RowValue(ops, x, f, r, agg).value, list[i])))
  {
    AnyEqualIs(ops, RowValue(ops, x, f, r, agg).value, list);
  }

  // BETWEEN is to be neither below the one nor above the other.
  lemma BetweenMeans(ops: Ops, x: Expr, low: Expr, high: Expr, f: Frame, r: nat, agg: Expr -> Option<Value>)
    requires RowValue(ops, Between(x, low, high, false), f, r, agg).Some?
    ensures RowValue(ops, Between(x, low, high, false), f, r, agg)
         == RowValue(ops, Binary(And, Binary(GtEq, x, low), Binary(LtEq, x, high)), f, r, agg)
  {
  }

  // LIKE is that of the pattern; and NOT turns each of the three round.
  lemma NegationMeans(ops: Ops, x: Expr, list: seq<Value>, low: Expr, high: Expr, pattern: Text, f: Frame, r: nat,
                      agg: Expr -> Option<Value>)
    ensures RowValue(ops, InList(x, list, true), f, r, agg)
         == RowValue(ops, Unary(Not, InList(x, list, false)), f, r, agg)
    ensures RowValue(ops, Between(x, low, high, true), f, r, agg)
         == RowValue(ops, Unary(Not, Between(x, low, high, false)), f, r, agg)
    ensures RowValue(ops, Expr.Like(x, pattern, true), f, r, agg)
         == RowValue(ops, Unary(Not, Expr.Like(x, pattern, false)), f, r, agg)
    ensures RowValue(ops, x, f, r, agg).Some? && RowValue(ops, x, f, r, agg).value.Str? ==>
      RowValue(ops, Expr.Like(x, pattern, false), f, r, agg)
      == Some(Value.Bool(ops.like(pattern, RowValue(ops, x, f, r, agg).value.s)))
  {
    hide BinaryValue, AnyEqual;
  }

  // --- choice and casts -------------------------------------------------------------------------------

  lemma TwoArguments(ops: Ops, x: Expr, y: Expr, f: Frame, r: nat, agg: Expr -> Option<Value>, v: Value, w: Value)
    requires RowValue(ops, x, f, r, agg) == Some(v) && RowValue(ops, y, f, r, agg) == Some(w)
    ensures RowValues(ops, [x, y], f, r, agg) == Some([v, w])
  {
    hide RowValue;
    OneArgument(ops, y, f, r, agg, w);
    assert [x, y][1..] == [y] && [v] + [w] == [v, w];
    assert RowValues(ops, [x, y], f, r, agg) == Some([v] + [w]);
  }

  lemma ThreeArguments(ops: Ops, x: Expr, y: Expr, z: Expr, f: Frame, r: nat, agg: Expr -> Option<Value>, u: Value,
                       v: Value, w: Value)
    requires RowValue(ops, x, f, r, agg) == Some(u) && RowValue(ops, y, f, r, agg) == Some(v)
    requires RowValue(ops, z, f, r, agg) == Some(w)
    ensures RowValues(ops, [x, y, z], f, r, agg) == Some([u, v, w])
  {
    hide RowValue;
    TwoArguments(ops, y, z, f, r, agg, v, w);
    assert [x, y, z][1..] == [y, z] && [u] + [v, w] == [u, v, w];
    assert RowValues(ops, [x, y, z], f, r, agg) == Some([u] + [v, w]);
  }

  // IF gives the second argument when the first is true, else the third: texts as they are, numbers as
  // doubles.
  lemma IfMeans(ops: Ops, x: Expr, y: Expr, z: Expr, f: Frame, r: nat, agg: Expr -> Option<Value>, a: bool, v: Value,
                w: Value)
    requires RowValue(ops, x, f, r, agg) == Some(Value.Bool(a)) && RowValue(ops, y, f, r, agg) == Some(v)
    requires RowValue(ops, z, f, r, agg) == Some(w)
    ensures var e := RowValue(ops, Func(If, [x, y, z]), f, r, agg);
      && (v.Str? && w.Str? ==> e == Some(if a then v else w))
      && (Num(ops, v).Some? && Num(ops, w).Some? ==> e == Some(Value.F64(Num(ops, if a then v else w).value)))
  {
    hide RowValue, RowValues, FuncValue, Num;
    ThreeArguments(ops, x, y, z, f, r, agg, Value.Bool(a), v, w);
    Called(ops, If, [x, y, z], f, r, agg, [Value.Bool(a), v, w]);
    IfValue(ops, a, v, w);
  }

  lemma IfValue(ops: Ops, a: bool, v: Value, w: Value)
    ensures var e := FuncValue(ops, If, [Value.Bool(a), v, w]);
      && (v.Str? && w.Str? ==> e == Some(if a then v else w))
      && (Num(ops, v).Some? && Num(ops, w).Some? ==> e == Some(Value.F64(Num(ops, if a then v else w).value)))
  {
  }

  lemma CoalesceMeans(ops: Ops, x: Expr, rest: seq<Expr>, f: Frame, r: nat, agg: Expr -> Option<Value>)
    requires RowValues(ops, [x] + rest, f, r, agg).Some?
    ensures RowValue(ops, Func(Coalesce, [x] + rest), f, r, agg) == RowValue(ops, x, f, r, agg)
  {
    hide RowValue;
    assert ([x] + rest)[0] == x && ([x] + rest)[1..] == rest;
    FirstOfAll(ops, [x] + rest, f, r, agg);
    CoalesceValue(ops, [x] + rest, f, r, agg);
  }

  lemma FirstOfAll(ops: Ops, es: seq<Expr>, f: Frame, r: nat, agg: Expr -> Option<Value>)
    requires es != [] && RowValues(ops, es, f, r, agg).Some?
    ensures RowValue(ops, es[0], f, r, agg) == Some(RowValues(ops, es, f, r, agg).value[0])
  {
    hide RowValue;
  }

  lemma CoalesceValue(ops: Ops, es: seq<Expr>, f: Frame, r: nat, agg: Expr -> Option<Value>)
    requires es != [] && RowValues(ops, es, f, r, agg).Some?
    ensures RowValue(ops, Func(Coalesce, es), f, r, agg) == Some(RowValues(ops, es, f, r, agg).value[0])
  {
    hide RowValues;
  }

  // The functions on texts and doubles are handed their arguments in order; round without digits rounds
  // to none.
  lemma CallsMean(ops: Ops, x: Expr, y: Expr, z: Expr, f: Frame, r: nat, agg: Expr -> Option<Value>, u: Value,
                  v: Value, w: Value)
    requires RowValue(ops, x, f, r, agg) == Some(u) && RowValue(ops, y, f, r, agg) == Some(v)
    requires RowValue(ops, z, f, r, agg) == Some(w)
    ensures u.Str? ==> RowValue(ops, Func(Length, [x]), f, r, agg) == Some(Value.I64(ops.charCount(u.s)))
    ensures u.Str? && Num(ops, v).Some? ==>
      RowValue(ops, Func(Substring, [x, y]), f, r, agg)
      == Some(Value.Str(ops.substring(u.s, Num(ops, v).value, None)))
    ensures u.Str? && Num(ops, v).Some? && Num(ops, w).Some? ==>
      RowValue(ops, Func(Substring, [x, y, z]), f, r, agg)
      == Some(Value.Str(ops.substring(u.s, Num(ops, v).value, Some(Num(ops, w).value))))
    ensures Num(ops, u).Some? ==>
      RowValue(ops, Func(Round, [x]), f, r, agg) == Some(Value.F64(ops.round(Num(ops, u).value, 0)))
    ensures Num(ops, u).Some? && Num(ops, v).Some? ==>
      RowValue(ops, Func(Round, [x, y]), f, r, agg)
      == Some(Value.F64(ops.round(Num(ops, u).value, Num(ops, v).value)))
    ensures Num(ops, u).Some? ==> forall fn | fn in {Floor, Ceil, Sqrt} ::
      RowValue(ops, Func(fn, [x]), f, r, agg) == Some(Value.F64(ops.math(fn, Num(ops, u).value)))
  {
    hide RowValue, FuncValue, Num;
    OneArgument(ops, x, f, r, agg, u);
    TwoArguments(ops, x, y, f, r, agg, u, v);
    ThreeArguments(ops, x, y, z, f, r, agg, u, v, w);
    forall fn ensures RowValue(ops, Func(fn, [x]), f, r, agg) == FuncValue(ops, fn, [u]) {
      Called(ops, fn, [x], f, r, agg, [u]);
    }
    forall fn ensures RowValue(ops, Func(fn, [x, y]), f, r, agg) == FuncValue(ops, fn, [u, v]) {
      Called(ops, fn, [x, y], f, r, agg, [u, v]);
    }
    Called(ops, Substring, [x, y, z], f, r, agg, [u, v, w]);
    if u.Str? {
      TextCalls(ops, u, v, w);
    }
    if Num(ops, u).Some? {
      DoubleCalls(ops, u, v);
    }
  }

  lemma Called(ops: Ops, fn: ScalarFunc, args: seq<Expr>, f: Frame, r: nat, agg: Expr -> Option<Value>,
               vs: seq<Value>)
    requires RowValues(ops, args, f, r, agg) == Some(vs)
    ensures RowValue(ops, Func(fn, args), f, r, agg) == FuncValue(ops, fn, vs)
  {
    hide RowValues, FuncValue;
  }

  lemma TextCalls(ops: Ops, u: Value, v: Value, w: Value)
    requires u.Str?
    ensures FuncValue(ops, Length, [u]) == Some(Value.I64(ops.charCount(u.s)))
    ensures Num(ops, v).Some? ==>
      FuncValue(ops, Substring, [u, v]) == Some(Value.Str(ops.substring(u.s, Num(ops, v).value, None)))
    ensures Num(ops, v).Some? && Num(ops, w).Some? ==>
      FuncValue(ops, Substring, [u, v, w])
      == Some(Value.Str(ops.substring(u.s, Num(ops, v).value, Some(Num(ops, w).value))))
  {
    hide Num;
  }

  lemma DoubleCalls(ops: Ops, u: Value, v: Value)
    requires Num(ops, u).Some?
    ensures FuncValue(ops, Round, [u]) == Some(Value.F64(ops.round(Num(ops, u).value, 0)))
    ensures Num(ops, v).Some? ==>
      FuncValue(ops, Round, [u, v]) == Some(Value.F64(ops.round(Num(ops, u).value, Num(ops, v).value)))
    ensures forall fn | fn in {Floor, Ceil, Sqrt} ::
      FuncValue(ops, fn, [u]) == Some(Value.F64(ops.math(fn, Num(ops, u).value)))
  {
    hide Num;
  }

  // Where doubles hold the value, a cast to another numeric type and back gives it again; a text is read
  // as what it spells, and a number is written as it is rendered.
  lemma CastMeans(ops: Ops, x: Expr, f: Frame, r: nat, agg: Expr -> Option<Value>, v: Value)
    requires RowValue(ops, x, f, r, agg) == Some(v)
    ensures v.I64? && ops.toInt(ops.toDouble(v.i)) == v.i ==>
      && RowValue(ops, Expr.Cast(x, DataType.I64), f, r, agg) == Some(v)
      && RowValue(ops, Expr.Cast(Expr.Cast(x, DataType.F64), DataType.I64), f, r, agg) == Some(v)
    ensures v.F64? ==> RowValue(ops, Expr.Cast(x, DataType.F64), f, r, agg) == Some(v)
    ensures v.Bool? && ops.isZero(ops.toDouble(0)) && !ops.isZero(ops.toDouble(1)) ==>
      && RowValue(ops, Expr.Cast(x, DataType.Bool), f, r, agg) == Some(v)
      && RowValue(ops, Expr.Cast(Expr.Cast(x, DataType.F64), DataType.Bool), f, r, agg) == Some(v)
    ensures v.Str? ==>
      && RowValue(ops, Expr.Cast(x, DataType.I64), f, r, agg) == Some(Value.I64(ops.parseInt(v.s)))
      && RowValue(ops, Expr.Cast(x, DataType.F64), f, r, agg) == Some(Value.F64(ops.parseDouble(v.s)))
    ensures RowValue(ops, Expr.Cast(x, DataType.Str), f, r, agg) == Some(Value.Str(ops.render(v)))
  {
  }

  // --- leaves -----------------------------------------------------------------------------------------

  // A column has the value of its row, a literal is itself, a distance is that of the column's vector to
  // the query's, and an aggregate is given.
  lemma LeavesMean(ops: Ops, f: Frame, nrows: nat, r: nat, agg: Expr -> Option<Value>, i: nat, v: Value,
                   metric: Metric, query: seq<u32>, e: Expr)
    requires FrameValid(f, nrows) && r < nrows && i < |f|
    ensures RowValue(ops, Col(i), f, r, agg) == Some(f[i].Get(r))
    ensures !v.Vector? ==> RowValue(ops, Lit(v), f, r, agg) == Some(v)
    ensures f[i].Vector? ==>
      RowValue(ops, Expr.Distance(metric, i, query), f, r, agg)
      == Some(Value.F64(ops.distance(metric, f[i].Get(r).v, query)))
    ensures e.Agg? ==> RowValue(ops, e, f, r, agg) == agg(e)
  {
  }

  // --- types ------------------------------------------------------------------------------------------

  // A typed expression has a value of its type at every selected row.
  lemma TypedValue(ops: Ops, e: Expr, f: Frame, nrows: nat, sel: Sel, i: nat)
    requires FrameValid(f, nrows) && SelOk(sel, nrows) && Typed(ops, e, FrameTypes(f)).Some? && i < sel.Len()
    ensures var v := RowValue(ops, e, f, sel.Row(i), NO_AGG);
      && v.Some?
      && (Typed(ops, e, FrameTypes(f)) == Some(DataType.I64) ==> v.value.I64?)
      && (Typed(ops, e, FrameTypes(f)) == Some(DataType.Str) ==> v.value.Str?)
  {
    EvalExact(ops, e, f, nrows, sel);
    hide Eval, Typed, RowValue;
  }
}
