/** The query representation (`src/plan.rs`): expressions, and their rewriting in one pass. */
module Plan {
  import opened Bytes
  import opened Wrappers
  import opened Columns

  datatype BinOp = Add | Sub | Mul | Div | Mod | Eq | NotEq | Lt | LtEq | Gt | GtEq | And | Or

  datatype UnOp = Not | Neg

  datatype AggFunc = Count | Sum | Avg | Min | Max

  datatype Metric = L2 | Cosine | NegInnerProduct

  datatype ScalarFunc =
    | Length | Abs | Floor | Ceil | Round | Sqrt | Substring
    | ExtractHour | ExtractMinute | ExtractDay | ExtractMonth | ExtractYear
    | Coalesce | If | DateTrunc

  datatype Expr =
    | Col(i: nat)
    | Lit(v: Value)
    | Binary(op: BinOp, l: Expr, r: Expr)
    | Unary(uop: UnOp, e: Expr)
    | Like(e: Expr, pattern: Text, negated: bool)
    | InList(e: Expr, list: seq<Value>, negated: bool)
    | Between(e: Expr, low: Expr, high: Expr, negated: bool)
    | Func(f: ScalarFunc, args: seq<Expr>)
    | Distance(metric: Metric, col: nat, query: seq<u32>)
    | Agg(agg: AggFunc, arg: Option<Expr>, distinct: bool)
    | Cast(e: Expr, ty: DataType)
  {
    // The operands, from left to right.
    function Children(): (cs: seq<Expr>)
      ensures forall c :: c in cs ==> c < this
    {
      match this
      case Binary(_, l, r) => [l, r]
      case Unary(_, e) => [e]
      case Like(e, _, _) => [e]
      case InList(e, _, _) => [e]
      case Between(e, low, high, _) => [e, low, high]
      case Func(_, args) => args
      case Agg(_, arg, _) => if arg.Some? then [arg.value] else []
      case Cast(e, _) => [e]
      case _ => []
    }
  }

  // --- equality -------------------------------------------------------------------------------------

  // When two doubles, and two floats of a vector, count as equal.
  datatype Equality = Equality(doubles: (u64, u64) -> bool, floats: (u32, u32) -> bool)

  // Bit by bit: under it, expressions are equal exactly when they are the same.
  const BITS: Equality := Equality((x: u64, y: u64) => x == y, (x: u32, y: u32) => x == y)

  predicate SameFloats(eq: Equality, v: seq<u32>, w: seq<u32>) {
    |v| == |w| && forall i :: 0 <= i < |v| ==> eq.floats(v[i], w[i])
  }

  predicate SameValue(eq: Equality, a: Value, b: Value) {
    match (a, b)
    case (F64(x), F64(y)) => eq.doubles(x, y)
    case (Vector(v), Vector(w)) => SameFloats(eq, v, w)
    case _ => a == b
  }

  // The equality that is derived for `Expr`: part by part, literals by their values.
  predicate Same(eq: Equality, a: Expr, b: Expr)
    decreases a
  {
    match (a, b)
    case (Lit(v), Lit(w)) => SameValue(eq, v, w)
    case (Binary(op, l, r), Binary(op', l', r')) => op == op' && Same(eq, l, l') && Same(eq, r, r')
    case (Unary(op, x), Unary(op', x')) => op == op' && Same(eq, x, x')
    case (Like(x, p, n), Like(x', p', n')) => Same(eq, x, x') && p == p' && n == n'
    case (InList(x, vs, n), InList(x', vs', n')) =>
      && Same(eq, x, x') && n == n' && |vs| == |vs'|
      && forall i :: 0 <= i < |vs| ==> SameValue(eq, vs[i], vs'[i])
    case (Between(x, l, h, n), Between(x', l', h', n')) =>
      Same(eq, x, x') && Same(eq, l, l') && Same(eq, h, h') && n == n'
    case (Func(f, xs), Func(f', xs')) =>
      f == f' && |xs| == |xs'| && forall i :: 0 <= i < |xs| ==> Same(eq, xs[i], xs'[i])
    case (Distance(m, c, v), Distance(m', c', w)) => m == m' && c == c' && SameFloats(eq, v, w)
    case (Agg(f, x, d), Agg(f', x', d')) =>
      f == f' && d == d' && x.Some? == x'.Some? && (x.Some? ==> Same(eq, x.value, x'.value))
    case (Cast(x, t), Cast(x', t')) => Same(eq, x, x') && t == t'
    case _ => a == b
  }

  // --- rewriting ------------------------------------------------------------------------------------

  // A replacement: the first of the patterns that equals the expression, if any.
  function Replacement(eq: Equality, e: Expr, pats: seq<(Expr, Expr)>): Option<Expr> {
    if pats == [] then None
    else if Same(eq, e, pats[0].0) then Some(pats[0].1)
    else Replacement(eq, e, pats[1..])
  }

  // `substitute`: top down and in one pass; what was replaced is not looked into again.
  function Substitute(eq: Equality, e: Expr, pats: seq<(Expr, Expr)>): Expr
    decreases e, 1
  {
    match Replacement(eq, e, pats)
    case Some(to) => to
    case None =>
      match e
      case Binary(op, l, r) => Binary(op, Substitute(eq, l, pats), Substitute(eq, r, pats))
      case Unary(op, x) => Unary(op, Substitute(eq, x, pats))
      case Like(x, pattern, negated) => Like(Substitute(eq, x, pats), pattern, negated)
      case InList(x, list, negated) => InList(Substitute(eq, x, pats), list, negated)
      case Between(x, low, high, negated) =>
        Between(Substitute(eq, x, pats), Substitute(eq, low, pats), Substitute(eq, high, pats), negated)
      case Func(f, args) => Func(f, SubstituteAll(eq, args, pats))
      case Agg(f, arg, distinct) =>
        Agg(f, if arg.Some? then Some(Substitute(eq, arg.value, pats)) else None, distinct)
      case Cast(x, ty) => Cast(Substitute(eq, x, pats), ty)
      case _ => e
  }

  function SubstituteAll(eq: Equality, es: seq<Expr>, pats: seq<(Expr, Expr)>): (r: seq<Expr>)
    ensures |r| == |es|
    ensures forall i :: 0 <= i < |es| ==> r[i] == Substitute(eq, es[i], pats)
    decreases es, 0
  {
    if es == [] then [] else [Substitute(eq, es[0], pats)] + SubstituteAll(eq, es[1..], pats)
  }

  // `contains_agg`, the walk that stops at the first aggregate.
  predicate ContainsAgg(e: Expr) {
    e.Agg? || exists c :: c in e.Children() && ContainsAgg(c)
  }

  // The expression depends on a column in a place that decides the length of its array.
  predicate Varies(e: Expr)
    decreases e
  {
    match e
    case Col(_) => true
    case Distance(_, _, _) => true
    case Binary(_, l, r) => Varies(l) || Varies(r)
    case Unary(_, x) => Varies(x)
    case Like(x, _, _) => Varies(x)
    case InList(x, _, _) => Varies(x)
    case Between(x, low, high, _) => Varies(x) || Varies(low) || Varies(high)
    case Cast(x, _) => Varies(x)
    case Func(fn, args) =>
      if fn == Substring || fn == If then exists i :: 0 <= i < |args| && Varies(args[i])
      else if fn == DateTrunc then |args| > 1 && Varies(args[1])
      else |args| > 0 && Varies(args[0])
    case _ => false
  }

  datatype Projection = Projection(expr: Expr, alias: Text)

  datatype OrderKey = OrderKey(expr: Expr, asc: bool)

  datatype Select = Select(
    filter: Option<Expr>, groupBy: seq<Expr>, having: Option<Expr>,
    projection: seq<Projection>, orderBy: seq<OrderKey>, limit: Option<nat>, offset: nat)
  {
    predicate IsAggregate() {
      || groupBy != []
      || (exists i :: 0 <= i < |projection| && ContainsAgg(projection[i].expr))
      || (exists i :: 0 <= i < |orderBy| && ContainsAgg(orderBy[i].expr))
    }
  }
}
