/** Scalar functions and casts over arrays (`src/exec.rs`), against their values at one row. */
module Functions {
  import opened Bytes
  import opened Wrappers
  import opened Columns
  import opened Plan
  import opened Arrays
  import Calendar

  lemma MapAt<T, U>(f: T -> U, v: seq<T>, n: nat)
    requires |v| == 1 || |v| == n
    ensures forall i :: 0 <= i < n ==> At(Map(f, v), i) == f(At(v, i))
  {
  }

  // --- units and parts of time ----------------------------------------------------------------------

  const SECOND: bytes := [115, 101, 99, 111, 110, 100]
  const MINUTE: bytes := [109, 105, 110, 117, 116, 101]
  const HOUR: bytes := [104, 111, 117, 114]
  const DAY: bytes := [100, 97, 121]

  function UnitStep(u: bytes): Option<int> {
    if u == SECOND then Some(1)
    else if u == MINUTE then Some(60)
    else if u == HOUR then Some(3600)
    else if u == DAY then Some(86400)
    else None
  }

  function PartOf(f: ScalarFunc): Calendar.Part {
    match f
    case ExtractHour => Calendar.Hour
    case ExtractMinute => Calendar.Minute
    case ExtractDay => Calendar.Day
    case ExtractMonth => Calendar.Month
    case _ => Calendar.Year
  }

  // --- one argument ---------------------------------------------------------------------------------

  function AbsInt(x: i64): i64 {
    if x == -TWO63 then TWO63 - 1 else if x < 0 then -x else x
  }

  function MathFn(ops: Ops, f: ScalarFunc): (g: u64 -> u64)
    ensures forall x: u64 :: g(x) == ops.math(f, x)
  {
    x => ops.math(f, x)
  }

  function RoundFn(ops: Ops, digits: u64): (g: u64 -> u64)
    ensures forall x: u64 :: g(x) == ops.round(x, digits)
  {
    x => ops.round(x, digits)
  }

  function ExtractFn(ops: Ops, f: ScalarFunc): (g: u64 -> i64)
    ensures forall x: u64 :: g(x) == Saturate(Calendar.ExtractPart(PartOf(f), ops.toInt(x)))
  {
    x => Saturate(Calendar.ExtractPart(PartOf(f), ops.toInt(x)))
  }

  function TruncFn(ops: Ops, step: int): (g: u64 -> i64)
    requires step > 0
    ensures forall x: u64 :: g(x) == Saturate(Calendar.Truncated(ops.toInt(x), step))
  {
    x => Saturate(Calendar.Truncated(ops.toInt(x), step))
  }

  // --- several arguments ----------------------------------------------------------------------------

  // The length of the result: that of the first argument that is not a constant.
  function FirstLen(args: seq<Arr>): nat {
    if args == [] then 1 else if args[0].Len() != 1 then args[0].Len() else FirstLen(args[1..])
  }

  lemma {:induction false} FirstLenSpread(args: seq<Arr>, n: nat)
    requires forall i :: 0 <= i < |args| ==> args[i].Len() == 1 || args[i].Len() == n
    ensures FirstLen(args) == 1 || FirstLen(args) == n
    ensures forall i :: 0 <= i < |args| ==> args[i].Len() == 1 || args[i].Len() == FirstLen(args)
  {
    if args != [] {
      FirstLenSpread(args[1..], n);
      forall i | 0 <= i < |args|
        ensures args[i].Len() == 1 || args[i].Len() == FirstLen(args)
      {
        assert i > 0 ==> args[i] == args[1..][i - 1];
      }
    }
  }

  predicate Fitting<T>(v: seq<T>, n: nat) {
    |v| == 1 || |v| == n
  }

  function IfRows<T>(n: nat, cond: seq<byte>, x: seq<T>, y: seq<T>): (r: seq<T>)
    requires Fitting(cond, n) && Fitting(x, n) && Fitting(y, n)
    ensures |r| == n && forall i :: 0 <= i < n ==> r[i] == if At(cond, i) != 0 then At(x, i) else At(y, i)
  {
    seq(n, i requires 0 <= i < n => if At(cond, i) != 0 then At(x, i) else At(y, i))
  }

  function SubstringRows(ops: Ops, n: nat, s: seq<Text>, start: seq<u64>, count: Option<seq<u64>>): (r: seq<Text>)
    requires Fitting(s, n) && Fitting(start, n) && (count.Some? ==> Fitting(count.value, n))
    ensures |r| == n && forall i :: 0 <= i < n ==>
      r[i] == ops.substring(At(s, i), At(start, i), if count.Some? then Some(At(count.value, i)) else None)
  {
    seq<Text>(n, i requires 0 <= i < n =>
      ops.substring(At(s, i), At(start, i), if count.Some? then Some(At(count.value, i)) else None))
  }

  function EvalFunc(ops: Ops, f: ScalarFunc, args: seq<Arr>): Result<Arr> {
    var n := FirstLen(args);
    if |args| == 0 then Err(BadArity)
    else
      match f
      case ExtractHour | ExtractMinute | ExtractDay | ExtractMonth | ExtractYear =>
        var v :- ToDoubles(ops, args[0]);
        Ok(Arr.I64(Map(ExtractFn(ops, f), v)))
      case Length => if args[0].Str? then Ok(Arr.I64(Map(ops.charCount, args[0].ss))) else Err(BadType)
      case Abs =>
        if args[0].I64? then Ok(Arr.I64(Map(AbsInt, args[0].ns)))
        else
          var v :- ToDoubles(ops, args[0]);
          Ok(Arr.F64(Map(MathFn(ops, Abs), v)))
      case Round =>
        var v :- ToDoubles(ops, args[0]);
        if |args| == 1 then Ok(Arr.F64(Map(RoundFn(ops, 0), v)))
        else
          var d :- ToDoubles(ops, args[1]);
          Ok(Arr.F64(Map(RoundFn(ops, if d == [] then 0 else d[0]), v)))
      case Substring =>
        if !args[0].Str? then Err(BadType)
        else if |args| < 2 then Err(BadArity)
        else
          var start :- ToDoubles(ops, args[1]);
          if |args| == 2 then
            if !Fitting(args[0].ss, n) || !Fitting(start, n) then Err(BadArity)
            else Ok(Arr.Str(SubstringRows(ops, n, args[0].ss, start, None)))
          else
            var count :- ToDoubles(ops, args[2]);
            if !Fitting(args[0].ss, n) || !Fitting(start, n) || !Fitting(count, n) then Err(BadArity)
            else Ok(Arr.Str(SubstringRows(ops, n, args[0].ss, start, Some(count))))
      case DateTrunc =>
        if !args[0].Str? || |args| < 2 || args[0].ss == [] then Err(BadType)
        else
          var secs :- ToDoubles(ops, args[1]);
          (match UnitStep(ops.lower(args[0].ss[0]))
           case None => Err(BadType)
           case Some(step) => Ok(Arr.I64(Map(TruncFn(ops, step), secs))))
      case Coalesce => Ok(args[0])
      case If =>
        if |args| < 3 then Err(BadArity)
        else
          var cond :- AsBools(args[0]);
          if args[1].Str? && args[2].Str? then
            if !Fitting(cond, n) || !Fitting(args[1].ss, n) || !Fitting(args[2].ss, n) then Err(BadArity)
            else Ok(Arr.Str(IfRows(n, cond, args[1].ss, args[2].ss)))
          else
            var x :- ToDoubles(ops, args[1]);
            var y :- ToDoubles(ops, args[2]);
            if !Fitting(cond, n) || !Fitting(x, n) || !Fitting(y, n) then Err(BadArity)
            else Ok(Arr.F64(IfRows(n, cond, x, y)))
      case _ =>
        var v :- ToDoubles(ops, args[0]);
        Ok(Arr.F64(Map(MathFn(ops, f), v)))
  }

  // --- the meaning at one row -----------------------------------------------------------------------

  function FuncValue(ops: Ops, f: ScalarFunc, args: seq<Value>): Option<Value> {
    if |args| == 0 then None
    else
      match f
      case ExtractHour | ExtractMinute | ExtractDay | ExtractMonth | ExtractYear =>
        (match Num(ops, args[0])
         case None => None
         case Some(x) => Some(Value.I64(Saturate(Calendar.ExtractPart(PartOf(f), ops.toInt(x))))))
      case Length => if args[0].Str? then Some(Value.I64(ops.charCount(args[0].s))) else None
      case Abs =>
        if args[0].I64? then Some(Value.I64(AbsInt(args[0].i)))
        else (match Num(ops, args[0])
              case None => None
              case Some(x) => Some(Value.F64(ops.math(Abs, x))))
      case Round =>
        (match (Num(ops, args[0]), if |args| == 1 then Some(0) else Num(ops, args[1]))
         case (Some(x), Some(d)) => Some(Value.F64(ops.round(x, d)))
         case _ => None)
      case Substring =>
        if !args[0].Str? || |args| < 2 then None
        else
          (match (Num(ops, args[1]), if |args| == 2 then Some(0) else Num(ops, args[2]))
           case (Some(start), Some(count)) =>
             Some(Value.Str(ops.substring(args[0].s, start, if |args| == 2 then None else Some(count))))
           case _ => None)
      case DateTrunc =>
        if !args[0].Str? || |args| < 2 then None
        else
          (match (UnitStep(ops.lower(args[0].s)), Num(ops, args[1]))
           case (Some(step), Some(x)) => Some(Value.I64(Saturate(Calendar.Truncated(ops.toInt(x), step))))
           case _ => None)
      case Coalesce => Some(args[0])
      case If =>
        if |args| < 3 || !args[0].Bool? then None
        else if args[1].Str? && args[2].Str? then Some(if args[0].b then args[1] else args[2])
        else
          (match (Num(ops, args[1]), Num(ops, args[2]))
           case (Some(x), Some(y)) => Some(Value.F64(if args[0].b then x else y))
           case _ => None)
      case _ =>
        match Num(ops, args[0])
        case None => None
        case Some(x) => Some(Value.F64(ops.math(f, x)))
  }

  // The type of the result, when the arguments' types and number fit.
  function FuncType(f: ScalarFunc, types: seq<DataType>): Option<DataType> {
    if |types| == 0 then None
    else
      match f
      case ExtractHour | ExtractMinute | ExtractDay | ExtractMonth | ExtractYear =>
        if |types| == 1 && Numeric(types[0]) then Some(DataType.I64) else None
      case Length => if |types| == 1 && types[0].Str? then Some(DataType.I64) else None
      case Abs =>
        if |types| != 1 || !Numeric(types[0]) then None
        else if types[0].I64? then Some(DataType.I64) else Some(DataType.F64)
      case Round =>
        if |types| <= 2 && Numeric(types[0]) && (|types| == 2 ==> Numeric(types[1])) then Some(DataType.F64) else None
      case Substring =>
        if 2 <= |types| <= 3 && types[0].Str? && Numeric(types[1]) && (|types| == 3 ==> Numeric(types[2]))
        then Some(DataType.Str) else None
      case DateTrunc => if |types| == 2 && types[0].Str? && Numeric(types[1]) then Some(DataType.I64) else None
      case Coalesce => Some(types[0])
      case If =>
        if |types| != 3 || !types[0].Bool? then None
        else if types[1].Str? && types[2].Str? then Some(DataType.Str)
        else if Numeric(types[1]) && Numeric(types[2]) then Some(DataType.F64) else None
      case _ => if |types| == 1 && Numeric(types[0]) then Some(DataType.F64) else None
  }

  function TypesOf(args: seq<Arr>): (ts: seq<DataType>)
    ensures |ts| == |args| && forall i :: 0 <= i < |args| ==> ts[i] == args[i].Type()
  {
    seq(|args|, i requires 0 <= i < |args| => args[i].Type())
  }

  function ValuesAt(args: seq<Arr>, i: nat): (vs: seq<Value>)
    requires forall k :: 0 <= k < |args| ==> args[k].Len() == 1 || i < args[k].Len()
    ensures |vs| == |args| && forall k :: 0 <= k < |args| ==> vs[k] == args[k].Value(i)
  {
    seq(|args|, k requires 0 <= k < |args| => args[k].Value(i))
  }

  // The number of digits and the unit of time are taken from the first entry: they must be constants.
  predicate ConstantsFit(ops: Ops, f: ScalarFunc, args: seq<Arr>) {
    && (f == Round && |args| == 2 ==> args[1].Len() == 1)
    && (f == DateTrunc && |args| == 2 && args[0].Str? ==>
          args[0].Len() == 1 && UnitStep(ops.lower(args[0].ss[0])).Some?)
  }

  ghost predicate FuncExact(ops: Ops, f: ScalarFunc, n: nat, args: seq<Arr>, res: Result<Arr>)
    requires forall k :: 0 <= k < |args| ==> args[k].Len() == 1 || args[k].Len() == n
  {
    && res.Ok? && Spread(res.value, n) && Clean(res.value)
    && FuncType(f, TypesOf(args)) == Some(res.value.Type())
    && forall i :: 0 <= i < n ==> FuncValue(ops, f, ValuesAt(args, i)) == Some(res.value.Value(i))
  }

  lemma ExtractExact(ops: Ops, f: ScalarFunc, n: nat, args: seq<Arr>)
    requires forall k :: 0 <= k < |args| ==> (args[k].Len() == 1 || args[k].Len() == n) && Clean(args[k])
    requires FuncType(f, TypesOf(args)).Some?
    requires f in {ExtractHour, ExtractMinute, ExtractDay, ExtractMonth, ExtractYear}
    ensures FuncExact(ops, f, n, args, EvalFunc(ops, f, args))
  {
    NumsAt(ops, args[0], n);
    MapAt(ExtractFn(ops, f), ToDoubles(ops, args[0]).value, n);
    hide ToDoubles, Num, Calendar.ExtractPart, At;
  }

  lemma MathExact(ops: Ops, f: ScalarFunc, n: nat, args: seq<Arr>)
    requires forall k :: 0 <= k < |args| ==> (args[k].Len() == 1 || args[k].Len() == n) && Clean(args[k])
    requires FuncType(f, TypesOf(args)).Some? && f in {Abs, Floor, Ceil, Sqrt}
    ensures FuncExact(ops, f, n, args, EvalFunc(ops, f, args))
  {
    NumsAt(ops, args[0], n);
    MapAt(MathFn(ops, f), ToDoubles(ops, args[0]).value, n);
    if args[0].I64? {
      MapAt(AbsInt, args[0].ns, n);
    }
    hide ToDoubles, Num, At;
  }

  lemma LengthExact(ops: Ops, f: ScalarFunc, n: nat, args: seq<Arr>)
    requires forall k :: 0 <= k < |args| ==> (args[k].Len() == 1 || args[k].Len() == n) && Clean(args[k])
    requires FuncType(f, TypesOf(args)).Some? && ConstantsFit(ops, f, args)
    requires f == Length || f == Coalesce
    ensures FuncExact(ops, f, n, args, EvalFunc(ops, f, args))
  {
  }

  lemma RoundExact(ops: Ops, f: ScalarFunc, n: nat, args: seq<Arr>)
    requires forall k :: 0 <= k < |args| ==> (args[k].Len() == 1 || args[k].Len() == n) && Clean(args[k])
    requires FuncType(f, TypesOf(args)).Some? && ConstantsFit(ops, f, args)
    requires f == Round
    ensures FuncExact(ops, f, n, args, EvalFunc(ops, f, args))
  {
    forall k | 0 <= k < |args| && Numeric(args[k].Type()) {
      NumsAt(ops, args[k], n);
    }
    hide ToDoubles, Num;
  }

  lemma SubstringExact(ops: Ops, f: ScalarFunc, n: nat, args: seq<Arr>)
    requires forall k :: 0 <= k < |args| ==> (args[k].Len() == 1 || args[k].Len() == n) && Clean(args[k])
    requires FuncType(f, TypesOf(args)).Some? && ConstantsFit(ops, f, args)
    requires f == Substring
    ensures FuncExact(ops, f, n, args, EvalFunc(ops, f, args))
  {
    FirstLenSpread(args, n);
    forall k | 0 <= k < |args| && Numeric(args[k].Type()) {
      NumsAt(ops, args[k], n);
    }
    hide ToDoubles, Num, FirstLen;
  }

  lemma DateTruncExact(ops: Ops, f: ScalarFunc, n: nat, args: seq<Arr>)
    requires forall k :: 0 <= k < |args| ==> (args[k].Len() == 1 || args[k].Len() == n) && Clean(args[k])
    requires FuncType(f, TypesOf(args)).Some? && ConstantsFit(ops, f, args)
    requires f == DateTrunc
    ensures FuncExact(ops, f, n, args, EvalFunc(ops, f, args))
  {
    NumsAt(ops, args[1], n);
    hide ToDoubles, Num, FirstLen, UnitStep, Calendar.Truncated;
  }

  lemma IfRowsSpread<T>(cond: seq<byte>, x: seq<T>, y: seq<T>, m: nat, n: nat)
    requires Fitting(cond, m) && Fitting(x, m) && Fitting(y, m) && (m == 1 || m == n)
    ensures |IfRows(m, cond, x, y)| == m
    ensures forall i :: 0 <= i < n ==> At(IfRows(m, cond, x, y), i) == if At(cond, i) != 0 then At(x, i) else At(y, i)
  {
  }

  lemma IfTextsExact(ops: Ops, n: nat, args: seq<Arr>)
    requires forall k :: 0 <= k < |args| ==> (args[k].Len() == 1 || args[k].Len() == n) && Clean(args[k])
    requires |args| == 3 && args[0].Bool? && args[1].Str? && args[2].Str?
    ensures FuncExact(ops, If, n, args, EvalFunc(ops, If, args))
  {
    FirstLenSpread(args, n);
    IfRowsSpread(args[0].bs, args[1].ss, args[2].ss, FirstLen(args), n);
    hide ToDoubles, Num, FirstLen, At, IfRows;
  }

  lemma IfNumbersExact(ops: Ops, n: nat, args: seq<Arr>)
    requires forall k :: 0 <= k < |args| ==> (args[k].Len() == 1 || args[k].Len() == n) && Clean(args[k])
    requires |args| == 3 && args[0].Bool? && Numeric(args[1].Type()) && Numeric(args[2].Type())
    ensures FuncExact(ops, If, n, args, EvalFunc(ops, If, args))
  {
    FirstLenSpread(args, n);
    NumsAt(ops, args[1], n);
    NumsAt(ops, args[2], n);
    var x, y := ToDoubles(ops, args[1]).value, ToDoubles(ops, args[2]).value;
    IfRowsSpread(args[0].bs, x, y, FirstLen(args), n);
    hide ToDoubles, Num, FirstLen, At, IfRows;
  }

  lemma IfExact(ops: Ops, f: ScalarFunc, n: nat, args: seq<Arr>)
    requires forall k :: 0 <= k < |args| ==> (args[k].Len() == 1 || args[k].Len() == n) && Clean(args[k])
    requires FuncType(f, TypesOf(args)).Some? && ConstantsFit(ops, f, args)
    requires f == If
    ensures FuncExact(ops, f, n, args, EvalFunc(ops, f, args))
  {
    hide EvalFunc, FuncExact, ConstantsFit, Clean;
    if args[1].Str? && args[2].Str? {
      IfTextsExact(ops, n, args);
    } else {
      IfNumbersExact(ops, n, args);
    }
  }

  // Every scalar function, on arguments of the right types and number, gives an array that holds
  // the function's value for every row of the selection, the empty selection included.
  lemma FuncIsExact(ops: Ops, f: ScalarFunc, n: nat, args: seq<Arr>)
    requires forall k :: 0 <= k < |args| ==> (args[k].Len() == 1 || args[k].Len() == n) && Clean(args[k])
    requires FuncType(f, TypesOf(args)).Some? && ConstantsFit(ops, f, args)
    ensures FuncExact(ops, f, n, args, EvalFunc(ops, f, args))
  {
    hide EvalFunc, FuncValue, FuncType, FuncExact, ConstantsFit;
    if f == Length || f == Coalesce {
      LengthExact(ops, f, n, args);
    } else if f == Round {
      RoundExact(ops, f, n, args);
    } else if f == Substring {
      SubstringExact(ops, f, n, args);
    } else if f == DateTrunc {
      DateTruncExact(ops, f, n, args);
    } else if f == If {
      IfExact(ops, f, n, args);
    } else if f in {ExtractHour, ExtractMinute, ExtractDay, ExtractMonth, ExtractYear} {
      ExtractExact(ops, f, n, args);
    } else {
      MathExact(ops, f, n, args);
    }
  }

  // --- arguments that must be constant ----------------------------------------------------------------

  // Every row has the function's value, or none has one and the evaluation fails.
  ghost predicate RowsRight(ops: Ops, f: ScalarFunc, n: nat, args: seq<Arr>)
    requires forall k :: 0 <= k < |args| ==> args[k].Len() == 1 || args[k].Len() == n
  {
    match EvalFunc(ops, f, args)
    case Ok(r) => Spread(r, n) && forall i :: 0 <= i < n ==> FuncValue(ops, f, ValuesAt(args, i)) == Some(r.Value(i))
    case Err(_) => forall i :: 0 <= i < n ==> FuncValue(ops, f, ValuesAt(args, i)) == None
  }

  lemma TwoValues(a: Arr, b: Arr, i: nat)
    requires (a.Len() == 1 || i < a.Len()) && (b.Len() == 1 || i < b.Len())
    ensures ValuesAt([a, b], i) == [a.Value(i), b.Value(i)]
  {
  }

  // Without a constant number of digits, every row is rounded to the digits of the first row.
  lemma RoundTakesFirstDigits(ops: Ops, x: Arr, d: Arr, n: nat, i: nat)
    requires Spread(x, n) && Spread(d, n) && Clean(x) && Clean(d) && Numeric(x.Type()) && Numeric(d.Type()) && i < n
    ensures EvalFunc(ops, Round, [x, d]).Ok?
    ensures (x.Len() == 1 || i < x.Len()) && EvalFunc(ops, Round, [x, d]).value.Len() == x.Len()
    ensures FuncValue(ops, Round, [x.Value(i), d.Value(0)]) == Some(EvalFunc(ops, Round, [x, d]).value.Value(i))
  {
    NumsAt(ops, x, n);
    NumsAt(ops, d, n);
    hide ToDoubles, Num;
  }

  // Operations that keep numbers apart, and show the digits they round to.
  function ShowDigits(): Ops {
    Ops(x => AsU64(x), x => 0, (op, x, y) => 0, x => 0, (x, y) => None, x => false, (f, x) => 0, (x, d) => d,
        s => 0, (s, a, b) => [], s => s, (p, s) => false, s => 0, s => 0, v => [], (m, v, w) => 0,
        (x, y) => x, (x, y) => y, s => 0, (x, y) => false)
  }

  // Rounding is right, whatever rounding is, if and only if all rows ask for the same digits.
  lemma RoundRightIff(x: Arr, d: Arr, n: nat)
    requires Spread(x, n) && Spread(d, n) && Clean(x) && Clean(d) && Numeric(x.Type()) && Numeric(d.Type())
    ensures (forall ops: Ops :: RowsRight(ops, Round, n, [x, d])) <==>
            (forall i :: 0 <= i < n ==> d.Value(i) == d.Value(0))
  {
    if forall i :: 0 <= i < n ==> d.Value(i) == d.Value(0) {
      forall ops: Ops ensures RowsRight(ops, Round, n, [x, d]) {
        SameDigits(ops, x, d, n);
      }
    } else {
      var i :| 0 <= i < n && d.Value(i) != d.Value(0);
      OtherDigits(x, d, n, i);
    }
  }

  lemma SameDigits(ops: Ops, x: Arr, d: Arr, n: nat)
    requires Spread(x, n) && Spread(d, n) && Clean(x) && Clean(d) && Numeric(x.Type()) && Numeric(d.Type())
    requires forall i :: 0 <= i < n ==> d.Value(i) == d.Value(0)
    ensures RowsRight(ops, Round, n, [x, d])
  {
    hide FuncValue, EvalFunc, Arr.Value, Clean;
    RoundEvaluates(ops, x, d, n);
    forall i | 0 <= i < n
      ensures FuncValue(ops, Round, ValuesAt([x, d], i)) == Some(EvalFunc(ops, Round, [x, d]).value.Value(i))
    {
      TwoValues(x, d, i);
      RoundTakesFirstDigits(ops, x, d, n, i);
    }
  }

  lemma RoundEvaluates(ops: Ops, x: Arr, d: Arr, n: nat)
    requires Spread(x, n) && Spread(d, n) && Numeric(x.Type()) && Numeric(d.Type())
    ensures EvalFunc(ops, Round, [x, d]).Ok? && Spread(EvalFunc(ops, Round, [x, d]).value, n)
  {
    DoublesLen(ops, x);
    DoublesLen(ops, d);
    hide ToDoubles;
  }

  lemma OtherDigits(x: Arr, d: Arr, n: nat, i: nat)
    requires Spread(x, n) && Spread(d, n) && Clean(x) && Clean(d) && Numeric(x.Type()) && Numeric(d.Type())
    requires i < n && d.Value(i) != d.Value(0)
    ensures !RowsRight(ShowDigits(), Round, n, [x, d])
  {
    var ops := ShowDigits();
    RoundEvaluates(ops, x, d, n);
    RoundTakesFirstDigits(ops, x, d, n, i);
    TwoValues(x, d, i);
    DigitsShown(x.Value(i), d.Value(i));
    DigitsShown(x.Value(i), d.Value(0));
    NumsDiffer(d, i);
    hide EvalFunc, FuncValue, ShowDigits, Arr.Value, Clean;
    assert FuncValue(ops, Round, ValuesAt([x, d], i)) != Some(EvalFunc(ops, Round, [x, d]).value.Value(i));
  }

  lemma DigitsShown(x: Value, d: Value)
    requires (x.I64? || x.F64? || x.Bool?) && (d.I64? || d.F64? || d.Bool?)
    ensures Num(ShowDigits(), d).Some?
    ensures FuncValue(ShowDigits(), Round, [x, d]) == Some(Value.F64(Num(ShowDigits(), d).value))
  {
  }

  lemma NumsDiffer(d: Arr, i: nat)
    requires Numeric(d.Type()) && (d.Len() == 1 || i < d.Len()) && d.Value(i) != d.Value(0)
    ensures Num(ShowDigits(), d.Value(i)) != Num(ShowDigits(), d.Value(0))
  {
  }

  // The unit that a row of date_trunc asks for.
  function UnitAt(ops: Ops, u: Arr, i: nat): Option<int>
    requires u.Str? && (u.Len() == 1 || i < u.Len())
  {
    UnitStep(ops.lower(u.Value(i).s))
  }

  lemma TruncEvaluates(ops: Ops, u: Arr, s: Arr, n: nat)
    requires Spread(u, n) && Spread(s, n) && n > 0 && u.Str? && Numeric(s.Type()) && Clean(s)
    ensures UnitAt(ops, u, 0).None? ==> EvalFunc(ops, DateTrunc, [u, s]).Err?
    ensures UnitAt(ops, u, 0).Some? ==>
      var r := EvalFunc(ops, DateTrunc, [u, s]);
      && r.Ok? && Spread(r.value, n)
      && forall i :: 0 <= i < n ==>
           && Num(ops, s.Value(i)).Some?
           && r.value.Value(i) == Value.I64(TruncFn(ops, UnitAt(ops, u, 0).value)(Num(ops, s.Value(i)).value))
  {
    NumsAt(ops, s, n);
    hide ToDoubles, Num, UnitStep, Calendar.Truncated;
  }

  lemma TruncValue(ops: Ops, u: Arr, s: Arr, i: nat)
    requires (u.Len() == 1 || i < u.Len()) && (s.Len() == 1 || i < s.Len()) && u.Str? && Num(ops, s.Value(i)).Some?
    ensures FuncValue(ops, DateTrunc, [u.Value(i), s.Value(i)])
         == match UnitAt(ops, u, i)
            case None => None
            case Some(step) => Some(Value.I64(TruncFn(ops, step)(Num(ops, s.Value(i)).value)))
  {
    hide UnitStep, Calendar.Truncated, Num;
  }

  lemma NumericValue(ops: Ops, s: Arr, i: nat)
    requires Numeric(s.Type()) && (s.Len() == 1 || i < s.Len())
    ensures Num(ops, s.Value(i)).Some?
  {
  }

  lemma SameUnits(ops: Ops, u: Arr, s: Arr, n: nat)
    requires Spread(u, n) && Spread(s, n) && n > 0 && u.Str? && Numeric(s.Type()) && Clean(s)
    requires forall i :: 0 <= i < n ==> UnitAt(ops, u, i) == UnitAt(ops, u, 0)
    ensures RowsRight(ops, DateTrunc, n, [u, s])
  {
    hide EvalFunc, FuncValue, UnitAt, TruncFn, Num, Arr.Value, Clean;
    TruncEvaluates(ops, u, s, n);
    forall i | 0 <= i < n
      ensures FuncValue(ops, DateTrunc, ValuesAt([u, s], i))
           == match UnitAt(ops, u, 0)
              case None => None
              case Some(_) => Some(EvalFunc(ops, DateTrunc, [u, s]).value.Value(i))
    {
      NumericValue(ops, s, i);
      TwoValues(u, s, i);
      TruncValue(ops, u, s, i);
    }
  }

  // A moment that no two units truncate alike: one day, one hour, one minute and one second.
  const MOMENT: i64 := 90061

  lemma UnitsApart(ops: Ops, a: bytes, b: bytes, x: u64)
    requires ops.toInt(x) == MOMENT && UnitStep(a).Some? && UnitStep(b).Some? && UnitStep(a) != UnitStep(b)
    ensures TruncFn(ops, UnitStep(a).value)(x) != TruncFn(ops, UnitStep(b).value)(x)
  {
  }

  lemma OtherUnits(ops: Ops, u: Arr, s: Arr, n: nat, i: nat)
    requires Spread(u, n) && Spread(s, n) && i < n && u.Str? && Numeric(s.Type()) && Clean(s)
    requires UnitAt(ops, u, i) != UnitAt(ops, u, 0) && forall x: u64 :: ops.toInt(x) == MOMENT
    ensures !RowsRight(ops, DateTrunc, n, [u, s])
  {
    NumericValue(ops, s, i);
    TruncEvaluates(ops, u, s, n);
    TwoValues(u, s, i);
    TruncValue(ops, u, s, i);
    if UnitAt(ops, u, 0).Some? && UnitAt(ops, u, i).Some? {
      UnitsApart(ops, ops.lower(u.Value(0).s), ops.lower(u.Value(i).s), Num(ops, s.Value(i)).value);
    }
    hide EvalFunc, FuncValue, TruncFn, Num, Arr.Value, Clean, UnitStep;
    assert EvalFunc(ops, DateTrunc, [u, s]).Ok? ==>
      FuncValue(ops, DateTrunc, ValuesAt([u, s], i)) != Some(EvalFunc(ops, DateTrunc, [u, s]).value.Value(i));
  }

  // Truncation is right, for all moments, if and only if all rows ask for the same unit.
  lemma TruncRightIff(ops: Ops, u: Arr, s: Arr, n: nat)
    requires Spread(u, n) && Spread(s, n) && n > 0 && u.Str? && Numeric(s.Type()) && Clean(s)
    ensures (forall toInt: u64 -> i64 :: RowsRight(ops.(toInt := toInt), DateTrunc, n, [u, s])) <==>
            (forall i :: 0 <= i < n ==> UnitAt(ops, u, i) == UnitAt(ops, u, 0))
  {
    if forall i :: 0 <= i < n ==> UnitAt(ops, u, i) == UnitAt(ops, u, 0) {
      forall toInt: u64 -> i64 ensures RowsRight(ops.(toInt := toInt), DateTrunc, n, [u, s]) {
        forall i | 0 <= i < n ensures UnitAt(ops.(toInt := toInt), u, i) == UnitAt(ops.(toInt := toInt), u, 0) {
          assert UnitAt(ops, u, i) == UnitAt(ops, u, 0);
        }
        SameUnits(ops.(toInt := toInt), u, s, n);
      }
    } else {
      var i :| 0 <= i < n && UnitAt(ops, u, i) != UnitAt(ops, u, 0);
      var at: u64 -> i64 := x => MOMENT;
      OtherUnits(ops.(toInt := at), u, s, n, i);
    }
  }

  lemma {:induction false} Ascii(b: bytes)
    requires forall i :: 0 <= i < |b| ==> b[i] < 0x80
    ensures Utf8(b)
    decreases |b|
  {
    if b != [] {
      Ascii(b[1..]);
    }
  }

  lemma UnitsAreText()
    ensures Utf8(DAY) && Utf8(HOUR)
  {
    Ascii(DAY);
    Ascii(HOUR);
  }

  // Two rows that ask for a day and for an hour: both are truncated to the day.
  lemma DayForHour(ops: Ops, u: Arr, s: Arr)
    requires u.Str? && u.ss == [DAY, HOUR] && s == Arr.I64([MOMENT, MOMENT])
    requires ops.lower(u.ss[0]) == DAY && ops.lower(u.ss[1]) == HOUR && ops.toInt(ops.toDouble(MOMENT)) == MOMENT
    ensures EvalFunc(ops, DateTrunc, [u, s]).Ok? && EvalFunc(ops, DateTrunc, [u, s]).value.Value(1) == Value.I64(86400)
    ensures FuncValue(ops, DateTrunc, ValuesAt([u, s], 1)) == Some(Value.I64(90000))
    ensures Utf8(DAY) && Utf8(HOUR)
  {
    UnitsAreText();
    TwoValues(u, s, 1);
    TruncEvaluates(ops, u, s, 2);
    TruncValue(ops, u, s, 1);
    hide EvalFunc, FuncValue;
  }
}
