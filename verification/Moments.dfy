/**
 EXTRACT and date_trunc as a query asks for them (`src/exec.rs`): which function gives which part of a
 moment, and where each unit begins.
 */
module Moments {
  import opened Bytes
  import opened Wrappers
  import opened Columns
  import opened Plan
  import opened Arrays
  import opened Functions
  import opened Evaluation
  import opened Laws
  import opened Calendar

  // The name in ASCII.
  predicate Spells(b: bytes, s: string) {
    |b| == |s| && forall i :: 0 <= i < |s| ==> b[i] == s[i] as int
  }

  // The value of the expression as a moment, in seconds.
  predicate IsMoment(ops: Ops, x: Expr, f: Frame, r: nat, agg: Expr -> Option<Value>, ts: i64) {
    var v := RowValue(ops, x, f, r, agg);
    v.Some? && Num(ops, v.value).Some? && ops.toInt(Num(ops, v.value).value) == ts
  }

  // The whole number that a function of one argument gives.
  function Asked(ops: Ops, fn: ScalarFunc, x: Expr, f: Frame, r: nat, agg: Expr -> Option<Value>): Option<int> {
    match RowValue(ops, Func(fn, [x]), f, r, agg)
    case Some(I64(n)) => Some(n)
    case _ => None
  }

  lemma YearBound(ts: i64)
    ensures -TWO63 <= ExtractPart(Year, ts) < TWO63
  {
  }

  lemma ExtractValue(ops: Ops, fn: ScalarFunc, v: Value, ts: i64)
    requires fn in {ExtractHour, ExtractMinute, ExtractDay, ExtractMonth, ExtractYear}
    requires Num(ops, v).Some? && ops.toInt(Num(ops, v).value) == ts
    ensures FuncValue(ops, fn, [v]) == Some(Value.I64(ExtractPart(PartOf(fn), ts)))
  {
    PartInRange(PartOf(fn), ts);
    hide ExtractPart, Num, PartOf;
  }

  lemma OneCalled(ops: Ops, fn: ScalarFunc, x: Expr, f: Frame, r: nat, agg: Expr -> Option<Value>, v: Value)
    requires RowValue(ops, x, f, r, agg) == Some(v)
    ensures RowValue(ops, Func(fn, [x]), f, r, agg) == FuncValue(ops, fn, [v])
  {
    hide FuncValue;
    OneArgument(ops, x, f, r, agg, v);
  }

  lemma PartAsked(ops: Ops, fn: ScalarFunc, x: Expr, f: Frame, r: nat, agg: Expr -> Option<Value>, ts: i64)
    requires IsMoment(ops, x, f, r, agg, ts)
    requires fn in {ExtractHour, ExtractMinute, ExtractDay, ExtractMonth, ExtractYear}
    ensures Asked(ops, fn, x, f, r, agg) == Some(ExtractPart(PartOf(fn), ts))
  {
    hide ExtractPart, Num, FuncValue, RowValue, PartOf;
    var v := RowValue(ops, x, f, r, agg).value;
    ExtractValue(ops, fn, v, ts);
    OneCalled(ops, fn, x, f, r, agg, v);
  }

  lemma PartInRange(part: Part, ts: i64)
    ensures -TWO63 <= ExtractPart(part, ts) < TWO63
  {
    YearBound(ts);
    PartsRecompose(ts);
  }

  // The five parts that EXTRACT gives of a moment, put together again: a date of the calendar, and a
  // time of day within a minute of the moment.
  lemma ExtractRecomposes(ops: Ops, x: Expr, f: Frame, r: nat, agg: Expr -> Option<Value>, ts: i64)
    requires IsMoment(ops, x, f, r, agg, ts)
    ensures var y, m, d := Asked(ops, ExtractYear, x, f, r, agg), Asked(ops, ExtractMonth, x, f, r, agg),
        Asked(ops, ExtractDay, x, f, r, agg);
      var hour, minute := Asked(ops, ExtractHour, x, f, r, agg), Asked(ops, ExtractMinute, x, f, r, agg);
      && y.Some? && m.Some? && d.Some? && hour.Some? && minute.Some?
      && var date := Date(y.value, m.value, d.value);
      && IsDate(date) && 0 <= hour.value < 24 && 0 <= minute.value < 60
      && 0 <= ts - (86400 * DaysFromCivil(date) + 3600 * hour.value + 60 * minute.value) < 60
  {
    hide RowValue, Asked, ExtractPart, DaysFromCivil, IsDate, IsMoment;
    PartAsked(ops, ExtractYear, x, f, r, agg, ts);
    PartAsked(ops, ExtractMonth, x, f, r, agg, ts);
    PartAsked(ops, ExtractDay, x, f, r, agg, ts);
    PartAsked(ops, ExtractHour, x, f, r, agg, ts);
    PartAsked(ops, ExtractMinute, x, f, r, agg, ts);
    PartsRecompose(ts);
  }

  // What date_trunc gives for a unit.
  function Floored(ops: Ops, u: Expr, x: Expr, f: Frame, r: nat, agg: Expr -> Option<Value>): Option<int> {
    match RowValue(ops, Func(DateTrunc, [u, x]), f, r, agg)
    case Some(I64(n)) => Some(n)
    case _ => None
  }

  predicate AsksFor(ops: Ops, u: Expr, f: Frame, r: nat, agg: Expr -> Option<Value>, unit: string) {
    var v := RowValue(ops, u, f, r, agg);
    v.Some? && v.value.Str? && Spells(ops.lower(v.value.s), unit)
  }

  lemma StepOf(b: bytes)
    ensures Spells(b, "second") ==> UnitStep(b) == Some(1)
    ensures Spells(b, "minute") ==> UnitStep(b) == Some(60)
    ensures Spells(b, "hour") ==> UnitStep(b) == Some(3600)
    ensures Spells(b, "day") ==> UnitStep(b) == Some(86400)
  {
    if Spells(b, "second") {
      assert b == SECOND;
    }
    if Spells(b, "minute") {
      assert b == MINUTE && MINUTE[0] != SECOND[0];
    }
    if Spells(b, "hour") {
      assert b == HOUR && |HOUR| != |SECOND| && |HOUR| != |MINUTE|;
    }
    if Spells(b, "day") {
      assert b == DAY && |DAY| != |SECOND| && |DAY| != |MINUTE| && |DAY| != |HOUR|;
    }
  }

  lemma TwoCalled(ops: Ops, fn: ScalarFunc, u: Expr, x: Expr, f: Frame, r: nat, agg: Expr -> Option<Value>, v: Value,
                  w: Value)
    requires RowValue(ops, u, f, r, agg) == Some(v) && RowValue(ops, x, f, r, agg) == Some(w)
    ensures RowValue(ops, Func(fn, [u, x]), f, r, agg) == FuncValue(ops, fn, [v, w])
  {
    hide FuncValue;
    TwoArguments(ops, u, x, f, r, agg, v, w);
  }

  lemma FlooredIs(ops: Ops, u: Expr, x: Expr, f: Frame, r: nat, agg: Expr -> Option<Value>, ts: i64, unit: string,
                  step: int)
    requires IsMoment(ops, x, f, r, agg, ts) && ts >= -TWO63 + 86400 && AsksFor(ops, u, f, r, agg, unit)
    requires step in {1, 60, 3600, 86400}
    requires forall b: bytes :: Spells(b, unit) ==> UnitStep(b) == Some(step)
    ensures Floored(ops, u, x, f, r, agg) == Some(Calendar.Truncated(ts, step))
  {
    hide RowValue, FuncValue, Calendar.Truncated, UnitStep, Num, Spells;
    var v, w := RowValue(ops, u, f, r, agg).value, RowValue(ops, x, f, r, agg).value;
    TwoCalled(ops, DateTrunc, u, x, f, r, agg, v, w);
    TruncValue(ops, v, w, ts, step);
  }

  lemma TruncValue(ops: Ops, v: Value, w: Value, ts: i64, step: int)
    requires v.Str? && UnitStep(ops.lower(v.s)) == Some(step) && step in {1, 60, 3600, 86400}
    requires Num(ops, w).Some? && ops.toInt(Num(ops, w).value) == ts && ts >= -TWO63 + 86400
    ensures FuncValue(ops, DateTrunc, [v, w]) == Some(Value.I64(Calendar.Truncated(ts, step)))
  {
    hide Calendar.Truncated, UnitStep, Num, FuncValue, Saturate;
    TruncCalled(ops, [v, w], step);
    TruncFits(ts, step);
  }

  lemma TruncCalled(ops: Ops, args: seq<Value>, step: int)
    requires |args| == 2 && args[0].Str? && UnitStep(ops.lower(args[0].s)) == Some(step) && step > 0
    requires Num(ops, args[1]).Some?
    ensures FuncValue(ops, DateTrunc, args)
         == Some(Value.I64(Saturate(Calendar.Truncated(ops.toInt(Num(ops, args[1]).value), step))))
  {
    hide Calendar.Truncated, UnitStep, Num, Saturate;
  }

  lemma TruncFits(ts: i64, step: int)
    requires step in {1, 60, 3600, 86400} && ts >= -TWO63 + 86400
    ensures Saturate(Calendar.Truncated(ts, step)) == Calendar.Truncated(ts, step)
  {
    TruncatedDown(ts, step);
    hide Calendar.Truncated;
  }

  // Where the minute, the hour and the day of a moment begin, by the parts that EXTRACT gives of it:
  // that is what date_trunc goes down to. A second is not truncated.
  lemma TruncMeans(ops: Ops, u: Expr, x: Expr, f: Frame, r: nat, agg: Expr -> Option<Value>, ts: i64)
    requires IsMoment(ops, x, f, r, agg, ts) && ts >= -TWO63 + 86400
    ensures var y, m, d := Asked(ops, ExtractYear, x, f, r, agg), Asked(ops, ExtractMonth, x, f, r, agg),
        Asked(ops, ExtractDay, x, f, r, agg);
      var hour, minute := Asked(ops, ExtractHour, x, f, r, agg), Asked(ops, ExtractMinute, x, f, r, agg);
      && y.Some? && m.Some? && d.Some? && hour.Some? && minute.Some?
      && var date := Date(y.value, m.value, d.value);
      && IsDate(date)
      && var midnight := 86400 * DaysFromCivil(date);
      && (AsksFor(ops, u, f, r, agg, "day") ==> Floored(ops, u, x, f, r, agg) == Some(midnight))
      && (AsksFor(ops, u, f, r, agg, "hour") ==>
            Floored(ops, u, x, f, r, agg) == Some(midnight + 3600 * hour.value))
      && (AsksFor(ops, u, f, r, agg, "minute") ==>
            Floored(ops, u, x, f, r, agg) == Some(midnight + 3600 * hour.value + 60 * minute.value))
      && (AsksFor(ops, u, f, r, agg, "second") ==> Floored(ops, u, x, f, r, agg) == Some(ts))
  {
    hide RowValue, Asked, Floored, DaysFromCivil, IsDate, IsMoment, AsksFor, UnitStep, Spells;
    forall b: bytes
      ensures Spells(b, "second") ==> UnitStep(b) == Some(1)
      ensures Spells(b, "minute") ==> UnitStep(b) == Some(60)
      ensures Spells(b, "hour") ==> UnitStep(b) == Some(3600)
      ensures Spells(b, "day") ==> UnitStep(b) == Some(86400)
    {
      StepOf(b);
    }
    ExtractRecomposes(ops, x, f, r, agg, ts);
    var y, m, d := Asked(ops, ExtractYear, x, f, r, agg).value, Asked(ops, ExtractMonth, x, f, r, agg).value,
        Asked(ops, ExtractDay, x, f, r, agg).value;
    var hour, minute := Asked(ops, ExtractHour, x, f, r, agg).value, Asked(ops, ExtractMinute, x, f, r, agg).value;
    StartsAt(ts, DaysFromCivil(Date(y, m, d)), hour, minute);
    if AsksFor(ops, u, f, r, agg, "day") {
      FlooredIs(ops, u, x, f, r, agg, ts, "day", 86400);
    }
    if AsksFor(ops, u, f, r, agg, "hour") {
      FlooredIs(ops, u, x, f, r, agg, ts, "hour", 3600);
    }
    if AsksFor(ops, u, f, r, agg, "minute") {
      FlooredIs(ops, u, x, f, r, agg, ts, "minute", 60);
    }
    if AsksFor(ops, u, f, r, agg, "second") {
      FlooredIs(ops, u, x, f, r, agg, ts, "second", 1);
    }
  }

  lemma StartsAt(ts: int, days: int, hour: int, minute: int)
    requires 0 <= hour < 24 && 0 <= minute < 60 && 0 <= ts - (86400 * days + 3600 * hour + 60 * minute) < 60
    ensures Calendar.Truncated(ts, 86400) == 86400 * days && Calendar.Truncated(ts, 3600) == 86400 * days + 3600 * hour
    ensures Calendar.Truncated(ts, 60) == 86400 * days + 3600 * hour + 60 * minute && Calendar.Truncated(ts, 1) == ts
  {
    QuotientIs(ts, 86400, days);
    QuotientIs(ts, 3600, 24 * days + hour);
    QuotientIs(ts, 60, 1440 * days + 60 * hour + minute);
  }
}
