/**
 Calendar arithmetic (`src/exec.rs`): from days since 1970-01-01 to year, month and day of the
 proleptic Gregorian calendar, against the calendar itself given by its successor function.
 */
module Calendar {
  import opened Bytes

  datatype Date = Date(year: int, month: int, day: int)

  // --- the calendar -------------------------------------------------------------------------------

  predicate IsLeap(y: int) {
    y % 4 == 0 && (y % 100 != 0 || y % 400 == 0)
  }

  function DaysInMonth(y: int, m: int): (n: int)
    requires 1 <= m <= 12
    ensures 28 <= n <= 31
  {
    if m == 2 then (if IsLeap(y) then 29 else 28)
    else if m == 4 || m == 6 || m == 9 || m == 11 then 30
    else 31
  }

  predicate IsDate(d: Date) {
    1 <= d.month <= 12 && 1 <= d.day <= DaysInMonth(d.year, d.month)
  }

  function NextDay(d: Date): Date
    requires IsDate(d)
  {
    if d.day < DaysInMonth(d.year, d.month) then d.(day := d.day + 1)
    else if d.month < 12 then Date(d.year, d.month + 1, 1)
    else Date(d.year + 1, 1, 1)
  }

  // --- the code -----------------------------------------------------------------------------------

  function CivilFromDays(days: int): Date {
    var z := days + 719468;
    var era := z / 146097;
    var doe := z % 146097;
    var yoe := (doe - doe / 1460 + doe / 36524 - doe / 146096) / 365;
    var y := yoe + era * 400;
    var doy := doe - (365 * yoe + yoe / 4 - yoe / 100);
    var mp := (5 * doy + 2) / 153;
    var d := doy - (153 * mp + 2) / 5 + 1;
    var m := if mp < 10 then mp + 3 else mp - 9;
    Date(if m <= 2 then y + 1 else y, m, d)
  }

  // --- years that begin in March ------------------------------------------------------------------

  // Days from the beginning of the era to that of its year 100 c + 4 q + a, and the year number
  // that the code computes for a day of that year.
  lemma YearFormula(doe: int, c: int, q: int, a: int, doy: int)
    requires 0 <= c <= 3 && 0 <= q <= 24 && 0 <= a <= 3
    requires 0 <= doy <= 364 || (doy == 365 && a == 3 && (q < 24 || c == 3))
    requires doe == 36524 * c + 1461 * q + 365 * a + doy
    ensures (doe - doe / 1460 + doe / 36524 - doe / 146096) / 365 == 100 * c + 4 * q + a
  {
    var e := if 24 * c + q + 365 * a + doy >= 1460 then 1 else 0;
    QuotientIs(doe, 1460, 25 * c + q + e);
    if doe < 146096 {
      QuotientIs(doe, 36524, c);
      QuotientIs(doe, 146096, 0);
    } else {
      QuotientIs(doe, 36524, 4);
      QuotientIs(doe, 146096, 1);
    }
    QuotientIs(doe - doe / 1460 + doe / 36524 - doe / 146096, 365, 100 * c + 4 * q + a);
  }

  function Least(a: int, b: int): int {
    if a < b then a else b
  }

  // Every day of the era lies in such a year.
  lemma InSomeYear(doe: int) returns (c: int, q: int, a: int, doy: int)
    requires 0 <= doe < 146097
    ensures 0 <= c <= 3 && 0 <= q <= 24 && 0 <= a <= 3
    ensures 0 <= doy <= 364 || (doy == 365 && a == 3 && (q < 24 || c == 3))
    ensures doe == 36524 * c + 1461 * q + 365 * a + doy
  {
    c := Least(3, doe / 36524);
    var r := doe - 36524 * c;
    assert 0 <= r <= 36524 && (r == 36524 ==> c == 3);
    q := Least(24, r / 1461);
    var t := r - 1461 * q;
    assert 0 <= t <= 1460 && (t == 1460 ==> q < 24 || c == 3);
    a := Least(3, t / 365);
    doy := t - 365 * a;
  }

  // Days from the first of March of year 0 to that of year `y`, over all eras.
  function YearStart(y: int): int {
    365 * y + y / 4 - y / 100 + y / 400
  }

  function YearLength(y: int): int {
    if IsLeap(y + 1) then 366 else 365
  }

  lemma YearStartStep(y: int)
    ensures YearStart(y + 1) == YearStart(y) + YearLength(y)
  {
    NextQuotient(y, 4);
    NextQuotient(y, 100);
    NextQuotient(y, 400);
    FourDivides(y + 1);
  }

  lemma NextQuotient(y: int, d: int)
    requires d > 0
    ensures (y + 1) / d == y / d + if (y + 1) % d == 0 then 1 else 0
  {
    var q, r := y / d, y % d;
    assert y == q * d + r;
    if r + 1 < d {
      QuotientIs(y + 1, d, q);
    } else {
      assert (q + 1) * d == q * d + d;
      QuotientIs(y + 1, d, q + 1);
    }
    assert y + 1 == (y + 1) / d * d + (y + 1) % d;
  }

  lemma FourDivides(y: int)
    ensures y % 400 == 0 ==> y % 100 == 0
    ensures y % 100 == 0 ==> y % 4 == 0
  {
  }

  lemma {:induction false} YearStartGrows(y: int, x: int)
    requires y <= x
    ensures YearStart(x) - YearStart(y) >= 365 * (x - y)
    decreases x - y
  {
    hide YearStart;
    if y < x {
      YearStartGrows(y, x - 1);
      YearStartStep(x - 1);
    }
  }

  // A day lies in one year only.
  lemma OneYear(y: int, i: int, x: int, j: int)
    requires YearStart(y) + i == YearStart(x) + j
    requires 0 <= i < YearLength(y) && 0 <= j < YearLength(x)
    ensures y == x && i == j
  {
    hide YearStart;
    if y < x {
      YearStartStep(y);
      YearStartGrows(y + 1, x);
    } else if x < y {
      YearStartStep(x);
      YearStartGrows(x + 1, y);
    }
  }

  // --- months -----------------------------------------------------------------------------------------

  function MonthStart(mp: int): int {
    (153 * mp + 2) / 5
  }

  // The date of day `doy` of the March year `y`, as the code computes it.
  function DateOf(y: int, doy: int): Date {
    var mp := (5 * doy + 2) / 153;
    var m := if mp < 10 then mp + 3 else mp - 9;
    Date(if m <= 2 then y + 1 else y, m, doy - MonthStart(mp) + 1)
  }

  lemma MonthStarts()
    ensures MonthStart(0) == 0 && MonthStart(1) == 31 && MonthStart(2) == 61 && MonthStart(3) == 92
    ensures MonthStart(4) == 122 && MonthStart(5) == 153 && MonthStart(6) == 184 && MonthStart(7) == 214
    ensures MonthStart(8) == 245 && MonthStart(9) == 275 && MonthStart(10) == 306 && MonthStart(11) == 337
  {
  }

  lemma MonthOfDay(doy: int)
    requires 0 <= doy <= 365
    ensures var mp := (5 * doy + 2) / 153;
      0 <= mp <= 11 && MonthStart(mp) <= doy && (mp < 11 ==> doy < MonthStart(mp + 1))
  {
  }

  lemma DateOfIsDate(y: int, doy: int)
    requires 0 <= doy < YearLength(y)
    ensures IsDate(DateOf(y, doy))
  {
    MonthOfDay(doy);
    MonthStarts();
    hide MonthStart;
  }

  lemma DateOfNext(y: int, doy: int)
    requires 0 <= doy < YearLength(y)
    ensures IsDate(DateOf(y, doy))
    ensures NextDay(DateOf(y, doy)) == if doy + 1 < YearLength(y) then DateOf(y, doy + 1) else DateOf(y + 1, 0)
  {
    DateOfIsDate(y, doy);
    MonthOfDay(doy);
    if doy < 365 {
      MonthOfDay(doy + 1);
    }
    MonthStarts();
    hide MonthStart;
  }

  // --- the results ------------------------------------------------------------------------------------

  lemma CivilUnfolds(days: int, yoe: int, doy: int)
    requires var doe := (days + 719468) % 146097;
      yoe == (doe - doe / 1460 + doe / 36524 - doe / 146096) / 365
      && doy == doe - (365 * yoe + yoe / 4 - yoe / 100)
    ensures CivilFromDays(days) == DateOf(yoe + (days + 719468) / 146097 * 400, doy)
  {
  }

  // The year and the day of it that the code works with.
  lemma CivilYearDay(days: int) returns (y: int, doy: int)
    ensures days + 719468 == YearStart(y) + doy && 0 <= doy < YearLength(y)
    ensures CivilFromDays(days) == DateOf(y, doy)
  {
    var z := days + 719468;
    var era, doe := z / 146097, z % 146097;
    var c, q, a, rest := InSomeYear(doe);
    YearFormula(doe, c, q, a, rest);
    var yoe := 100 * c + 4 * q + a;
    QuotientIs(yoe, 4, 25 * c + q);
    QuotientIs(yoe, 100, c);
    y := yoe + era * 400;
    doy := rest;
    CivilUnfolds(days, yoe, doy);
    hide YearStart, YearLength, CivilFromDays, DateOf;
    EraQuotients(era, c, q, a);
    EraLength(era, c, q, a, rest);
  }

  lemma EraQuotients(era: int, c: int, q: int, a: int)
    requires 0 <= c <= 3 && 0 <= q <= 24 && 0 <= a <= 3
    ensures YearStart(100 * c + 4 * q + a + era * 400) == era * 146097 + 36524 * c + 1461 * q + 365 * a
  {
    var y := 100 * c + 4 * q + a + era * 400;
    QuotientIs(y, 4, 100 * era + 25 * c + q);
    QuotientIs(y, 100, 4 * era + c);
    QuotientIs(y, 400, era);
  }

  lemma EraLength(era: int, c: int, q: int, a: int, doy: int)
    requires 0 <= c <= 3 && 0 <= q <= 24 && 0 <= a <= 3
    requires 0 <= doy <= 364 || (doy == 365 && a == 3 && (q < 24 || c == 3))
    ensures 0 <= doy < YearLength(100 * c + 4 * q + a + era * 400)
  {
    var x := 100 * c + 4 * q + a + era * 400 + 1;
    if doy == 365 {
      QuotientIs(x, 4, 100 * era + 25 * c + q + 1);
      if q < 24 {
        QuotientIs(x, 100, 4 * era + c);
      } else {
        QuotientIs(x, 400, era + 1);
      }
    }
  }

  // The result is a date, day 0 is the first of January 1970, and the next day's result is the
  // calendar's next day.
  lemma CivilFollowsCalendar(days: int)
    ensures CivilFromDays(0) == Date(1970, 1, 1)
    ensures IsDate(CivilFromDays(days))
    ensures CivilFromDays(days + 1) == NextDay(CivilFromDays(days))
  {
    hide CivilFromDays, DateOf, YearStart, YearLength, NextDay, IsDate;
    assert CivilFromDays(0) == Date(1970, 1, 1) by {
      Epoch();
    }
    var y, doy := CivilYearDay(days);
    var x, doy' := CivilYearDay(days + 1);
    DateOfNext(y, doy);
    YearStartStep(y);
    if doy + 1 < YearLength(y) {
      OneYear(y, doy + 1, x, doy');
    } else {
      NonEmptyYear(y + 1);
      OneYear(y + 1, 0, x, doy');
    }
  }

  lemma NonEmptyYear(y: int)
    ensures YearLength(y) > 0
  {
  }

  lemma Epoch()
    ensures CivilFromDays(0) == Date(1970, 1, 1)
  {
    YearFormula(135080, 3, 17, 1, 306);
    assert 719468 / 146097 == 4 && 719468 % 146097 == 135080;
    CivilUnfolds(0, 369, 306);
    hide CivilFromDays;
    assert (5 * 306 + 2) / 153 == 10 && MonthStart(10) == 306;
  }

  // The count the other way.
  function DaysFromCivil(d: Date): int {
    var y := if d.month <= 2 then d.year - 1 else d.year;
    var mp := if d.month > 2 then d.month - 3 else d.month + 9;
    YearStart(y) + MonthStart(mp) + d.day - 1 - 719468
  }

  lemma DaysOfDateOf(y: int, doy: int)
    requires 0 <= doy < YearLength(y)
    ensures DaysFromCivil(DateOf(y, doy)) == YearStart(y) + doy - 719468
  {
    MonthOfDay(doy);
  }

  lemma DateFromCount(d: Date)
    requires IsDate(d)
    ensures var y := if d.month <= 2 then d.year - 1 else d.year;
      var doy := DaysFromCivil(d) + 719468 - YearStart(y);
      0 <= doy < YearLength(y) && DateOf(y, doy) == d
  {
    var y := if d.month <= 2 then d.year - 1 else d.year;
    var doy := DaysFromCivil(d) + 719468 - YearStart(y);
    MonthStarts();
    assert 0 <= doy < YearLength(y);
    MonthOfDay(doy);
    hide MonthStart;
  }

  // Days and dates correspond one to one, in both directions.
  lemma CivilInverts(days: int, d: Date)
    requires IsDate(d)
    ensures DaysFromCivil(CivilFromDays(days)) == days
    ensures CivilFromDays(DaysFromCivil(d)) == d
  {
    hide CivilFromDays, DateOf, YearStart, YearLength, IsDate, DaysFromCivil;
    var y, doy := CivilYearDay(days);
    DaysOfDateOf(y, doy);
    DateFromCount(d);
    var x, i := CivilYearDay(DaysFromCivil(d));
    var u := if d.month <= 2 then d.year - 1 else d.year;
    OneYear(u, DaysFromCivil(d) + 719468 - YearStart(u), x, i);
  }

  // --- parts of a timestamp -----------------------------------------------------------------------

  datatype Part = Hour | Minute | Day | Month | Year

  // Division and remainder are Euclidean, so this holds before 1970 as well.
  function ExtractPart(part: Part, ts: int): int {
    var days, secs := ts / 86400, ts % 86400;
    match part
    case Hour => secs / 3600
    case Minute => secs % 3600 / 60
    case Day => CivilFromDays(days).day
    case Month => CivilFromDays(days).month
    case Year => CivilFromDays(days).year
  }

  function Truncated(ts: int, step: int): int
    requires step > 0
  {
    ts / step * step
  }

  // The parts put together again: the date names the day, hour and minute the time in it.
  lemma PartsRecompose(ts: int)
    ensures var d := Date(ExtractPart(Year, ts), ExtractPart(Month, ts), ExtractPart(Day, ts));
      var h, m := ExtractPart(Hour, ts), ExtractPart(Minute, ts);
      && IsDate(d) && 0 <= h < 24 && 0 <= m < 60
      && 0 <= ts - (86400 * DaysFromCivil(d) + 3600 * h + 60 * m) < 60
  {
    hide CivilFromDays, DaysFromCivil, IsDate;
    CivilFollowsCalendar(ts / 86400);
    CivilInverts(ts / 86400, CivilFromDays(ts / 86400));
    var d := CivilFromDays(ts / 86400);
    assert d == Date(d.year, d.month, d.day);
  }

  // A unit that divides the day: only the time of day is truncated.
  lemma TruncatedTime(ts: int, step: int, perDay: int)
    requires step > 0 && step * perDay == 86400
    ensures Truncated(ts, step) == 86400 * (ts / 86400) + Truncated(ts % 86400, step)
    ensures 0 <= Truncated(ts % 86400, step) <= ts % 86400
  {
    var d, t := ts / 86400, ts % 86400;
    assert t == t / step * step + t % step;
    assert (perDay * d + t / step) * step == 86400 * d + t / step * step by {
      assert perDay * d * step == step * perDay * d;
    }
    QuotientIs(ts, step, perDay * d + t / step);
  }

  // Truncation goes down to the beginning of the unit, also before 1970: the parts from the unit
  // up stay, those below become zero.
  lemma TruncatedParts(ts: int, step: int)
    requires step in {1, 60, 3600, 86400}
    ensures Truncated(ts, step) <= ts < Truncated(ts, step) + step && Truncated(ts, step) % step == 0
    ensures forall part | part in {Day, Month, Year} :: ExtractPart(part, Truncated(ts, step)) == ExtractPart(part, ts)
    ensures ExtractPart(Hour, Truncated(ts, step)) == if step <= 3600 then ExtractPart(Hour, ts) else 0
    ensures ExtractPart(Minute, Truncated(ts, step)) == if step <= 60 then ExtractPart(Minute, ts) else 0
  {
    hide CivilFromDays;
    var t := ts % 86400;
    TruncatedDown(ts, step);
    TruncatedDown(t, step);
    var perDay := if step == 1 then 86400 else if step == 60 then 1440 else if step == 3600 then 24 else 1;
    TruncatedTime(ts, step, perDay);
    TimeOfDay(t, step);
    hide Truncated;
    QuotientIs(Truncated(ts, step), 86400, ts / 86400);
    assert Truncated(ts, step) % 86400 == Truncated(t, step);
  }

  lemma TruncatedDown(ts: int, step: int)
    requires step > 0
    ensures Truncated(ts, step) <= ts < Truncated(ts, step) + step && Truncated(ts, step) % step == 0
  {
    assert ts == ts / step * step + ts % step;
    QuotientIs(ts / step * step, step, ts / step);
  }

  lemma TimeOfDay(t: int, step: int)
    requires 0 <= t < 86400 && step in {1, 60, 3600, 86400}
    ensures Truncated(t, step) / 3600 == if step <= 3600 then t / 3600 else 0
    ensures Truncated(t, step) % 3600 / 60 == if step <= 60 then t % 3600 / 60 else 0
  {
    if step == 60 {
      assert t / 60 * 60 == t / 3600 * 3600 + t % 3600 / 60 * 60;
    }
  }
}
