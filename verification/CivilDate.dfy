/** Days since the epoch as a date of the proleptic Gregorian calendar. */
module CivilDate {
  datatype Date = Date(year: int, month: int, day: int)

  datatype Time = Time(hour: int, minute: int, second: int)

  /** The arithmetic of `utc`, from days since 1970-01-01. Years are counted from March in eras of 400. */
  function Civil(days: int): Date {
    var z := days + 719_468;
    var era := z / 146_097;
    var doe := z % 146_097;
    var yoe := YearOfEra(doe);
    var doy := doe - (365 * yoe + yoe / 4 - yoe / 100);
    var mp := (5 * doy + 2) / 153;
    var day := doy - (153 * mp + 2) / 5 + 1;
    var month := if mp < 10 then mp + 3 else mp - 9;
    Date(yoe + era * 400 + if month <= 2 then 1 else 0, month, day)
  }

  function YearOfEra(doe: int): int { (doe - doe / 1_460 + doe / 36_524 - doe / 146_096) / 365 }

  function Clock(rem: int): (t: Time)
    requires 0 <= rem < 86_400
    ensures 0 <= t.hour < 24 && 0 <= t.minute < 60 && 0 <= t.second < 60
    ensures rem == 3600 * t.hour + 60 * t.minute + t.second
  {
    Time(rem / 3600, rem % 3600 / 60, rem % 60)
  }

  /** The calendar, by its rules. */
  predicate IsLeap(y: int) { y % 4 == 0 && (y % 100 != 0 || y % 400 == 0) }

  function DaysInYear(y: int): int { if IsLeap(y) then 366 else 365 }

  function DaysInMonth(y: int, m: int): int {
    if m == 2 then (if IsLeap(y) then 29 else 28) else if m == 4 || m == 6 || m == 9 || m == 11 then 30 else 31
  }

  predicate Valid(d: Date) { 1 <= d.month <= 12 && 1 <= d.day <= DaysInMonth(d.year, d.month) }

  /** Days from the epoch to the start of a year, and from there to the start of a month. */
  function DaysToYear(y: int): int
    requires y >= 1970
  {
    if y == 1970 then 0 else DaysToYear(y - 1) + DaysInYear(y - 1)
  }

  function DaysToMonth(y: int, m: int): int
    requires m >= 1
  {
    if m == 1 then 0 else DaysToMonth(y, m - 1) + DaysInMonth(y, m - 1)
  }

  function DayNumber(d: Date): int
    requires d.year >= 1970 && d.month >= 1
  {
    DaysToYear(d.year) + DaysToMonth(d.year, d.month) + d.day - 1
  }

  function NextDay(d: Date): Date {
    if d.day < DaysInMonth(d.year, d.month) then d.(day := d.day + 1)
    else if d.month < 12 then Date(d.year, d.month + 1, 1)
    else Date(d.year + 1, 1, 1)
  }

  /** A day of an era, by the century, the cycle of four years, the year and the day it falls in. */
  lemma EraParts(doe: int) returns (c: int, f: int, y: int, doy: int)
    requires 0 <= doe < 146_097
    ensures 0 <= c <= 3 && 0 <= f <= 24 && 0 <= y <= 3 && 0 <= doy <= 365
    ensures doe == 36_524 * c + 1_461 * f + 365 * y + doy
    ensures doy == 365 ==> y == 3 && (f < 24 || c == 3)
  {
    c := if doe == 146_096 then 3 else doe / 36_524;
    var dc := doe - 36_524 * c;
    f := dc / 1_461;
    var df := dc - 1_461 * f;
    y := if df == 1_460 then 3 else df / 365;
    doy := df - 365 * y;
  }

  lemma YearIs(doe: int, c: int, f: int, y: int, doy: int)
    requires 0 <= doe < 146_097
    requires 0 <= c <= 3 && 0 <= f <= 24 && 0 <= y <= 3 && 0 <= doy <= 365
    requires doe == 36_524 * c + 1_461 * f + 365 * y + doy
    requires doy == 365 ==> y == 3 && (f < 24 || c == 3)
    ensures YearOfEra(doe) == 100 * c + 4 * f + y
  {
    var df := 365 * y + doy;
    var t := if 24 * c + f + df >= 1_460 then 1 else 0;
    FourYears(doe, 25 * c + f + t, 24 * c + f + df - 1_460 * t);
    Centuries(doe, c, 1_461 * f + df);
    Years(doe - (25 * c + f + t) + c, 100 * c + 4 * f + y, doy - t);
  }

  lemma FourYears(n: int, q: int, r: int)
    requires n == 1_460 * q + r && 0 <= r < 1_460
    ensures n / 1_460 == q
  {
  }

  lemma Centuries(doe: int, c: int, r: int)
    requires doe == 36_524 * c + r && 0 <= c <= 3 && (0 <= r < 36_524 || (r == 36_524 && c == 3))
    ensures doe / 36_524 - doe / 146_096 == c
  {
  }

  lemma Years(n: int, q: int, r: int)
    requires n == 365 * q + r && 0 <= r < 365
    ensures n / 365 == q
  {
  }

  /** Leap days before a year. */
  function Leaps(y: int): int { (y - 1) / 4 - (y - 1) / 100 + (y - 1) / 400 }

  lemma Quarter(y: int)
    ensures y / 4 - (y - 1) / 4 == if y % 4 == 0 then 1 else 0
  {
  }

  lemma Century(y: int)
    ensures y / 100 - (y - 1) / 100 == if y % 100 == 0 then 1 else 0
    ensures y % 100 == 0 ==> y % 4 == 0
  {
    if y % 100 == 0 { assert y == 4 * (25 * (y / 100)); }
  }

  lemma Era(y: int)
    ensures y / 400 - (y - 1) / 400 == if y % 400 == 0 then 1 else 0
    ensures y % 400 == 0 ==> y % 100 == 0
  {
    if y % 400 == 0 { assert y == 100 * (4 * (y / 400)); }
  }

  lemma OneYear(y: int)
    ensures Leaps(y + 1) == Leaps(y) + if IsLeap(y) then 1 else 0
  {
    Quarter(y);
    Century(y);
    Era(y);
  }

  lemma {:induction false} YearStart(y: int)
    requires y >= 1970
    ensures DaysToYear(y) == 365 * (y - 1970) + Leaps(y) - 477
    decreases y
  {
    if y > 1970 {
      YearStart(y - 1);
      OneYear(y - 1);
    }
  }

  lemma MonthStarts(y: int)
    ensures var feb := DaysInMonth(y, 2);
      && DaysToMonth(y, 1) == 0 && DaysToMonth(y, 2) == 31 && DaysToMonth(y, 3) == 31 + feb
      && DaysToMonth(y, 4) == 62 + feb && DaysToMonth(y, 5) == 92 + feb && DaysToMonth(y, 6) == 123 + feb
      && DaysToMonth(y, 7) == 153 + feb && DaysToMonth(y, 8) == 184 + feb && DaysToMonth(y, 9) == 215 + feb
      && DaysToMonth(y, 10) == 245 + feb && DaysToMonth(y, 11) == 276 + feb && DaysToMonth(y, 12) == 306 + feb
  {
    assert DaysToMonth(y, 3) == DaysToMonth(y, 2) + DaysInMonth(y, 2);
    assert DaysToMonth(y, 4) == DaysToMonth(y, 3) + 31;
    assert DaysToMonth(y, 5) == DaysToMonth(y, 4) + 30;
    assert DaysToMonth(y, 6) == DaysToMonth(y, 5) + 31;
    assert DaysToMonth(y, 7) == DaysToMonth(y, 6) + 30;
    assert DaysToMonth(y, 8) == DaysToMonth(y, 7) + 31;
    assert DaysToMonth(y, 9) == DaysToMonth(y, 8) + 31;
    assert DaysToMonth(y, 10) == DaysToMonth(y, 9) + 30;
    assert DaysToMonth(y, 11) == DaysToMonth(y, 10) + 31;
    assert DaysToMonth(y, 12) == DaysToMonth(y, 11) + 30;
  }

  /** Where a month that begins `mp` months after March starts, in the year from March. */
  function FromMarch(mp: int): int { (153 * mp + 2) / 5 }

  lemma MonthOf(doy: int)
    requires 0 <= doy <= 365
    ensures var mp := (5 * doy + 2) / 153;
      0 <= mp <= 11 && FromMarch(mp) <= doy && (mp < 11 ==> doy < FromMarch(mp + 1))
  {
  }

  /** The date that many days into the year from March `y`. */
  lemma MarchDate(y: int, doy: int, d: Date)
    requires 0 <= doy <= 365 && (doy == 365 ==> IsLeap(y + 1))
    requires var mp := (5 * doy + 2) / 153;
      d.month == (if mp < 10 then mp + 3 else mp - 9)
      && d.day == doy - FromMarch(mp) + 1 && d.year == y + if d.month <= 2 then 1 else 0
    ensures Valid(d)
    ensures DaysToMonth(d.year, d.month) + d.day - 1 == doy - 306 + if d.month <= 2 then 0 else DaysInYear(y)
    ensures (doy >= 306 <==> d.month <= 2)
  {
    hide DaysToMonth;
    MonthOf(doy);
    MonthStarts(d.year);
  }

  /** The date by those parts. */
  lemma CivilParts(days: int, doe: int, c: int, f: int, y: int, doy: int)
    requires doe == (days + 719_468) % 146_097 == 36_524 * c + 1_461 * f + 365 * y + doy
    requires 0 <= c <= 3 && 0 <= f <= 24 && 0 <= y <= 3 && 0 <= doy <= 365
    requires doy == 365 ==> y == 3 && (f < 24 || c == 3)
    ensures var era, mp, d := (days + 719_468) / 146_097, (5 * doy + 2) / 153, Civil(days);
      && d.month == (if mp < 10 then mp + 3 else mp - 9) && d.day == doy - FromMarch(mp) + 1
      && d.year == 400 * era + 100 * c + 4 * f + y + if d.month <= 2 then 1 else 0
  {
    hide YearOfEra;
    YearIs(doe, c, f, y, doy);
    var yoe := YearOfEra(doe);
    assert yoe / 4 == 25 * c + f && yoe / 100 == c;
    assert doe - (365 * yoe + yoe / 4 - yoe / 100) == doy;
  }

  /** For every day from the epoch: the date is one of the calendar's, and it is that many days from the epoch. */
  lemma CivilIs(days: int)
    requires days >= 0
    ensures var d := Civil(days); Valid(d) && d.year >= 1970 && DayNumber(d) == days
  {
    hide Civil, YearOfEra, DaysToYear, DaysToMonth, IsLeap;
    var z := days + 719_468;
    var era, doe := z / 146_097, z % 146_097;
    var c, f, y, doy := EraParts(doe);
    var year := 400 * era + 100 * c + 4 * f + y;
    MarchStart(days, era, c, f, y, doy);
    var d := Civil(days);
    CivilParts(days, doe, c, f, y, doy);
    if doy == 365 { LeapMarch(era, c, f, y, doy); }
    MarchDate(year, doy, d);
    YearAgain(year);
  }

  lemma LeapMarch(era: int, c: int, f: int, y: int, doy: int)
    requires 0 <= c <= 3 && 0 <= f <= 24 && doy == 365 && y == 3 && (f < 24 || c == 3)
    ensures IsLeap(400 * era + 100 * c + 4 * f + y + 1)
  {
    Fours(100 * era + 25 * c + f + 1);
    if f < 24 { Hundreds(4 * era + c, 4 * f + 4); } else { FourHundreds(era + 1); }
  }

  lemma Fours(q: int)
    ensures (4 * q) % 4 == 0
  {
  }

  lemma Hundreds(q: int, r: int)
    requires 0 <= r < 100
    ensures (100 * q + r) % 100 == r
  {
  }

  lemma FourHundreds(q: int)
    ensures (400 * q) % 400 == 0
  {
  }

  lemma YearAgain(y: int)
    requires y >= 1969
    ensures y > 1969 ==> DaysToYear(y + 1) == DaysToYear(y) + DaysInYear(y)
  {
  }

  /** The first of March of a year, counted from the epoch. */
  lemma MarchStart(days: int, era: int, c: int, f: int, y: int, doy: int)
    requires days >= 0 && 0 <= c <= 3 && 0 <= f <= 24 && 0 <= y <= 3 && 0 <= doy <= 365
    requires days + 719_468 == 146_097 * era + 36_524 * c + 1_461 * f + 365 * y + doy
    ensures var year := 400 * era + 100 * c + 4 * f + y;
      && year >= 1969 && (year == 1969 ==> doy >= 306)
      && days == DaysToYear(year + 1) - 306 + doy
  {
    hide DaysToYear;
    var year := 400 * era + 100 * c + 4 * f + y;
    assert year / 4 == 100 * era + 25 * c + f;
    assert year / 100 == 4 * era + c;
    assert year / 400 == era;
    YearStart(1970);
    if year >= 1969 { YearStart(year + 1); }
  }

  lemma {:induction false} YearsGrow(y: int, z: int)
    requires 1970 <= y < z
    ensures DaysToYear(y) + DaysInYear(y) <= DaysToYear(z)
    decreases z
  {
    hide IsLeap;
    if y + 1 < z { YearsGrow(y, z - 1); }
  }

  lemma WithinYear(d: Date)
    requires Valid(d)
    ensures 0 <= DaysToMonth(d.year, d.month) + d.day - 1 < DaysInYear(d.year)
  {
    hide DaysToMonth;
    MonthStarts(d.year);
  }

  /** No two dates of the calendar are the same number of days from the epoch. */
  lemma DayNumberOnce(a: Date, b: Date)
    requires Valid(a) && Valid(b) && a.year >= 1970 && b.year >= 1970 && DayNumber(a) == DayNumber(b)
    ensures a == b
  {
    WithinYear(a);
    WithinYear(b);
    hide DaysToYear, DaysToMonth, IsLeap;
    if a.year < b.year { YearsGrow(a.year, b.year); }
    if b.year < a.year { YearsGrow(b.year, a.year); }
    MonthStarts(a.year);
  }

  /** The other way round: every date from the epoch on comes from its own day count. */
  lemma CivilBack(d: Date)
    requires Valid(d) && d.year >= 1970
    ensures DayNumber(d) >= 0 && Civil(DayNumber(d)) == d
  {
    hide Civil, DaysToMonth, IsLeap;
    WithinYear(d);
    if d.year > 1970 { YearsGrow(1970, d.year); }
    CivilIs(DayNumber(d));
    DayNumberOnce(Civil(DayNumber(d)), d);
  }

  lemma NextDayIs(d: Date)
    requires Valid(d) && d.year >= 1970
    ensures Valid(NextDay(d)) && NextDay(d).year >= 1970 && DayNumber(NextDay(d)) == DayNumber(d) + 1
  {
    hide DaysToMonth, IsLeap;
    MonthStarts(d.year);
    MonthStarts(d.year + 1);
  }

  /** The day after is the calendar's next date. */
  lemma NextCivil(days: int)
    requires days >= 0
    ensures Civil(days + 1) == NextDay(Civil(days)) && Civil(0) == Date(1970, 1, 1)
  {
    hide Civil, NextDay, DaysToYear, DaysToMonth;
    CivilIs(days);
    CivilIs(days + 1);
    NextDayIs(Civil(days));
    DayNumberOnce(Civil(days + 1), NextDay(Civil(days)));
    Epoch();
  }

  lemma Epoch()
    ensures Civil(0) == Date(1970, 1, 1)
  {
  }
}
