/**
 * Days since 1970-01-01 to a date of the proleptic Gregorian calendar, by the
 * era arithmetic of `format_timestamp`, against the calendar itself (leap years
 * and month lengths, section 3.2.1 of ISO 8601:2004).
 */
module Calendar {
  datatype Date = Date(year: int, month: int, day: int)

  // ----- The calendar

  predicate Leap(year: int) {
    year % 4 == 0 && (year % 100 != 0 || year % 400 == 0)
  }

  function YearLength(year: int): int {
    if Leap(year) then 366 else 365
  }

  function MonthLength(year: int, month: int): int {
    if month == 2 then (if Leap(year) then 29 else 28)
    else if month in {4, 6, 9, 11} then 30 else 31
  }

  predicate Valid(d: Date) {
    1 <= d.month <= 12 && 1 <= d.day <= MonthLength(d.year, d.month)
  }

  function NextDay(d: Date): Date {
    if d.day < MonthLength(d.year, d.month) then Date(d.year, d.month, d.day + 1)
    else if d.month < 12 then Date(d.year, d.month + 1, 1)
    else Date(d.year + 1, 1, 1)
  }

  /** Days from 0000-01-01 to the first of January of a year. */
  function DaysBeforeYear(year: int): int {
    365 * year + (year + 3) / 4 - (year + 99) / 100 + (year + 399) / 400
  }

  function DaysBeforeMonth(year: int, month: int): int {
    if month <= 1 then 0 else DaysBeforeMonth(year, month - 1) + MonthLength(year, month - 1)
  }

  /** Days from 1970-01-01, counted forward through years, months and days. */
  function DayNumber(d: Date): int {
    DaysBeforeYear(d.year) - DaysBeforeYear(1970) + DaysBeforeMonth(d.year, d.month) + d.day - 1
  }

  lemma Step4(year: int)
    ensures (year + 4) / 4 == (year + 3) / 4 + if year % 4 == 0 then 1 else 0
  {
  }

  lemma Step100(year: int)
    ensures (year + 100) / 100 == (year + 99) / 100 + if year % 100 == 0 then 1 else 0
  {
  }

  lemma Step400(year: int)
    ensures (year + 400) / 400 == (year + 399) / 400 + if year % 400 == 0 then 1 else 0
  {
  }

  lemma Hundreds(k: int)
    ensures 100 * k % 100 == 0
  {
  }

  lemma Fours(k: int)
    ensures 4 * k % 4 == 0
  {
  }

  lemma FourHundreds(k: int)
    ensures 400 * k % 400 == 0
  {
  }

  lemma CenturyRest(k: int, x: int)
    requires 0 <= x < 100
    ensures (100 * k + x) % 100 == x
  {
  }

  /** A year divisible by 400 is divisible by 100, and one divisible by 100 by 4. */
  lemma Divisibility(year: int)
    ensures year % 400 == 0 ==> year % 100 == 0
    ensures year % 100 == 0 ==> year % 4 == 0
  {
    Hundreds(4 * (year / 400));
    Fours(25 * (year / 100));
  }

  /** The closed form adds one year's length at a time. */
  lemma DaysBeforeNextYear(year: int)
    ensures DaysBeforeYear(year + 1) == DaysBeforeYear(year) + YearLength(year)
  {
    Step4(year);
    Step100(year);
    Step400(year);
    Divisibility(year);
    var four, hundred, fourHundred := (year + 3) / 4, (year + 99) / 100, (year + 399) / 400;
    assert DaysBeforeYear(year) == 365 * year + four - hundred + fourHundred;
    assert DaysBeforeYear(year + 1) == 365 * (year + 1) + (year + 4) / 4 - (year + 100) / 100 + (year + 400) / 400;
  }

  // ----- The algorithm

  /** Every value the computation names, in order. */
  datatype Trace = Trace(days: int, z: int, era: int, doe: int, yoe: int, marchYear: int, doy: int, mp: int, date: Date)

  function CivilTrace(days: int): Trace {
    var z := days + 719_468;
    var era := z / 146_097;
    var doe := z % 146_097;
    var yoe := (doe - doe / 1460 + doe / 36_524 - doe / 146_096) / 365;
    var year := yoe + era * 400;
    var doy := doe - (365 * yoe + yoe / 4 - yoe / 100);
    var mp := (5 * doy + 2) / 153;
    var day := doy - (153 * mp + 2) / 5 + 1;
    var month := if mp < 10 then mp + 3 else mp - 9;
    Trace(days, z, era, doe, yoe, year, doy, mp, Date(if month <= 2 then year + 1 else year, month, day))
  }

  function CivilFromDays(days: int): Date {
    CivilTrace(days).date
  }

  /** Days of the era before its March-based year `y`. */
  function DaysBeforeYoe(y: int): int {
    365 * y + y / 4 - y / 100
  }

  /** The year of the era, and the day within it, by splitting off centuries, then four-year cycles, then years. */
  lemma YearOfEra(doe: int, c: int, q: int, t: int, k: int)
    requires 0 <= c <= 3 && 0 <= q <= 24 && 0 <= t <= 3
    requires 0 <= k <= (if t == 3 && (q < 24 || c == 3) then 365 else 364)
    requires doe == 36_524 * c + 1461 * q + 365 * t + k
    ensures (doe - doe / 1460 + doe / 36_524 - doe / 146_096) / 365 == 100 * c + 4 * q + t
    ensures doe - DaysBeforeYoe(100 * c + 4 * q + t) == k
  {
    var j := 4 * q + t;
    assert (100 * c + j) / 4 == 25 * c + q;
    assert (100 * c + j) / 100 == c;
    var r := 1461 * q + 365 * t + k;
    var rest := 24 * c + q + 365 * t + k;
    assert 24 * c + r == 1460 * q + rest;
    assert doe == 1460 * (25 * c + q) + rest;
    var extra := rest / 1460;
    assert doe / 1460 == 25 * c + q + extra;
    assert extra == 0 || (extra == 1 && t == 3 && k >= 1);
    if r == 36_524 {
      assert doe == 146_096;
    } else {
      assert doe / 36_524 == c;
      assert doe / 146_096 == 0;
    }
  }

  /** Every day of the era splits that way. */
  lemma EraSplits(doe: int) returns (c: int, q: int, t: int, k: int)
    requires 0 <= doe < 146_097
    ensures 0 <= c <= 3 && 0 <= q <= 24 && 0 <= t <= 3
    ensures 0 <= k <= (if t == 3 && (q < 24 || c == 3) then 365 else 364)
    ensures doe == 36_524 * c + 1461 * q + 365 * t + k
  {
    c := if doe == 146_096 then 3 else doe / 36_524;
    var r := doe - 36_524 * c;
    q := r / 1461;
    var s := r - 1461 * q;
    t := if s == 1460 then 3 else s / 365;
    k := s - 365 * t;
  }

  /** Days of the March-based year before its month `mp`. */
  function DaysBeforeMp(mp: int): int {
    (153 * mp + 2) / 5
  }

  lemma MonthOfYear(doy: int)
    requires 0 <= doy <= 365
    ensures var mp := (5 * doy + 2) / 153;
      0 <= mp <= 11 && DaysBeforeMp(mp) <= doy && (mp < 11 ==> doy < DaysBeforeMp(mp + 1))
  {
  }

  /** The first of March splits the year: two months before it, ten from it on. */
  lemma MonthsFromMarch(year: int, mp: int)
    requires 0 <= mp <= 11
    ensures mp < 10 ==> DaysBeforeMonth(year, mp + 3) == DaysBeforeMp(mp) + YearLength(year) - 306
    ensures mp >= 10 ==> DaysBeforeMonth(year, mp - 9) == DaysBeforeMp(mp) - 306
    ensures mp < 10 ==> MonthLength(year, mp + 3) == DaysBeforeMp(mp + 1) - DaysBeforeMp(mp)
    ensures MonthLength(year, 1) == DaysBeforeMp(11) - DaysBeforeMp(10)
  {
    assert DaysBeforeMonth(year, 1) == 0;
    assert DaysBeforeMonth(year, 2) == 31;
    assert DaysBeforeMonth(year, 3) == YearLength(year) - 306;
    assert DaysBeforeMonth(year, 4) == YearLength(year) - 275;
    assert DaysBeforeMonth(year, 5) == YearLength(year) - 245;
    assert DaysBeforeMonth(year, 6) == YearLength(year) - 214;
    assert DaysBeforeMonth(year, 7) == YearLength(year) - 184;
    assert DaysBeforeMonth(year, 8) == YearLength(year) - 153;
    assert DaysBeforeMonth(year, 9) == YearLength(year) - 122;
    assert DaysBeforeMonth(year, 10) == YearLength(year) - 92;
    assert DaysBeforeMonth(year, 11) == YearLength(year) - 61;
    assert DaysBeforeMonth(year, 12) == YearLength(year) - 31;
  }

  lemma EraShift(era: int, yoe: int)
    requires 0 <= yoe < 400
    ensures (400 * era + yoe + 4) / 4 == 100 * era + yoe / 4 + 1
    ensures (400 * era + yoe + 100) / 100 == 4 * era + yoe / 100 + 1
    ensures (400 * era + yoe + 400) / 400 == era + 1
  {
  }

  /** The era repeats every 400 years. */
  lemma EraRepeats(era: int, yoe: int)
    requires 0 <= yoe < 400
    ensures DaysBeforeYear(400 * era + yoe + 1) == 146_097 * era + DaysBeforeYoe(yoe) + 366
  {
    EraShift(era, yoe);
    assert DaysBeforeYear(400 * era + yoe + 1) == 365 * (400 * era + yoe + 1) + (400 * era + yoe + 4) / 4
      - (400 * era + yoe + 100) / 100 + (400 * era + yoe + 400) / 400;
  }

  /** The year after a four-year cycle is a leap year, but for the first three centuries' last. */
  lemma LeapAfterCycle(era: int, c: int, q: int)
    requires 0 <= c <= 3 && 0 <= q <= 24 && (q < 24 || c == 3)
    ensures Leap(400 * era + 100 * c + 4 * q + 4)
  {
    var year := 400 * era + 100 * c + 4 * q + 4;
    assert year % 4 == 0 by {
      Fours(100 * era + 25 * c + q + 1);
      assert year == 4 * (100 * era + 25 * c + q + 1);
    }
    if q < 24 {
      CenturyRest(4 * era + c, 4 * q + 4);
      assert year == 100 * (4 * era + c) + (4 * q + 4);
    } else {
      FourHundreds(era + 1);
      assert year == 400 * (era + 1);
    }
  }

  lemma DayOfMarchYear(days: int)
    ensures var tr := CivilTrace(days);
      && 0 <= tr.yoe < 400 && 0 <= tr.doy <= 365
      && tr.doe == DaysBeforeYoe(tr.yoe) + tr.doy
      && (tr.doy == 365 ==> Leap(tr.marchYear + 1))
  {
    var tr := CivilTrace(days);
    var c, q, t, k := EraSplits(tr.doe);
    YearOfEra(tr.doe, c, q, t, k);
    if k == 365 {
      LeapAfterCycle(tr.era, c, q);
    }
  }

  /** The date with the given month of a March-based year of an era. */
  function MarchDate(era: int, yoe: int, mp: int, day: int): Date {
    var year := yoe + era * 400;
    Date(if mp < 10 then year else year + 1, if mp < 10 then mp + 3 else mp - 9, day)
  }

  /** Counting forward to a date in the terms of eras and March-based years. */
  lemma MarchDateCounted(era: int, yoe: int, mp: int, day: int)
    requires 0 <= yoe < 400 && 0 <= mp <= 11
    ensures DayNumber(MarchDate(era, yoe, mp, day)) ==
      146_097 * era + DaysBeforeYoe(yoe) + DaysBeforeMp(mp) + day - 1 - 719_468
  {
    var year := yoe + era * 400;
    EraRepeats(era, yoe);
    MonthsFromMarch(if mp < 10 then year else year + 1, mp);
    DaysBeforeNextYear(year);
    assert DaysBeforeYear(1970) == 719_528;
  }

  /**
   * The computed date is a date of the calendar, and counting forward to it
   * gives back the day it was computed from.
   */
  lemma CivilIsDayNumber(days: int)
    ensures Valid(CivilFromDays(days))
    ensures DayNumber(CivilFromDays(days)) == days
  {
    var tr := CivilTrace(days);
    DayOfMarchYear(days);
    MonthOfYear(tr.doy);
    assert tr.date == MarchDate(tr.era, tr.yoe, tr.mp, tr.date.day);
    MarchDateCounted(tr.era, tr.yoe, tr.mp, tr.date.day);
    assert tr.z == 146_097 * tr.era + tr.doe;
    MonthsFromMarch(tr.date.year, tr.mp);
  }

  // ----- The calendar counts days without gap or overlap

  lemma {:induction false} MonthsOrdered(year: int, m: int, n: int)
    requires 1 <= m < n <= 13
    ensures DaysBeforeMonth(year, m) + MonthLength(year, m) <= DaysBeforeMonth(year, n)
  {
    if m + 1 < n {
      MonthsOrdered(year, m, n - 1);
    }
  }

  lemma MonthWithinYear(d: Date)
    requires Valid(d)
    ensures 0 <= DaysBeforeMonth(d.year, d.month) && DaysBeforeMonth(d.year, d.month) + d.day <= YearLength(d.year)
  {
    MonthsOrdered(d.year, d.month, 13);
    if d.month > 1 {
      MonthsOrdered(d.year, 1, d.month);
    }
    MonthsFromMarch(d.year, 9);
    assert DaysBeforeMonth(d.year, 13) == YearLength(d.year);
  }

  lemma {:induction false} YearsOrdered(y: int, z: int)
    requires y < z
    ensures DaysBeforeYear(y) + YearLength(y) <= DaysBeforeYear(z)
    decreases z - y
  {
    DaysBeforeNextYear(z - 1);
    if y + 1 < z {
      YearsOrdered(y, z - 1);
    }
  }

  predicate Before(a: Date, b: Date) {
    a.year < b.year || (a.year == b.year && (a.month < b.month || (a.month == b.month && a.day < b.day)))
  }

  /** The day number orders the dates of the calendar as the calendar does. */
  lemma DayNumberOrders(a: Date, b: Date)
    requires Valid(a) && Valid(b)
    ensures Before(a, b) <==> DayNumber(a) < DayNumber(b)
    ensures a == b <==> DayNumber(a) == DayNumber(b)
  {
    if Before(a, b) {
      EarlierCountsLess(a, b);
    } else if Before(b, a) {
      EarlierCountsLess(b, a);
    }
  }

  lemma EarlierCountsLess(a: Date, b: Date)
    requires Valid(a) && Valid(b) && Before(a, b)
    ensures DayNumber(a) < DayNumber(b)
  {
    if a.year < b.year {
      YearsOrdered(a.year, b.year);
      MonthWithinYear(a);
      MonthWithinYear(b);
    } else if a.month < b.month {
      MonthsOrdered(a.year, a.month, b.month);
    }
  }

  /** Every date of the calendar is the one computed from its day number. */
  lemma DayNumberIsCivil(d: Date)
    requires Valid(d)
    ensures CivilFromDays(DayNumber(d)) == d
  {
    CivilIsDayNumber(DayNumber(d));
    DayNumberOrders(CivilFromDays(DayNumber(d)), d);
  }

  lemma NextDayCountsOne(d: Date)
    requires Valid(d)
    ensures Valid(NextDay(d)) && DayNumber(NextDay(d)) == DayNumber(d) + 1
  {
    if d.day == MonthLength(d.year, d.month) && d.month == 12 {
      DaysBeforeNextYear(d.year);
      MonthsFromMarch(d.year, 9);
    }
  }

  /** Day 0 is 1970-01-01 and each day is the calendar's successor of the one before. */
  lemma CivilFollowsCalendar(days: int)
    ensures CivilFromDays(0) == Date(1970, 1, 1)
    ensures CivilFromDays(days + 1) == NextDay(CivilFromDays(days))
  {
    var d := CivilFromDays(days);
    assert CivilFromDays(days + 1) == NextDay(d) by {
      CivilIsDayNumber(days);
      NextDayCountsOne(d);
      DayNumberIsCivil(NextDay(d));
    }
    assert CivilFromDays(0) == Date(1970, 1, 1) by {
      DayNumberIsCivil(Date(1970, 1, 1));
    }
  }

  // ----- No intermediate value leaves the range of an `i64`

  predicate InI64(n: int) {
    -0x8000_0000_0000_0000 <= n < 0x8000_0000_0000_0000
  }

  lemma NoOverflow(epoch: int)
    requires InI64(epoch)
    ensures var tr := CivilTrace(epoch / 86_400);
      && InI64(tr.days) && InI64(tr.z) && InI64(tr.era) && InI64(tr.era * 400) && InI64(tr.marchYear)
      && 0 <= tr.doe < 146_097 && 0 <= tr.yoe < 400 && 0 <= tr.doy <= 365 && 0 <= 5 * tr.doy + 2 < 1828
      && 0 <= tr.mp <= 11 && InI64(tr.date.year) && 1 <= tr.date.month <= 12 && 1 <= tr.date.day <= 31
  {
    DayOfMarchYear(epoch / 86_400);
    MonthOfYear(CivilTrace(epoch / 86_400).doy);
    CivilIsDayNumber(epoch / 86_400);
  }
}
