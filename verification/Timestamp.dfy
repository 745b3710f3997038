/** The text of a point in time, `YYYY-MM-DD HH:MM:SS+0000`, and what it promises. */
module Timestamp {
  import opened Base
  import opened FixedWidth
  import opened Calendar

  const DAY := 86_400

  function DateText(d: Date): string {
    DateShape(PadInt(4, d.year), PadInt(2, d.month), PadInt(2, d.day))
  }

  function ClockText(secs: int): string {
    ClockShape(PadInt(2, secs / 3600), PadInt(2, secs % 3600 / 60), PadInt(2, secs % 60))
  }

  function DateShape(year: string, month: string, day: string): string {
    Join(year, "-", Join(month, "-", day))
  }

  function ClockShape(hour: string, minute: string, second: string): string {
    Join(hour, ":", Join(minute, ":", Join(second, "", "+0000")))
  }

  /** The division and remainder of the source are Euclidean, as Dafny's are. */
  function Format(epoch: int): string {
    Join(DateText(CivilFromDays(epoch / DAY)), " ", ClockText(epoch % DAY))
  }

  function Year(epoch: int): int {
    CivilFromDays(epoch / DAY).year
  }

  /** Every second of every date of the calendar is written as that date and time of day. */
  lemma FormatIs(d: Date, hour: nat, minute: nat, second: nat)
    requires Valid(d) && hour < 24 && minute < 60 && second < 60
    ensures Format(86_400 * DayNumber(d) + 3600 * hour + 60 * minute + second) ==
      PadInt(4, d.year) + "-" + PadInt(2, d.month) + "-" + PadInt(2, d.day) + " "
      + PadInt(2, hour) + ":" + PadInt(2, minute) + ":" + PadInt(2, second) + "+0000"
  {
    hide PadInt, Join, DateShape, ClockShape;
    var secs := 3600 * hour + 60 * minute + second;
    DayAndSecond(DayNumber(d), secs);
    DayNumberIsCivil(d);
    ClockSplit(hour, minute, second);
    TextJoins(PadInt(4, d.year), PadInt(2, d.month), PadInt(2, d.day), PadInt(2, hour), PadInt(2, minute),
      PadInt(2, second));
  }

  lemma DayAndSecond(day: int, secs: nat)
    requires secs < 86_400
    ensures (86_400 * day + secs) / DAY == day && (86_400 * day + secs) % DAY == secs
  {
  }

  lemma ClockSplit(hour: nat, minute: nat, second: nat)
    requires hour < 24 && minute < 60 && second < 60
    ensures var secs := 3600 * hour + 60 * minute + second;
      secs < 86_400 && secs / 3600 == hour && secs % 3600 / 60 == minute && secs % 60 == second
  {
  }

  lemma TextJoins(year: string, month: string, day: string, hour: string, minute: string, second: string)
    ensures Join(DateShape(year, month, day), " ", ClockShape(hour, minute, second)) ==
      year + "-" + month + "-" + day + " " + hour + ":" + minute + ":" + second + "+0000"
  {
    assert DateShape(year, month, day) == year + "-" + month + "-" + day;
    assert ClockShape(hour, minute, second) == hour + ":" + minute + ":" + second + "+0000";
    var date := year + "-" + month + "-" + day;
    assert date + " " + hour + ":" + minute + ":" + second + "+0000"
      == date + (" " + (hour + ":" + minute + ":" + second + "+0000"));
  }

  // ----- Reading the text back

  /** The number of the digits from `i` up to `j`. */
  function Field(s: string, i: nat, j: nat): Option<nat>
    requires i <= j <= |s|
  {
    Value(Dec, s[i..j])
  }

  /** The point in time a text of this form names. */
  function Parse(s: string): Option<int> {
    if |s| != 24 || s[4] != '-' || s[7] != '-' || s[10] != ' ' || s[13] != ':' || s[16] != ':' then None
    else if s[19..] != "+0000" then None
    else
      match (Field(s, 0, 4), Field(s, 5, 7), Field(s, 8, 10), Field(s, 11, 13), Field(s, 14, 16), Field(s, 17, 19))
      case (Some(year), Some(month), Some(day), Some(hour), Some(minute), Some(second)) =>
        if Valid(Date(year, month, day)) && hour < 24 && minute < 60 && second < 60 then
          Some(DAY * DayNumber(Date(year, month, day)) + 3600 * hour + 60 * minute + second)
        else None
      case _ => None
  }

  lemma TwoDigits(n: nat)
    requires n < 100
    ensures PadInt(2, n) == Digits(Dec, 2, n) && |PadInt(2, n)| == 2 && Value(Dec, PadInt(2, n)) == Some(n)
  {
    assert Dec.Room(2) == 100;
    PaddedIsDigits(2, n);
    DigitsRead(Dec, 2, n);
  }

  lemma FourDigits(n: nat)
    requires n < 10_000
    ensures PadInt(4, n) == Digits(Dec, 4, n) && |PadInt(4, n)| == 4 && Value(Dec, PadInt(4, n)) == Some(n)
  {
    assert Dec.Room(4) == 10_000 by {
      assert Dec.Room(2) == 100;
    }
    PaddedIsDigits(4, n);
    DigitsRead(Dec, 4, n);
  }

  /** Where the parts of a text of full width are. */
  lemma Fields(year: string, month: string, day: string, hour: string, minute: string, second: string)
    requires |year| == 4 && |month| == |day| == |hour| == |minute| == |second| == 2
    ensures |DateShape(year, month, day)| == 10
    ensures var s := Join(DateShape(year, month, day), " ", ClockShape(hour, minute, second));
      && |s| == 24 && s[4] == '-' && s[7] == '-' && s[10] == ' ' && s[13] == ':' && s[16] == ':' && s[19..] == "+0000"
      && s[0..4] == year && s[5..7] == month && s[8..10] == day
      && s[11..13] == hour && s[14..16] == minute && s[17..19] == second
  {
    var date, clock := DateShape(year, month, day), ClockShape(hour, minute, second);
    assert date[0..4] == year && date[5..7] == month && date[8..10] == day && date[4] == '-' && date[7] == '-';
    ClockFields(hour, minute, second);
    var s := Join(date, " ", clock);
    assert s[0..4] == date[0..4] && s[5..7] == date[5..7] && s[8..10] == date[8..10];
    assert s[11..] == clock;
    assert s[11..13] == clock[0..2] && s[14..16] == clock[3..5] && s[17..19] == clock[6..8] && s[19..] == clock[8..];
  }

  lemma ClockFields(hour: string, minute: string, second: string)
    requires |hour| == |minute| == |second| == 2
    ensures var s := ClockShape(hour, minute, second);
      && |s| == 13 && s[2] == ':' && s[5] == ':' && s[8..] == "+0000"
      && s[0..2] == hour && s[3..5] == minute && s[6..8] == second
  {
  }

  lemma SecondsOfDay(secs: int)
    requires 0 <= secs < DAY
    ensures secs == 3600 * (secs / 3600) + 60 * (secs % 3600 / 60) + secs % 60
    ensures secs / 3600 < 24 && secs % 3600 / 60 < 60
  {
  }

  /** A text of full width is read as the numbers its parts stand for. */
  lemma ShapeRead(s: string, d: Date, hour: nat, minute: nat, second: nat)
    requires |s| == 24 && s[4] == '-' && s[7] == '-' && s[10] == ' ' && s[13] == ':' && s[16] == ':'
    requires s[19..] == "+0000"
    requires Field(s, 0, 4) == Some(d.year) && Field(s, 5, 7) == Some(d.month) && Field(s, 8, 10) == Some(d.day)
    requires Field(s, 11, 13) == Some(hour) && Field(s, 14, 16) == Some(minute) && Field(s, 17, 19) == Some(second)
    requires Valid(d) && hour < 24 && minute < 60 && second < 60
    ensures Parse(s) == Some(DAY * DayNumber(d) + 3600 * hour + 60 * minute + second)
  {
  }

  lemma PartsRead(d: Date, hour: nat, minute: nat, second: nat, y: string, mo: string, da: string, h: string,
      mi: string, se: string)
    requires |y| == 4 && |mo| == |da| == |h| == |mi| == |se| == 2
    requires Value(Dec, y) == Some(d.year) && Value(Dec, mo) == Some(d.month) && Value(Dec, da) == Some(d.day)
    requires Value(Dec, h) == Some(hour) && Value(Dec, mi) == Some(minute) && Value(Dec, se) == Some(second)
    requires Valid(d) && hour < 24 && minute < 60 && second < 60
    ensures var s := Join(DateShape(y, mo, da), " ", ClockShape(h, mi, se));
      |s| == 24 && Parse(s) == Some(DAY * DayNumber(d) + (3600 * hour + 60 * minute + second))
  {
    Fields(y, mo, da, h, mi, se);
    ShapeRead(Join(DateShape(y, mo, da), " ", ClockShape(h, mi, se)), d, hour, minute, second);
  }

  lemma TextReadAt(d: Date, hour: nat, minute: nat, second: nat)
    requires Valid(d) && 0 <= d.year <= 9999 && hour < 24 && minute < 60 && second < 60
    ensures var s := Join(DateText(d), " ", ClockShape(PadInt(2, hour), PadInt(2, minute), PadInt(2, second)));
      |s| == 24 && Parse(s) == Some(DAY * DayNumber(d) + (3600 * hour + 60 * minute + second))
  {
    FourDigits(d.year);
    TwoDigits(d.month);
    TwoDigits(d.day);
    TwoDigits(hour);
    TwoDigits(minute);
    TwoDigits(second);
    PartsRead(d, hour, minute, second, PadInt(4, d.year), PadInt(2, d.month), PadInt(2, d.day),
      PadInt(2, hour), PadInt(2, minute), PadInt(2, second));
  }

  lemma TextRead(d: Date, secs: int)
    requires Valid(d) && 0 <= d.year <= 9999 && 0 <= secs < DAY
    ensures var s := Join(DateText(d), " ", ClockText(secs)); |s| == 24 && Parse(s) == Some(DAY * DayNumber(d) + secs)
  {
    hide Parse;
    var hour, minute, second := secs / 3600, secs % 3600 / 60, secs % 60;
    SecondsOfDay(secs);
    TextReadAt(d, hour, minute, second);
    assert 3600 * hour + 60 * minute + second == secs;
    assert ClockText(secs) == ClockShape(PadInt(2, hour), PadInt(2, minute), PadInt(2, second));
  }

  /** Years 0 to 9999: the text names the very second it was written for. */
  lemma RoundTrip(epoch: int)
    requires 0 <= Year(epoch) <= 9999
    ensures |Format(epoch)| == 24
    ensures Parse(Format(epoch)) == Some(epoch)
  {
    CivilIsDayNumber(epoch / DAY);
    TextRead(CivilFromDays(epoch / DAY), epoch % DAY);
  }

  // ----- Order

  lemma DateTextOrders(a: Date, b: Date)
    requires Valid(a) && Valid(b) && 0 <= a.year <= 9999 && 0 <= b.year <= 9999
    ensures |DateText(a)| == |DateText(b)|
    ensures LexLess(DateText(a), DateText(b)) <==> Before(a, b)
    ensures DateText(a) == DateText(b) <==> a == b
  {
    NumbersOrdered(4, a.year, b.year);
    NumbersOrdered(2, a.month, b.month);
    NumbersOrdered(2, a.day, b.day);
    DateTextLength(a);
    DateTextLength(b);
    DateShapeOrders(PadInt(4, a.year), PadInt(4, b.year), PadInt(2, a.month), PadInt(2, b.month),
      PadInt(2, a.day), PadInt(2, b.day));
    if DateText(a) == DateText(b) {
      DateShapeInjective(PadInt(4, a.year), PadInt(4, b.year), PadInt(2, a.month), PadInt(2, b.month),
        PadInt(2, a.day), PadInt(2, b.day));
    }
  }

  lemma DateShapeOrders(ya: string, yb: string, ma: string, mb: string, da: string, db: string)
    requires |ya| == |yb| && |ma| == |mb| && |da| == |db|
    ensures LexLess(DateShape(ya, ma, da), DateShape(yb, mb, db)) <==>
      LexLess(ya, yb) || (ya == yb && (LexLess(ma, mb) || (ma == mb && LexLess(da, db))))
  {
    JoinOrders(ya, yb, "-", Join(ma, "-", da), Join(mb, "-", db));
    JoinOrders(ma, mb, "-", da, db);
  }

  lemma DateTextLength(d: Date)
    requires Valid(d) && 0 <= d.year <= 9999
    ensures |DateText(d)| == 10
  {
    FourDigits(d.year);
    TwoDigits(d.month);
    TwoDigits(d.day);
  }

  lemma DateShapeInjective(ya: string, yb: string, ma: string, mb: string, da: string, db: string)
    requires |ya| == |yb| && |ma| == |mb| && |da| == |db|
    requires DateShape(ya, ma, da) == DateShape(yb, mb, db)
    ensures ya == yb && ma == mb && da == db
  {
    var s, t := DateShape(ya, ma, da), DateShape(yb, mb, db);
    var k := |ya| + 1 + |ma| + 1;
    assert s[..|ya|] == ya && t[..|ya|] == yb;
    assert s[|ya| + 1..k - 1] == ma && t[|ya| + 1..k - 1] == mb;
    assert s[k..] == da && t[k..] == db;
  }

  lemma NumbersOrdered(width: nat, m: nat, n: nat)
    requires (width == 2 && m < 100 && n < 100) || (width == 4 && m < 10_000 && n < 10_000)
    ensures |PadInt(width, m)| == |PadInt(width, n)| == width
    ensures LexLess(PadInt(width, m), PadInt(width, n)) <==> m < n
    ensures PadInt(width, m) == PadInt(width, n) <==> m == n
  {
    assert Dec.Room(2) == 100;
    assert Dec.Room(4) == 10_000;
    PaddedIsDigits(width, m);
    PaddedIsDigits(width, n);
    DigitsOrdered(Dec, width, m, n);
  }

  lemma ClockTextOrders(x: int, y: int)
    requires 0 <= x < DAY && 0 <= y < DAY
    ensures LexLess(ClockText(x), ClockText(y)) <==> x < y
  {
    SecondsOfDay(x);
    SecondsOfDay(y);
    NumbersOrdered(2, x / 3600, y / 3600);
    NumbersOrdered(2, x % 3600 / 60, y % 3600 / 60);
    NumbersOrdered(2, x % 60, y % 60);
    ClockShapeOrders(PadInt(2, x / 3600), PadInt(2, y / 3600), PadInt(2, x % 3600 / 60), PadInt(2, y % 3600 / 60),
      PadInt(2, x % 60), PadInt(2, y % 60));
    ClockOrders(x / 3600, x % 3600 / 60, x % 60, y / 3600, y % 3600 / 60, y % 60);
  }

  lemma ClockOrders(h: nat, m: nat, s: nat, h': nat, m': nat, s': nat)
    requires m < 60 && s < 60 && m' < 60 && s' < 60
    ensures 3600 * h + 60 * m + s < 3600 * h' + 60 * m' + s' <==> h < h' || (h == h' && (m < m' || (m == m' && s < s')))
  {
  }

  lemma ClockShapeOrders(ha: string, hb: string, ma: string, mb: string, sa: string, sb: string)
    requires |ha| == |hb| && |ma| == |mb| && |sa| == |sb|
    ensures LexLess(ClockShape(ha, ma, sa), ClockShape(hb, mb, sb)) <==>
      LexLess(ha, hb) || (ha == hb && (LexLess(ma, mb) || (ma == mb && LexLess(sa, sb))))
  {
    JoinOrders(ha, hb, ":", Join(ma, ":", Join(sa, "", "+0000")), Join(mb, ":", Join(sb, "", "+0000")));
    JoinOrders(ma, mb, ":", Join(sa, "", "+0000"), Join(sb, "", "+0000"));
    JoinOrders(sa, sb, "", "+0000", "+0000");
    LexIrreflexive("+0000");
  }

  /** Years 0 to 9999: the texts are ordered as strings exactly as the points in time are. */
  lemma TextOrderIsTimeOrder(e: int, f: int)
    requires 0 <= Year(e) <= 9999 && 0 <= Year(f) <= 9999
    ensures LexLess(Format(e), Format(f)) <==> e < f
  {
    var a, b := CivilFromDays(e / DAY), CivilFromDays(f / DAY);
    CivilIsDayNumber(e / DAY);
    CivilIsDayNumber(f / DAY);
    DayNumberOrders(a, b);
    DateTextOrders(a, b);
    ClockTextOrders(e % DAY, f % DAY);
    JoinOrders(DateText(a), DateText(b), " ", ClockText(e % DAY), ClockText(f % DAY));
  }

  lemma NegativeText(y: int)
    requires -999 <= y < 0
    ensures PadInt(4, y) == "-" + Digits(Dec, 3, -y) && |PadInt(4, y)| == 4 && PadInt(4, y)[0] == '-'
  {
    assert Dec.Room(3) == 1000;
    PaddedIsDigits(3, -y);
  }

  lemma PositiveText(y: nat)
    requires y < 10_000
    ensures |PadInt(4, y)| == 4 && '0' <= PadInt(4, y)[0] <= '9'
  {
    FourDigits(y);
    DecimalRead(y);
  }

  /** A later year has the later text exactly when it is not negative. */
  lemma YearTextOrders(y: int, z: int)
    requires -999 <= y < z <= 9999
    ensures |PadInt(4, y)| == |PadInt(4, z)| == 4 && PadInt(4, y) != PadInt(4, z)
    ensures LexLess(PadInt(4, y), PadInt(4, z)) <==> z >= 0
  {
    if y >= 0 {
      NumbersOrdered(4, y, z);
    } else if z >= 0 {
      NegativeText(y);
      PositiveText(z);
    } else {
      NegativeText(y);
      NegativeText(z);
      assert Dec.Room(3) == 1000;
      DigitsOrdered(Dec, 3, -y, -z);
      DigitsOrdered(Dec, 3, -z, -y);
      LexIrreflexive("-");
      LexConcat("-", "-", Digits(Dec, 3, -y), Digits(Dec, 3, -z));
      assert ("-" + Digits(Dec, 3, -y))[1..] == Digits(Dec, 3, -y);
      assert ("-" + Digits(Dec, 3, -z))[1..] == Digits(Dec, 3, -z);
    }
  }

  function MonthDay(d: Date): string
    requires Valid(d)
  {
    Join(PadInt(2, d.month), "-", PadInt(2, d.day))
  }

  lemma Regroup(year: string, month: string, day: string, clock: string)
    ensures Join(DateShape(year, month, day), " ", clock) == Join(year, "-", Join(Join(month, "-", day), " ", clock))
  {
  }

  lemma YearFirst(d: Date, clock: string)
    requires Valid(d)
    ensures Join(DateText(d), " ", clock) == Join(PadInt(4, d.year), "-", Join(MonthDay(d), " ", clock))
  {
    Regroup(PadInt(4, d.year), PadInt(2, d.month), PadInt(2, d.day), clock);
  }

  /** Texts of different years are ordered as their years are written. */
  lemma YearTextDecides(a: Date, b: Date, clock: string, clock': string)
    requires Valid(a) && Valid(b) && |PadInt(4, a.year)| == |PadInt(4, b.year)|
    requires PadInt(4, a.year) != PadInt(4, b.year)
    ensures LexLess(Join(DateText(a), " ", clock), Join(DateText(b), " ", clock')) <==>
      LexLess(PadInt(4, a.year), PadInt(4, b.year))
  {
    var resta, restb := Join(MonthDay(a), " ", clock), Join(MonthDay(b), " ", clock');
    YearFirst(a, clock);
    YearFirst(b, clock');
    JoinOrders(PadInt(4, a.year), PadInt(4, b.year), "-", resta, restb);
  }

  /**
   * From year -999 to 9999: of two points in time of different years the later
   * has the later text exactly when its year is not negative.
   */
  lemma NegativeYearsReverseOrder(e: int, f: int)
    requires -999 <= Year(e) < Year(f) <= 9999
    ensures e < f && (LexLess(Format(e), Format(f)) <==> Year(f) >= 0)
    ensures Year(f) < 0 ==> LexLess(Format(f), Format(e))
  {
    var a, b := CivilFromDays(e / DAY), CivilFromDays(f / DAY);
    CivilIsDayNumber(e / DAY);
    CivilIsDayNumber(f / DAY);
    DayNumberOrders(a, b);
    YearTextOrders(a.year, b.year);
    YearTextDecides(a, b, ClockText(e % DAY), ClockText(f % DAY));
    LexTotal(PadInt(4, a.year), PadInt(4, b.year));
    YearTextDecides(b, a, ClockText(f % DAY), ClockText(e % DAY));
  }

  /** Of two years the later one has the later text. */
  predicate YearsInOrder(y: int, z: int)
    requires y < z
  {
    if y >= 0 then Precedes(4, y, z) else z >= 0 || !Precedes(3, -z, -y)
  }

  lemma YearTextsOrder(y: int, z: int, u: string, v: string)
    requires y < z
    ensures LexLess(Join(PadInt(4, y), "-", u), Join(PadInt(4, z), "-", v)) <==> YearsInOrder(y, z)
  {
    hide Precedes, Decimal;
    if y >= 0 {
      NumbersBeforeHyphen(4, y, z, "-" + u, "-" + v);
    } else if z < 0 {
      NumbersBeforeHyphen(3, -z, -y, "-" + v, "-" + u);
      SignsAgree(PadLeft(3, Decimal(-y)), PadLeft(3, Decimal(-z)), u, v);
    } else {
      PaddedText(4, z);
      DigitsAreDigits(Width(4, z), z);
      WidthGrows(4, 0, z);
      assert Width(4, 0) >= 4;
      SignFirst(PadLeft(3, Decimal(-y)), PadLeft(4, Decimal(z)), u, v);
    }
  }

  lemma SignsAgree(s: string, t: string, u: string, v: string)
    ensures LexLess(Join("-" + s, "-", u), Join("-" + t, "-", v)) <==> LexLess(s + ("-" + u), t + ("-" + v))
  {
    assert Join("-" + s, "-", u) == "-" + (s + ("-" + u)) && Join("-" + t, "-", v) == "-" + (t + ("-" + v));
    LexIrreflexive("-");
    LexConcat("-", "-", s + ("-" + u), t + ("-" + v));
  }

  lemma SignFirst(s: string, t: string, u: string, v: string)
    requires t != "" && '0' <= t[0]
    ensures LexLess(Join("-" + s, "-", u), Join(t, "-", v))
  {
    assert Join("-" + s, "-", u)[0] == '-' && Join(t, "-", v)[0] == t[0];
  }

  /** Within a year, of any number of digits and either sign, texts are ordered as time. */
  lemma SameYearInOrder(e: int, f: int)
    requires Year(e) == Year(f)
    ensures LexLess(Format(e), Format(f)) <==> e < f
  {
    var a, b := CivilFromDays(e / DAY), CivilFromDays(f / DAY);
    CivilIsDayNumber(e / DAY);
    CivilIsDayNumber(f / DAY);
    DayNumberOrders(a, b);
    DayNumberOrders(b, a);
    YearFirst(a, ClockText(e % DAY));
    YearFirst(b, ClockText(f % DAY));
    LexIrreflexive(PadInt(4, a.year));
    JoinOrders(PadInt(4, a.year), PadInt(4, b.year), "-", Join(MonthDay(a), " ", ClockText(e % DAY)),
      Join(MonthDay(b), " ", ClockText(f % DAY)));
    NumbersOrdered(2, a.month, b.month);
    NumbersOrdered(2, a.day, b.day);
    JoinOrders(PadInt(2, a.month), PadInt(2, b.month), "-", PadInt(2, a.day), PadInt(2, b.day));
    MonthDayApart(a, b);
    JoinOrders(MonthDay(a), MonthDay(b), " ", ClockText(e % DAY), ClockText(f % DAY));
    ClockTextOrders(e % DAY, f % DAY);
  }

  lemma MonthDayApart(a: Date, b: Date)
    requires Valid(a) && Valid(b)
    ensures |MonthDay(a)| == |MonthDay(b)|
    ensures MonthDay(a) == MonthDay(b) <==> a.month == b.month && a.day == b.day
  {
    NumbersOrdered(2, a.month, b.month);
    NumbersOrdered(2, a.day, b.day);
    var s, t := MonthDay(a), MonthDay(b);
    assert s[..2] == PadInt(2, a.month) && t[..2] == PadInt(2, b.month);
    assert s[3..] == PadInt(2, a.day) && t[3..] == PadInt(2, b.day);
  }

  /**
   * For all instants: within a year the texts are ordered as the instants, and of two
   * in different years the later has the later text exactly when the years are in order.
   */
  lemma TextOrderExactlyWhen(e: int, f: int)
    requires e < f
    ensures Year(e) <= Year(f)
    ensures LexLess(Format(e), Format(f)) <==> Year(e) == Year(f) || YearsInOrder(Year(e), Year(f))
  {
    var a, b := CivilFromDays(e / DAY), CivilFromDays(f / DAY);
    CivilIsDayNumber(e / DAY);
    CivilIsDayNumber(f / DAY);
    DayNumberOrders(b, a);
    if a.year == b.year {
      SameYearInOrder(e, f);
    } else {
      YearFirst(a, ClockText(e % DAY));
      YearFirst(b, ClockText(f % DAY));
      YearTextsOrder(a.year, b.year, Join(MonthDay(a), " ", ClockText(e % DAY)),
        Join(MonthDay(b), " ", ClockText(f % DAY)));
    }
  }

  /** Beyond year 9999 the order of the strings is no longer that of time. */
  lemma FiveDigitYearBreaksOrder(e: int, f: int)
    requires Year(e) == 9999 && Year(f) == 10_000
    ensures e < f && LexLess(Format(f), Format(e))
  {
    var a, b := CivilFromDays(e / DAY), CivilFromDays(f / DAY);
    CivilIsDayNumber(e / DAY);
    CivilIsDayNumber(f / DAY);
    DayNumberOrders(a, b);
    FirstDigits();
    assert Format(e)[0] == DateText(a)[0] == PadInt(4, 9999)[0];
    assert Format(f)[0] == DateText(b)[0] == PadInt(4, 10_000)[0];
  }

  lemma FirstDigits()
    ensures PadInt(4, 9999) != "" && PadInt(4, 9999)[0] == '9'
    ensures PadInt(4, 10_000) != "" && PadInt(4, 10_000)[0] == '1'
  {
    assert Decimal(9999) == ((Decimal(9) + "9") + "9") + "9" by {
      assert Decimal(99) == Decimal(9) + "9";
      assert Decimal(999) == Decimal(99) + "9";
      assert Decimal(9999) == Decimal(999) + "9";
    }
    assert Decimal(10_000) == (((Decimal(1) + "0") + "0") + "0") + "0" by {
      assert Decimal(10) == Decimal(1) + "0";
      assert Decimal(100) == Decimal(10) + "0";
      assert Decimal(1000) == Decimal(100) + "0";
      assert Decimal(10_000) == Decimal(1000) + "0";
    }
  }
}
