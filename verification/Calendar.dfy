/**
 Calendar arithmetic (src/common/rtclib.c): day numbers, calendar dates and Unix time.

 The reference is the Gregorian calendar itself: the leap rule, the month lengths and
 "the day after". The formulas of the source are related to it.
 */
module Calendar {

  const EPOCH_JDAY: int := 2440588
  const FIRST_JDAY: int := 1721426  // 1 January of the year 1
  const LAST_JDAY: int := 25657591  // 31 December of the last 16-bit year
  const SECONDS_A_DAY: int := 86400
  const TWO_TO_THE_32: int := 0x1_0000_0000

  // The year has 16 bits in the source, month and day have 8.
  datatype Date = Date(year: nat, month: nat, day: nat)
  datatype Time = Time(hour: nat, minute: nat, second: nat)

  /** Division of the C language: the quotient is truncated toward zero. */
  function CDiv(a: int, b: int): int
    requires b > 0
  {
    if a >= 0 then a / b else -((-a) / b)
  }

  // ----- The calendar

  predicate IsLeap(year: nat) {
    year % 4 == 0 && (year % 100 != 0 || year % 400 == 0)
  }

  function DaysInMonth(year: nat, month: nat): nat {
    if month == 2 then if IsLeap(year) then 29 else 28
    else if month in {4, 6, 9, 11} then 30 else 31
  }

  predicate ValidDate(d: Date) {
    && 1 <= d.year < 0x1_0000
    && 1 <= d.month <= 12
    && 1 <= d.day <= DaysInMonth(d.year, d.month)
  }

  const FirstDate := Date(1, 1, 1)
  const LastDate := Date(0xFFFF, 12, 31)

  function NextDay(d: Date): Date {
    if d.day < DaysInMonth(d.year, d.month) then d.(day := d.day + 1)
    else if d.month < 12 then Date(d.year, d.month + 1, 1)
    else Date(d.year + 1, 1, 1)
  }

  predicate Earlier(a: Date, b: Date) {
    a.year < b.year || (a.year == b.year && (a.month < b.month || (a.month == b.month && a.day < b.day)))
  }

  // ----- rtc_get_jday

  function JDay(d: Date): int {
    var i, j, k := d.year, d.month, d.day;
    k - 32075 + CDiv(1461 * (i + 4800 + CDiv(j - 14, 12)), 4)
    + CDiv(367 * (j - 2 - CDiv(j - 14, 12) * 12), 12)
    - CDiv(3 * CDiv(i + 4900 + CDiv(j - 14, 12), 100), 4)
  }

  /** The date in a year that starts on 1 March: the leap day comes last, so month
      lengths no longer depend on the year. */
  function MarchYear(d: Date): int {
    d.year + 4800 - if d.month <= 2 then 1 else 0
  }

  function MarchMonth(d: Date): int {
    if d.month <= 2 then d.month + 10 else d.month - 2
  }

  function DaysBeforeMarchMonth(m: int): int {
    367 * m / 12 - 30
  }

  function DaysBeforeMarchYear(y: int): int {
    1461 * y / 4 - 3 * ((y + 100) / 100) / 4
  }

  function MarchDay(d: Date): int {
    DaysBeforeMarchYear(MarchYear(d)) + DaysBeforeMarchMonth(MarchMonth(d)) + d.day
  }

  /** The truncating division by 12 only moves January and February to the year before;
      all other quotients are of natural numbers. */
  lemma JDayByMarchYear(d: Date)
    requires ValidDate(d)
    ensures MarchYear(d) >= 4800 && 1 <= MarchMonth(d) <= 12
    ensures JDay(d) == MarchDay(d) - 32045
  {
    assert CDiv(d.month - 14, 12) == if d.month <= 2 then -1 else 0;
    var y, m := MarchYear(d), MarchMonth(d);
    assert CDiv(1461 * y, 4) == 1461 * y / 4;
    assert CDiv(367 * m, 12) == 367 * m / 12;
    assert CDiv(y + 100, 100) == (y + 100) / 100;
    assert CDiv(3 * ((y + 100) / 100), 4) == 3 * ((y + 100) / 100) / 4;
  }

  /** Every month but the last of the March year has its calendar length. */
  lemma MarchMonthLength(d: Date)
    requires ValidDate(d) && d.month != 2
    ensures DaysBeforeMarchMonth(MarchMonth(d) + 1) - DaysBeforeMarchMonth(MarchMonth(d)) == DaysInMonth(d.year, d.month)
  {
    assert d.month in {1, 3, 4, 5, 6, 7, 8, 9, 10, 11, 12};
  }

  lemma FourYearCycle(y: nat)
    ensures 1461 * (y + 1) / 4 == 1461 * y / 4 + if (y + 1) % 4 == 0 then 366 else 365
  {
    var q, r := y / 4, y % 4;
    assert y == 4 * q + r;
    assert 1461 * y / 4 == 1461 * q + 1461 * r / 4;
    assert 1461 * (y + 1) / 4 == 1461 * q + 1461 * (r + 1) / 4;
  }

  lemma CenturyCorrection(c: nat)
    ensures 3 * (c + 1) / 4 == 3 * c / 4 + if c % 4 == 0 then 0 else 1
  {
    var q, r := c / 4, c % 4;
    assert c == 4 * q + r;
    assert 3 * c / 4 == 3 * q + 3 * r / 4;
    assert 3 * (c + 1) / 4 == 3 * q + 3 * (r + 1) / 4;
  }

  lemma LeapByCycles(year: nat, c: nat)
    requires c == (year + 4899) / 100
    ensures (year + 4900) / 100 == if year % 100 == 0 then c + 1 else c
    ensures year % 100 == 0 ==> (c % 4 == 0 <==> year % 400 == 0)
    ensures (year + 4800) % 4 == year % 4
  {
    var k, e := year / 100, year % 100;
    assert year == 100 * k + e;
    if e == 0 {
      assert c == k + 48;
      var s, t := k / 4, k % 4;
      assert year == 400 * s + 100 * t;
    }
  }

  /** The last one has 29 days exactly in leap years: a March year is followed by the next
      one after 365 or 366 days. */
  lemma MarchYearLength(year: nat)
    requires year >= 1
    ensures DaysBeforeMarchYear(year + 4800) == DaysBeforeMarchYear(year + 4799) + if IsLeap(year) then 366 else 365
  {
    var c := (year + 4899) / 100;
    FourYearCycle(year + 4799);
    LeapByCycles(year, c);
    CenturyCorrection(c);
    assert year % 100 == 0 ==> year % 4 == 0;
  }

  lemma MarchDayCountsDays(d: Date)
    requires ValidDate(d) && d != LastDate
    ensures ValidDate(NextDay(d)) && MarchDay(NextDay(d)) == MarchDay(d) + 1
  {
    if d.day == DaysInMonth(d.year, d.month) {
      if d.month == 2 {
        MarchYearLength(d.year);
        assert DaysBeforeMarchMonth(12) == 337 && DaysBeforeMarchMonth(1) == 0;
      } else {
        MarchMonthLength(d);
      }
    }
  }

  /** `rtc_get_jday` counts days: it grows by exactly one from a day to the next. */
  lemma JDayCountsDays(d: Date)
    requires ValidDate(d) && d != LastDate
    ensures ValidDate(NextDay(d)) && JDay(NextDay(d)) == JDay(d) + 1
  {
    MarchDayCountsDays(d);
    JDayByMarchYear(d);
    JDayByMarchYear(NextDay(d));
  }

  /** ... and its zero is where the Julian day count has it. */
  lemma KnownDays()
    ensures JDay(FirstDate) == FIRST_JDAY && JDay(LastDate) == LAST_JDAY
    ensures JDay(Date(1970, 1, 1)) == EPOCH_JDAY
  {
    assert CDiv(-13, 12) == -1;
    assert CDiv(1461 * 4800, 4) == 1753200 && CDiv(1461 * 6769, 4) == 2472377;
    assert CDiv(367 * 11, 12) == 336;
    assert CDiv(4900, 100) == 49 && CDiv(6869, 100) == 68;
    assert CDiv(3 * 49, 4) == 36 && CDiv(3 * 68, 4) == 51;
    assert CDiv(-2, 12) == 0 && CDiv(1461 * 70335, 4) == 25689858 && CDiv(367 * 10, 12) == 305;
    assert CDiv(70435, 100) == 704 && CDiv(3 * 704, 4) == 528;
  }

  /** Day numbers order dates, so the day number determines the date. */
  lemma {:induction false} JDayIsIncreasing(a: Date, b: Date)
    requires ValidDate(a) && ValidDate(b) && Earlier(a, b)
    ensures JDay(a) < JDay(b)
    decreases 0x1_0000 - a.year, 13 - a.month, 32 - a.day
  {
    JDayCountsDays(a);
    if NextDay(a) != b {
      JDayIsIncreasing(NextDay(a), b);
    }
  }

  lemma JDayIsInjective(a: Date, b: Date)
    requires ValidDate(a) && ValidDate(b) && JDay(a) == JDay(b)
    ensures a == b
  {
    if Earlier(a, b) {
      JDayIsIncreasing(a, b);
    } else if Earlier(b, a) {
      JDayIsIncreasing(b, a);
    }
  }

  /** Every day number from 1 January of the year 1 on belongs to a calendar day. */
  lemma {:induction false} DayOfNumber(n: int) returns (d: Date)
    requires FIRST_JDAY <= n <= LAST_JDAY
    ensures ValidDate(d) && JDay(d) == n
    decreases n
  {
    KnownDays();
    if n == FIRST_JDAY {
      d := FirstDate;
    } else {
      d := DayOfNumber(n - 1);
      JDayCountsDays(d);
      d := NextDay(d);
    }
  }

  // ----- rtc_get_gdate

  /** Beyond this bound the product 4*L overflows 32 bits in the source. */
  predicate InGDateRange(jday: nat) {
    jday + 68569 < 0x2000_0000
  }

  function GDate(jday: nat): Date
  {
    var l0 := jday + 68569;
    var n := CDiv(4 * l0, 146097);
    var l1 := l0 - CDiv(146097 * n + 3, 4);
    var i := CDiv(4000 * (l1 + 1), 1461001);
    var l2 := l1 - CDiv(1461 * i, 4) + 31;
    var j := CDiv(80 * l2, 2447);
    var k := l2 - CDiv(2447 * j, 80);
    var l3 := CDiv(j, 11);
    Date((100 * (n - 49) + i + l3) % 0x1_0000, (j + 2 - 12 * l3) % 0x100, k % 0x100)
  }

  /** The position of a date in its century: the days since its 1 March. */
  function DayOfCentury(d: Date): int {
    1461 * ((MarchYear(d) + 100) % 100) / 4 + DaysBeforeMarchMonth(MarchMonth(d)) + d.day - 1
  }

  lemma DayOfMarchYearBounds(d: Date)
    requires ValidDate(d)
    ensures 0 <= DaysBeforeMarchMonth(MarchMonth(d)) + d.day - 1 <= 365
    ensures DaysBeforeMarchMonth(MarchMonth(d)) + d.day - 1 == 365 ==> d.month == 2 && IsLeap(d.year)
  {
    assert d.month in {1, 2, 3, 4, 5, 6, 7, 8, 9, 10, 11, 12};
  }

  lemma CenturyArithmetic(c: nat, r: nat, l: int)
    requires l == 36525 * c - 3 * c / 4 + r
    requires r <= 36523 || (r == 36524 && c % 4 == 0)
    ensures 4 * l / 146097 == c && l - (146097 * c + 3) / 4 == r
  {
    var q, t := c / 4, c % 4;
    assert c == 4 * q + t;
    assert 3 * c / 4 == 3 * q + 3 * t / 4;
    assert 146097 * c <= 4 * l < 146097 * (c + 1);
  }

  /** First step of `rtc_get_gdate`: N is the century, and L drops to the day of the century. */
  lemma CenturyFound(d: Date)
    requires ValidDate(d)
    ensures var l, c := JDay(d) + 68569, (MarchYear(d) + 100) / 100;
            && l >= 0 && 4 * l / 146097 == c
            && l - (146097 * c + 3) / 4 == DayOfCentury(d)
  {
    JDayByMarchYear(d);
    DayOfMarchYearBounds(d);
    var y := MarchYear(d);
    var c, e := (y + 100) / 100, (y + 100) % 100;
    var r := DayOfCentury(d);
    assert y == 100 * c - 100 + e;
    assert 1461 * y / 4 == 36525 * (c - 1) + 1461 * e / 4;
    if r > 36523 {
      assert e == 99 && d.month == 2 && d.year == 100 * (c - 48);
      assert d.year % 400 == 0;
    }
    CenturyArithmetic(c, r, JDay(d) + 68569);
  }

  /** Second step: I is the year in the century. */
  lemma YearFound(d: Date)
    requires ValidDate(d)
    ensures var r, e := DayOfCentury(d), (MarchYear(d) + 100) % 100;
            r >= 0 && 4000 * (r + 1) / 1461001 == e
  {
    DayOfMarchYearBounds(d);
    var e := (MarchYear(d) + 100) % 100;
    var r := DayOfCentury(d);
    if r - 1461 * e / 4 == 365 {
      assert MarchYear(d) == d.year + 4799;
      assert (e + 1) % 4 == 0;
    }
    assert 4 * (r + 1) <= 1461 * (e + 1);
    assert 1461001 * e <= 4000 * (r + 1) < 1461001 * (e + 1);
  }

  /** Third step: J is the month of the March year and K the day of that month. */
  lemma MonthFound(d: Date)
    requires ValidDate(d)
    ensures var m := MarchMonth(d);
            var l := DaysBeforeMarchMonth(m) + d.day - 1 + 31;
            80 * l / 2447 == m && l - 2447 * m / 80 == d.day
  {
    var m := MarchMonth(d);
    assert m in {1, 2, 3, 4, 5, 6, 7, 8, 9, 10, 11, 12};
    assert d.day <= 31;
    assert DaysBeforeMarchMonth(m) + 30 == 2447 * m / 80;
  }

  lemma JDayRange(d: Date)
    requires ValidDate(d)
    ensures FIRST_JDAY <= JDay(d) <= LAST_JDAY
  {
    KnownDays();
    if d != FirstDate { JDayIsIncreasing(FirstDate, d); }
    if d != LastDate { JDayIsIncreasing(d, LastDate); }
  }

  /** The three steps put together: any number whose century, year and month are found
      has the date they say. */
  lemma GDateFromParts(jday: nat, c: nat, r: nat, e: nat, m: nat, k: nat)
    requires 4 * (jday + 68569) / 146097 == c && jday + 68569 - (146097 * c + 3) / 4 == r
    requires 4000 * (r + 1) / 1461001 == e && 1 <= m <= 12
    requires var l := r - 1461 * e / 4 + 31; l >= 0 && 80 * l / 2447 == m && l - 2447 * m / 80 == k
    ensures GDate(jday) == Date((100 * (c - 49) + e + m / 11) % 0x1_0000, (m + 2 - 12 * (m / 11)) % 0x100, k % 0x100)
  {
    assert CDiv(4 * (jday + 68569), 146097) == c;
    assert CDiv(146097 * c + 3, 4) == (146097 * c + 3) / 4;
    assert CDiv(4000 * (r + 1), 1461001) == e;
    assert CDiv(1461 * e, 4) == 1461 * e / 4;
    var l := r - 1461 * e / 4 + 31;
    assert CDiv(80 * l, 2447) == m;
    assert CDiv(2447 * m, 80) == 2447 * m / 80;
    assert CDiv(m, 11) == m / 11;
  }

  lemma FieldsOfMarchParts(d: Date, c: nat, e: nat, m: nat)
    requires ValidDate(d) && c == (MarchYear(d) + 100) / 100 && e == (MarchYear(d) + 100) % 100 && m == MarchMonth(d)
    ensures Date((100 * (c - 49) + e + m / 11) % 0x1_0000, (m + 2 - 12 * (m / 11)) % 0x100, d.day % 0x100) == d
  {
  }

  /** What the three steps find in the day number of a date. */
  lemma PartsFound(d: Date, jday: nat, c: nat, r: nat, e: nat, m: nat)
    requires ValidDate(d) && jday == JDay(d) && r == DayOfCentury(d)
    requires c == (MarchYear(d) + 100) / 100 && e == (MarchYear(d) + 100) % 100 && m == MarchMonth(d)
    ensures 4 * (jday + 68569) / 146097 == c && jday + 68569 - (146097 * c + 3) / 4 == r
    ensures 4000 * (r + 1) / 1461001 == e && 1 <= m <= 12
    ensures var l := r - 1461 * e / 4 + 31; l >= 0 && 80 * l / 2447 == m && l - 2447 * m / 80 == d.day
  {
    CenturyFound(d);
    YearFound(d);
    MonthFound(d);
    DayOfMarchYearBounds(d);
  }

  /** `rtc_get_gdate` undoes `rtc_get_jday` on every valid date. */
  lemma GDateOfJDay(d: Date)
    requires ValidDate(d)
    ensures JDay(d) >= 0 && InGDateRange(JDay(d)) && GDate(JDay(d)) == d
  {
    JDayRange(d);
    YearFound(d);
    var jday, c, r, e, m := JDay(d), (MarchYear(d) + 100) / 100, DayOfCentury(d), (MarchYear(d) + 100) % 100, MarchMonth(d);
    PartsFound(d, jday, c, r, e, m);
    GDateFromParts(jday, c, r, e, m, d.day);
    FieldsOfMarchParts(d, c, e, m);
  }

  /** `rtc_get_jday` undoes `rtc_get_gdate` from the first day of the year 1 on. */
  lemma JDayOfGDate(n: nat)
    requires FIRST_JDAY <= n <= LAST_JDAY
    ensures ValidDate(GDate(n)) && JDay(GDate(n)) == n
  {
    var d := DayOfNumber(n);
    GDateOfJDay(d);
  }

  method GetGDate(jday: nat) returns (pd: Date)
    requires InGDateRange(jday)
    ensures pd == GDate(jday)
  {
    var l, n, i, j, k;
    l := jday + 68569;
    n := CDiv(4 * l, 146097);
    l := l - CDiv(146097 * n + 3, 4);
    i := CDiv(4000 * (l + 1), 1461001);
    l := l - CDiv(1461 * i, 4) + 31;
    j := CDiv(80 * l, 2447);
    k := l - CDiv(2447 * j, 80);
    l := CDiv(j, 11);
    j := j + 2 - 12 * l;
    i := 100 * (n - 49) + i + l;
    pd := Date(i % 0x1_0000, j % 0x100, k % 0x100);
  }

  // ----- Unix time

  predicate ValidTime(t: Time) {
    t.hour < 24 && t.minute < 60 && t.second < 60
  }

  function SecondOfDay(t: Time): nat {
    t.hour * 3600 + t.minute * 60 + t.second
  }

  method Localtime(timestamp: nat) returns (date: Date, time: Time)
    requires timestamp < TWO_TO_THE_32
    ensures ValidDate(date) && JDay(date) == EPOCH_JDAY + timestamp / SECONDS_A_DAY
    ensures ValidTime(time) && SecondOfDay(time) == timestamp % SECONDS_A_DAY
  {
    var day := timestamp / (24 * 60 * 60) + EPOCH_JDAY;
    date := GetGDate(day);
    JDayOfGDate(day);
    var seconds := timestamp % (24 * 60 * 60);
    var hour := seconds / (60 * 60);
    var minute := (seconds - hour * 60 * 60) / 60;
    time := Time(hour, minute, seconds - hour * 60 * 60 - minute * 60);
  }

  /** The seconds from the epoch to a time of a numbered day, in 32-bit arithmetic. */
  function TimestampOf(jday: int, time: Time): nat {
    var days := jday % TWO_TO_THE_32;
    var since := if days > EPOCH_JDAY then days - EPOCH_JDAY else 0;
    (since * 24 * 60 * 60 + time.hour * 60 * 60 + time.minute * 60 + time.second) % TWO_TO_THE_32
  }

  function Mktime(date: Date, time: Time): nat {
    TimestampOf(JDay(date), time)
  }

  lemma TimestampSplits(days: nat, time: Time)
    requires days * 86400 + SecondOfDay(time) < TWO_TO_THE_32
    ensures TimestampOf(EPOCH_JDAY + days, time) == days * 86400 + SecondOfDay(time)
  {
    assert (EPOCH_JDAY + days) % TWO_TO_THE_32 == EPOCH_JDAY + days;
  }

  /** Any date and time that `rtc_localtime` may give for a timestamp lead back to it. */
  lemma MktimeOfLocaltime(timestamp: nat, date: Date, time: Time)
    requires timestamp < TWO_TO_THE_32
    requires ValidDate(date) && JDay(date) == EPOCH_JDAY + timestamp / SECONDS_A_DAY
    requires ValidTime(time) && SecondOfDay(time) == timestamp % SECONDS_A_DAY
    ensures Mktime(date, time) == timestamp
  {
    TimestampSplits(timestamp / SECONDS_A_DAY, time);
  }

  method LocaltimeThenMktime(timestamp: nat) returns (again: nat)
    requires timestamp < TWO_TO_THE_32
    ensures again == timestamp
  {
    var date, time := Localtime(timestamp);
    MktimeOfLocaltime(timestamp, date, time);
    again := Mktime(date, time);
  }

  // ----- rtc_date_compare and rtc_days_diff

  function DateCompare(date1: Date, date2: Date): int {
    if date2.year == date1.year then
      if date2.month == date1.month then date2.day - date1.day else date2.month - date1.month
    else date2.year - date1.year
  }

  function DaysDiff(date1: Date, date2: Date): int {
    if date1 == date2 then 0 else JDay(date2) - JDay(date1)
  }

  /** The field-wise comparison and the difference of day numbers agree in sign. */
  lemma CompareAgreesWithDiff(a: Date, b: Date)
    requires ValidDate(a) && ValidDate(b)
    ensures DateCompare(a, b) > 0 <==> DaysDiff(a, b) > 0
    ensures DateCompare(a, b) < 0 <==> DaysDiff(a, b) < 0
  {
    if Earlier(a, b) {
      JDayIsIncreasing(a, b);
    } else if Earlier(b, a) {
      JDayIsIncreasing(b, a);
    }
  }

  /** The difference is the number of days from the one date to the other: none to the same date, one to
      the next, and it adds up. */
  lemma DaysDiffCounts(a: Date, b: Date, c: Date)
    requires ValidDate(a) && ValidDate(b) && ValidDate(c)
    ensures DaysDiff(a, a) == 0 && DaysDiff(a, b) + DaysDiff(b, c) == DaysDiff(a, c)
    ensures a != LastDate ==> DaysDiff(a, NextDay(a)) == 1
  {
    if a != LastDate { JDayCountsDays(a); }
  }

  /** A second on a known day. */
  lemma KnownTime()
    ensures Mktime(Date(2001, 9, 9), Time(1, 46, 40)) == 1_000_000_000
  {
    assert CDiv(9 - 14, 12) == 0;
    assert JDay(Date(2001, 9, 9)) == 2452162;
  }
}
