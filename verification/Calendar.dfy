/**
 Calendar arithmetic of the real-time clock (tm_stm32f4_rtc.c): seconds since 1970 to a date and
 back, and the validation of a date to be set.
 */
module Calendar {
  import opened Arith

  const LIMIT: nat := 0x1_0000_0000
  const DAY: nat := 86400

  // ---------------------------------------------------------------- the calendar

  /** RTC_LEAP_YEAR. */
  predicate Leap(year: nat) { (year % 4 == 0 && year % 100 != 0) || year % 400 == 0 }

  function DaysInYear(year: nat): nat { if Leap(year) then 366 else 365 }

  /** TM_RTC_Months, counting months from 1. */
  function DaysInMonth(leap: bool, month: nat): nat
    requires 1 <= month <= 12
  {
    if month == 2 then (if leap then 29 else 28)
    else if month == 4 || month == 6 || month == 9 || month == 11 then 30 else 31
  }

  /** Days from the start of 1970 to the start of `year`. */
  function DaysBefore(year: nat): nat
    requires year >= 1970
  {
    if year == 1970 then 0 else DaysBefore(year - 1) + DaysInYear(year - 1)
  }

  /** Days of the months in front of `month`. */
  function DaysBeforeMonth(leap: bool, month: nat): nat
    requires month <= 13
  {
    if month <= 1 then 0 else DaysBeforeMonth(leap, month - 1) + DaysInMonth(leap, month - 1)
  }

  /** The years in closed form: every fourth is a leap year, but of the centuries only every fourth. */
  lemma {:induction false} YearsClosed(year: nat)
    requires year >= 1970
    ensures DaysBefore(year) == 365 * (year - 1970) + (year - 1) / 4 - (year - 1) / 100 + (year - 1) / 400 - 477
  {
    if year > 1970 {
      YearsClosed(year - 1);
      Multiples(year - 1, 4);
      Multiples(year - 1, 100);
      Multiples(year - 1, 400);
      Centuries(year - 1);
    }
  }

  lemma Multiples(n: nat, k: nat)
    requires n > 0 && k > 1
    ensures n / k == (n - 1) / k + if n % k == 0 then 1 else 0
  {
    var q, r := (n - 1) / k, (n - 1) % k;
    if r + 1 == k { DivModUnique(n, k, q + 1, 0); } else { DivModUnique(n, k, q, r + 1); }
  }

  lemma Centuries(n: nat)
    ensures n % 400 == 0 ==> n % 100 == 0
    ensures n % 100 == 0 ==> n % 4 == 0
  {
    if n % 400 == 0 { MultipleMod(100, 4 * (n / 400)); }
    if n % 100 == 0 { MultipleMod(4, 25 * (n / 100)); }
  }

  /** The months in closed form: day of the year of each month's first, February being short. */
  lemma MonthsClosed(leap: bool, month: nat)
    requires 1 <= month <= 13
    ensures DaysBeforeMonth(leap, month) ==
            (367 * month - 362) / 12 - if month <= 2 then 0 else if leap then 1 else 2
  {
    FirstMonths(leap);
  }

  lemma FirstMonths(leap: bool)
    ensures DaysBeforeMonth(leap, 1) == 0 && DaysBeforeMonth(leap, 2) == 31
    ensures var f := if leap then 60 else 59;
            && DaysBeforeMonth(leap, 3) == f && DaysBeforeMonth(leap, 4) == f + 31
            && DaysBeforeMonth(leap, 5) == f + 61 && DaysBeforeMonth(leap, 6) == f + 92
            && DaysBeforeMonth(leap, 7) == f + 122 && DaysBeforeMonth(leap, 8) == f + 153
            && DaysBeforeMonth(leap, 9) == f + 184 && DaysBeforeMonth(leap, 10) == f + 214
            && DaysBeforeMonth(leap, 11) == f + 245 && DaysBeforeMonth(leap, 12) == f + 275
            && DaysBeforeMonth(leap, 13) == f + 306
  {
  }

  datatype Civil = Civil(year: nat, month: nat, date: nat, hours: nat, minutes: nat, seconds: nat)

  predicate ValidTime(c: Civil) { c.hours < 24 && c.minutes < 60 && c.seconds < 60 }

  predicate ValidCivil(c: Civil)
  {
    && c.year >= 1970 && 1 <= c.month <= 12 && 1 <= c.date <= DaysInMonth(Leap(c.year), c.month)
    && ValidTime(c)
  }

  /** Days since 1 January 1970. */
  function DayNumber(c: Civil): int
    requires c.year >= 1970 && c.month <= 13
  {
    DaysBefore(c.year) + DaysBeforeMonth(Leap(c.year), c.month) + c.date - 1
  }

  function TimeOfDay(c: Civil): nat { c.hours * 3600 + c.minutes * 60 + c.seconds }

  /** Seconds since the start of 1970, section 4.16 of POSIX.1-2017. */
  function Seconds(c: Civil): int
    requires c.year >= 1970 && c.month <= 13
  {
    DayNumber(c) * DAY + TimeOfDay(c)
  }

  lemma YearIsItsMonths(leap: bool)
    ensures DaysBeforeMonth(leap, 13) == if leap then 366 else 365
  {
    var feb := if leap then 29 else 28;
    assert DaysBeforeMonth(leap, 2) == 31;
    assert DaysBeforeMonth(leap, 3) == 31 + feb;
    assert DaysBeforeMonth(leap, 4) == 62 + feb;
    assert DaysBeforeMonth(leap, 5) == 92 + feb;
    assert DaysBeforeMonth(leap, 6) == 123 + feb;
    assert DaysBeforeMonth(leap, 7) == 153 + feb;
    assert DaysBeforeMonth(leap, 8) == 184 + feb;
    assert DaysBeforeMonth(leap, 9) == 215 + feb;
    assert DaysBeforeMonth(leap, 10) == 245 + feb;
    assert DaysBeforeMonth(leap, 11) == 276 + feb;
    assert DaysBeforeMonth(leap, 12) == 306 + feb;
  }

  lemma {:induction false} MonthsMonotone(leap: bool, m: nat, n: nat)
    requires 1 <= m <= n <= 13
    ensures DaysBeforeMonth(leap, m) <= DaysBeforeMonth(leap, n)
    decreases n
  {
    if m < n { MonthsMonotone(leap, m, n - 1); }
  }

  lemma {:induction false} YearsBetween(y: nat, n: nat)
    requires y >= 1970
    ensures DaysBefore(y) + 365 * n <= DaysBefore(y + n) <= DaysBefore(y) + 366 * n
  {
    if n > 0 { YearsBetween(y, n - 1); }
  }

  /** A date is inside its month, and its month inside its year. */
  lemma InsideYear(c: Civil)
    requires ValidCivil(c)
    ensures DaysBefore(c.year) <= DayNumber(c) < DaysBefore(c.year + 1)
  {
    MonthsMonotone(Leap(c.year), c.month + 1, 13);
    YearIsItsMonths(Leap(c.year));
  }

  /** Different days have different numbers. */
  lemma DayNumberUnique(a: Civil, b: Civil)
    requires ValidCivil(a) && ValidCivil(b) && DayNumber(a) == DayNumber(b)
    ensures a.year == b.year && a.month == b.month && a.date == b.date
  {
    hide DaysBefore, DaysBeforeMonth, DaysInMonth;
    InsideYear(a);
    InsideYear(b);
    if a.year < b.year { YearsBetween(a.year + 1, b.year - a.year - 1); }
    if b.year < a.year { YearsBetween(b.year + 1, a.year - b.year - 1); }
    MonthOrder(Leap(a.year), a.month, a.date, b.month, b.date);
  }

  lemma MonthOrder(leap: bool, m: nat, d: nat, n: nat, e: nat)
    requires 1 <= m <= 12 && 1 <= n <= 12 && 1 <= d <= DaysInMonth(leap, m) && 1 <= e <= DaysInMonth(leap, n)
    requires DaysBeforeMonth(leap, m) + d == DaysBeforeMonth(leap, n) + e
    ensures m == n && d == e
  {
    hide DaysInMonth;
    if m < n { MonthsMonotone(leap, m + 1, n); }
    if n < m { MonthsMonotone(leap, n + 1, m); }
  }

  /** Different valid dates are different moments. */
  lemma SecondsUnique(a: Civil, b: Civil)
    requires ValidCivil(a) && ValidCivil(b) && Seconds(a) == Seconds(b)
    ensures a == b
  {
    hide DayNumber;
    DivModUnique(Seconds(a), DAY, DayNumber(a), TimeOfDay(a));
    DivModUnique(Seconds(b), DAY, DayNumber(b), TimeOfDay(b));
    DayNumberUnique(a, b);
  }

  // ---------------------------------------------------------------- from seconds to a date

  /** The year a day lies in, counting on from the start of `year`. */
  function YearFrom(year: nat, days: nat): nat
    decreases days
  {
    if days >= DaysInYear(year) then YearFrom(year + 1, days - DaysInYear(year)) else year
  }

  /** The month a day of the year lies in, counting on from the start of `month`. */
  function MonthFrom(leap: bool, month: nat, days: nat): nat
    requires 1 <= month <= 13
    decreases 13 - month
  {
    if month <= 12 && days >= DaysInMonth(leap, month)
    then MonthFrom(leap, month + 1, days - DaysInMonth(leap, month))
    else month
  }

  lemma {:induction false} YearFromInside(year: nat, days: nat)
    requires year >= 1970
    ensures var y := YearFrom(year, days);
            y >= year && DaysBefore(y) <= DaysBefore(year) + days < DaysBefore(y + 1)
    decreases days
  {
    if days >= DaysInYear(year) { YearFromInside(year + 1, days - DaysInYear(year)); }
  }

  lemma {:induction false} MonthFromInside(leap: bool, month: nat, days: nat)
    requires 1 <= month <= 12 && DaysBeforeMonth(leap, month) + days < DaysBeforeMonth(leap, 13)
    ensures var m := MonthFrom(leap, month, days);
            && month <= m <= 12
            && DaysBeforeMonth(leap, m) <= DaysBeforeMonth(leap, month) + days < DaysBeforeMonth(leap, m + 1)
    decreases 13 - month
  {
    hide DaysInMonth;
    NextMonth(leap, month);
    if days >= DaysInMonth(leap, month) { MonthFromInside(leap, month + 1, days - DaysInMonth(leap, month)); }
  }

  lemma NextMonth(leap: bool, month: nat)
    requires 1 <= month <= 12
    ensures DaysBeforeMonth(leap, month + 1) == DaysBeforeMonth(leap, month) + DaysInMonth(leap, month)
  {
  }

  /** The date at `unix` seconds. */
  function FromUnix(unix: nat): (c: Civil)
  {
    var days := unix / 60 / 60 / 24;
    var year := YearFrom(1970, days);
    YearFromInside(1970, days);
    var left := days - DaysBefore(year);
    var month := MonthFrom(Leap(year), 1, left);
    MonthOfYear(year, left);
    Civil(year, month, left - DaysBeforeMonth(Leap(year), month) + 1, unix / 60 / 60 % 24, unix / 60 % 60, unix % 60)
  }

  lemma MonthOfYear(year: nat, left: nat)
    requires year >= 1970 && DaysBefore(year) + left < DaysBefore(year + 1)
    ensures var m := MonthFrom(Leap(year), 1, left);
            1 <= m <= 12 && DaysBeforeMonth(Leap(year), m) <= left < DaysBeforeMonth(Leap(year), m + 1)
  {
    hide DaysBeforeMonth, MonthFrom;
    YearIsItsMonths(Leap(year));
    NoMonthsBefore(Leap(year));
    MonthFromInside(Leap(year), 1, left);
  }

  lemma NoMonthsBefore(leap: bool)
    ensures DaysBeforeMonth(leap, 1) == 0
  {
  }

  /** The date at a moment is valid and is that moment. */
  lemma FromUnixIsInverse(unix: nat)
    ensures ValidCivil(FromUnix(unix)) && Seconds(FromUnix(unix)) == unix
  {
    hide DaysBefore, YearFrom, MonthFrom, Leap;
    var days := unix / 60 / 60 / 24;
    YearFromInside(1970, days);
    assert DaysBefore(1970) == 0 by { FirstYear(); }
    var year := YearFrom(1970, days);
    MonthOfYear(year, days - DaysBefore(year));
    TimeSplits(unix);
  }

  lemma FirstYear()
    ensures DaysBefore(1970) == 0
  {
  }

  lemma TimeSplits(unix: nat)
    ensures unix == unix / 60 / 60 / 24 * DAY + (unix / 60 / 60 % 24) * 3600 + (unix / 60 % 60) * 60 + unix % 60
  {
  }

  /** Every valid date is what its moment is converted to. */
  lemma FromUnixOfSeconds(c: Civil)
    requires ValidCivil(c)
    ensures Seconds(c) >= 0 && FromUnix(Seconds(c)) == c
  {
    InsideYear(c);
    FromUnixIsInverse(Seconds(c));
    SecondsUnique(FromUnix(Seconds(c)), c);
  }

  // ---------------------------------------------------------------- with the widths of the clock's fields

  /** A date after its year has been through the 8-bit field that counts from 2000. */
  function Stored(c: Civil): (r: Civil)
    ensures 2000 <= r.year < 2256
  {
    c.(year := 2000 + (c.year - 2000) % 256)
  }

  /** Seconds as the 32-bit time stamp of a stored date. */
  function TimeStamp(c: Civil): (t: nat)
    requires c.year >= 1970 && c.month <= 13
    ensures t < LIMIT
  {
    Seconds(c) % LIMIT
  }

  /** The start of the year 2000. */
  const Y2000: nat := 946684800

  lemma DaysBefore2000()
    ensures DaysBefore(2000) == 10957
  {
    hide DaysBefore;
    FirstYear();
    FourYears(1970);
    FourYears(1974);
    FourYears(1978);
    FourYears(1982);
    FourYears(1986);
    FourYears(1990);
    FourYears(1994);
    NextYear(1998);
    NextYear(1999);
  }

  lemma FourYears(year: nat)
    requires 1970 <= year < 2096 && year % 4 == 2
    ensures DaysBefore(year + 4) == DaysBefore(year) + 1461
  {
    hide DaysBefore;
    NextYear(year);
    NextYear(year + 1);
    NextYear(year + 2);
    NextYear(year + 3);
  }

  lemma NextYear(year: nat)
    requires year >= 1970
    ensures DaysBefore(year + 1) == DaysBefore(year) + DaysInYear(year)
  {
  }

  /** The year a 32-bit time lies in, and on which side of 2000. */
  lemma YearOfUnix(unix: nat)
    requires unix < LIMIT
    ensures var y := FromUnix(unix).year;
            1970 <= y < 2107 && (y >= 2000 <==> unix >= Y2000)
  {
    hide DaysBefore, DaysBeforeMonth, FromUnix, DayNumber, Leap, DaysInMonth, DaysInYear;
    var c := FromUnix(unix);
    FromUnixIsInverse(unix);
    InsideYear(c);
    DaysBefore2000();
    FirstYear();
    YearsBetween(1970, c.year - 1970);
    if c.year >= 2000 { YearsBetween(2000, c.year - 2000); } else { YearsBetween(c.year + 1, 2000 - c.year - 1); }
  }

  /** To a date and back is the identity exactly from the year 2000 on. */
  lemma UnixRoundTrip(unix: nat)
    requires unix < LIMIT
    ensures ValidCivil(FromUnix(unix))
    ensures TimeStamp(Stored(FromUnix(unix))) == unix <==> unix >= Y2000
  {
    hide FromUnix, Seconds;
    var c := FromUnix(unix);
    FromUnixIsInverse(unix);
    YearOfUnix(unix);
    if c.year >= 2000 {
      assert Stored(c) == c;
    } else {
      assert Stored(c).year == c.year + 256;
      EarlyYearsMiss(c, unix);
    }
  }

  /** 256 years are not a multiple of the 32-bit range. */
  lemma EarlyYearsMiss(c: Civil, unix: nat)
    requires ValidCivil(c) && Seconds(c) == unix < LIMIT
    ensures Seconds(c.(year := c.year + 256)) % LIMIT != unix
  {
    hide DaysBefore, DaysBeforeMonth, Leap;
    var late := c.(year := c.year + 256);
    YearsBetween(c.year, 256);
    LeapDay(Leap(c.year), c.month);
    LeapDay(Leap(late.year), c.month);
    var days := DayNumber(late) - DayNumber(c);
    assert 93439 <= days <= 93697;
    var gap := days * DAY;
    assert Seconds(late) == unix + gap;
    NotAMultiple(unix, gap);
  }

  lemma NotAMultiple(unix: nat, gap: nat)
    requires unix < LIMIT < gap < 2 * LIMIT
    ensures (unix + gap) % LIMIT != unix
  {
    var sum := unix + gap;
    if sum < 2 * LIMIT {
      DivModUnique(sum, LIMIT, 1, sum - LIMIT);
    } else {
      DivModUnique(sum, LIMIT, 2, sum - 2 * LIMIT);
    }
  }

  lemma {:induction false} LeapDay(leap: bool, month: nat)
    requires month <= 13
    ensures DaysBeforeMonth(leap, month) == DaysBeforeMonth(false, month) + if leap && month > 2 then 1 else 0
  {
    if month > 1 { LeapDay(leap, month - 1); }
  }

  /** To a time stamp and back gives the date exactly when the moment fits 32 bits, as in 2000 to 2099. */
  lemma DateRoundTrip(c: Civil)
    requires ValidCivil(c) && 2000 <= c.year < 2256
    ensures Stored(FromUnix(TimeStamp(c))) == c <==> Seconds(c) < LIMIT
    ensures c.year <= 2099 ==> Seconds(c) < LIMIT
  {
    hide FromUnix, Seconds, DaysInMonth;
    FromUnixOfSeconds(c);
    var t := TimeStamp(c);
    FromUnixIsInverse(t);
    YearOfUnix(t);
    TimeBounds(c);
    if Stored(FromUnix(t)) == c { StampOfItself(t, c); }
  }

  /** A date that survives the way through its time stamp is the moment of that stamp. */
  lemma StampOfItself(t: nat, c: Civil)
    requires t < LIMIT && ValidCivil(c) && c == Stored(FromUnix(t)) && t == TimeStamp(c)
    ensures Seconds(c) == t
  {
    hide FromUnix, Seconds, DaysInMonth;
    UnixRoundTrip(t);
    YearOfUnix(t);
    FromUnixIsInverse(t);
    assert Stored(FromUnix(t)) == FromUnix(t);
  }

  lemma TimeBounds(c: Civil)
    requires ValidCivil(c) && 2000 <= c.year
    ensures Seconds(c) >= Y2000 && (c.year <= 2099 ==> Seconds(c) < LIMIT)
  {
    hide DaysBefore, DaysBeforeMonth;
    InsideYear(c);
    DaysBefore2000();
    YearsBetween(2000, c.year - 2000);
    YearsBetween(2000, c.year + 1 - 2000);
  }

  // ---------------------------------------------------------------- weekdays

  /** Monday is day one. */
  function Weekday(unix: nat): (d: nat)
    ensures 1 <= d <= 7
  {
    (unix / 60 / 60 / 24 + 3) % 7 + 1
  }

  /** 1 January 1970 was a Thursday, and each day is followed by the next. */
  lemma WeekdayAdvances(unix: nat)
    ensures Weekday(0) == 4 && Weekday(unix + DAY) == Weekday(unix) % 7 + 1
  {
    var d := unix / 60 / 60 / 24;
    var a := (d + 3) % 7;
    NextDay(unix);
    if a < 6 { DivModUnique(d + 4, 7, (d + 3) / 7, a + 1); } else { DivModUnique(d + 4, 7, (d + 3) / 7 + 1, 0); }
  }

  lemma NextDay(unix: nat)
    ensures (unix + DAY) / 60 / 60 / 24 == unix / 60 / 60 / 24 + 1
  {
    assert (unix + DAY) / 60 == unix / 60 + 1440;
    assert (unix / 60 + 1440) / 60 == unix / 60 / 60 + 24;
  }

  // ---------------------------------------------------------------- the clock's own types

  /** Adding to a 32-bit sum. */
  lemma SumWraps(a: nat, b: nat)
    ensures (a % LIMIT + b) % LIMIT == (a + b) % LIMIT
  {
    var r := a % LIMIT + b;
    DivModUnique(a + b, LIMIT, a / LIMIT + r / LIMIT, r % LIMIT);
  }

  lemma SumsWrap(a: nat, b: nat, c: nat, d: nat)
    ensures (((a % LIMIT + b) % LIMIT + c) % LIMIT + d) % LIMIT == (a + b + c + d) % LIMIT
  {
    SumWraps(a, b);
    SumWraps(a + b, c);
    SumWraps(a + b + c, d);
  }

  /** TM_RTC_t. */
  class DateTime {
    var seconds: nat
    var minutes: nat
    var hours: nat
    var day: nat
    var date: nat
    var month: nat
    var year: nat
    var unix: nat

    /** Every field fits its eight bits. */
    predicate InRange()
      reads this
    {
      seconds < 256 && minutes < 256 && hours < 256 && day < 256 && date < 256 && month < 256 && year < 256
    }

    /** The date the fields stand for. */
    function Value(): Civil
      reads this
    {
      Civil(2000 + year, month, date, hours, minutes, seconds)
    }

    /** The fields that do not depend on the calendar are those of `t`. */
    predicate TimeSet(t: nat)
      reads this
    {
      seconds == t % 60 && minutes == t / 60 % 60 && hours == t / 60 / 60 % 24 && day == Weekday(t) && unix == t
    }

    /** TM_RTC_GetDateTimeFromUnix. */
    method FromUnixTime(time: nat)
      requires time < LIMIT
      modifies this
      ensures InRange() && unix == time
      ensures Value() == Stored(FromUnix(time)) && day == Weekday(time)
    {
      hide DaysBefore, DaysBeforeMonth, DaysInMonth, Leap, YearFrom, MonthFrom, FromUnix;
      FromUnixIs(time);
      YearOfUnix(time);
      FromUnixIsInverse(time);
      var left: nat := time;
      unix := left;
      seconds := left % 60;
      left := left / 60;
      minutes := left % 60;
      left := left / 60;
      hours := left % 24;
      left := left / 24;
      day := (left + 3) % 7 + 1;

      ghost var days := left;
      FirstYear();
      var y: nat := 1970;
      while left >= DaysInYear(y)
        invariant TimeSet(time)
        invariant y >= 1970 && DaysBefore(y) + left == days && YearFrom(y, left) == YearFrom(1970, days)
        decreases left
      {
        YearFromStep(y, left);
        NextYear(y);
        left := left - DaysInYear(y);
        y := y + 1;
      }
      YearFromStep(y, left);
      year := (y - 2000) % 256;

      ghost var inYear := left;
      NoMonthsBefore(Leap(y));
      month := 0;
      while month < 12 && left >= DaysInMonth(Leap(y), month + 1)
        invariant month <= 12 && DaysBeforeMonth(Leap(y), month + 1) + left == inYear
        invariant MonthFrom(Leap(y), month + 1, left) == MonthFrom(Leap(y), 1, inYear)
        invariant TimeSet(time) && year == (y - 2000) % 256
        decreases 12 - month
      {
        MonthFromStep(Leap(y), month + 1, left);
        NextMonth(Leap(y), month + 1);
        left := left - DaysInMonth(Leap(y), month + 1);
        month := month + 1;
      }
      MonthFromStep(Leap(y), month + 1, left);
      month := month + 1;
      date := left + 1;
      ShortMonth(Leap(y), month);
    }

    /** TM_RTC_GetUnixTimeStamp. Month 13 is as far as the table of months can be read. */
    method GetUnixTimeStamp() returns (t: nat)
      requires InRange() && month <= 13
      ensures t == TimeStamp(Value())
    {
      hide DaysInMonth, Leap;
      var y := year + 2000;
      var days := 0;
      FirstYear();
      for i := 1970 to y
        invariant days == DaysBefore(i)
      {
        NextYear(i);
        days := days + DaysInYear(i);
      }
      YearsBetween(1970, y - 1970);
      ghost var before := days;
      var i := 1;
      while i < month
        invariant 1 <= i && (i <= month || i == 1) && days == before + DaysBeforeMonth(Leap(y), i)
      {
        days := days + DaysInMonth(Leap(y), i);
        i := i + 1;
      }
      if month == 0 { assert DaysBeforeMonth(Leap(y), 0) == DaysBeforeMonth(Leap(y), 1); }
      days := days + date - 1;
      t := days * DAY % LIMIT;
      t := (t + hours * 3600) % LIMIT;
      t := (t + minutes * 60) % LIMIT;
      t := (t + seconds) % LIMIT;
      SumsWrap(days * DAY, hours * 3600, minutes * 60, seconds);
    }
  }

  lemma FromUnixIs(time: nat)
    ensures var days := time / 60 / 60 / 24;
            var year := YearFrom(1970, days);
            && year >= 1970 && days >= DaysBefore(year) && FromUnix(time).year == year
            && FromUnix(time).month == MonthFrom(Leap(year), 1, days - DaysBefore(year)) <= 12
            && FromUnix(time).date == days - DaysBefore(year) - DaysBeforeMonth(Leap(year), FromUnix(time).month) + 1
            && FromUnix(time).hours == time / 60 / 60 % 24 && FromUnix(time).minutes == time / 60 % 60
            && FromUnix(time).seconds == time % 60
  {
    hide DaysBefore, DaysBeforeMonth, DaysInMonth, Leap, MonthFrom, YearFrom;
    var days := time / 60 / 60 / 24;
    FirstYear();
    YearFromInside(1970, days);
    MonthOfYear(YearFrom(1970, days), days - DaysBefore(YearFrom(1970, days)));
  }

  lemma YearFromStep(year: nat, days: nat)
    ensures YearFrom(year, days) ==
            if days >= DaysInYear(year) then YearFrom(year + 1, days - DaysInYear(year)) else year
  {
  }

  lemma MonthFromStep(leap: bool, month: nat, days: nat)
    requires 1 <= month <= 13
    ensures MonthFrom(leap, month, days) ==
            if month <= 12 && days >= DaysInMonth(leap, month)
            then MonthFrom(leap, month + 1, days - DaysInMonth(leap, month))
            else month
  {
  }

  lemma ShortMonth(leap: bool, month: nat)
    requires 1 <= month <= 12
    ensures 28 <= DaysInMonth(leap, month) <= 31
  {
  }

  // ---------------------------------------------------------------- setting the clock

  /** RTC_BCD2BIN. */
  function FromBcd(x: nat): nat { x / 16 % 16 * 10 + x % 16 }

  function ToBcd(n: nat): nat { n / 10 * 16 + n % 10 }

  /** A byte is the code of the number it is decoded to exactly if its low digit is one. */
  lemma BcdExact(x: nat)
    requires x < 256
    ensures ToBcd(FromBcd(x)) == x <==> x % 16 <= 9
  {
    var h, l := x / 16 % 16, x % 16;
    assert x / 16 < 16;
    if l <= 9 { DivModUnique(h * 10 + l, 10, h, l); } else { DivModUnique(h * 10 + l, 10, h + 1, l - 10); }
  }

  /** The registers of the clock. */
  class Clock {
    var time: (nat, nat, nat)
    var date: (nat, nat, nat, nat)

    /**
     TM_RTC_SetDateTime: the fields, decoded if they are in BCD, are accepted exactly if they are a
     valid date from 2000 to 2099 with a weekday.
     */
    method SetDateTime(data: DateTime, bcd: bool) returns (ok: bool)
      requires data.InRange()
      modifies this
      ensures ok <==> Settable(Decoded(data, bcd), if bcd then FromBcd(data.day) else data.day)
      ensures ok ==>
                time == (data.hours, data.minutes, data.seconds) && date == (data.date, data.month, data.year, data.day)
      ensures !ok ==> time == old(time) && date == old(date)
    {
      var tmp := Decoded(data, bcd);
      var day := if bcd then FromBcd(data.day) else data.day;
      if tmp.year - 2000 > 99 || tmp.month == 0 || tmp.month > 12 || tmp.date == 0
         || tmp.date > DaysInMonth(Leap(tmp.year), tmp.month)
         || tmp.hours > 23 || tmp.minutes > 59 || tmp.seconds > 59 || day == 0 || day > 7
      {
        return false;
      }
      time := (data.hours, data.minutes, data.seconds);
      date := (data.date, data.month, data.year, data.day);
      ok := true;
    }
  }

  predicate Settable(c: Civil, day: nat) { ValidCivil(c) && 2000 <= c.year <= 2099 && 1 <= day <= 7 }

  function Decoded(data: DateTime, bcd: bool): Civil
    reads data
  {
    if !bcd then data.Value()
    else Civil(2000 + FromBcd(data.year), FromBcd(data.month), FromBcd(data.date),
               FromBcd(data.hours), FromBcd(data.minutes), FromBcd(data.seconds))
  }

  /** Every date the clock can be set to survives the way through its time stamp. */
  lemma SettableRoundTrip(c: Civil, day: nat)
    requires Settable(c, day)
    ensures Stored(FromUnix(TimeStamp(c))) == c
  {
    DateRoundTrip(c);
  }
}
