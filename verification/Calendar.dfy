/** ctime: seconds since 1970 to a date and a time of day. */
module Calendar {
  /** time_t and int on the target. */
  type int32 = x: int | -0x8000_0000 <= x < 0x8000_0000

  const HOUR_SECONDS: int := 3600
  const DAY_SECONDS: int := 86400
  const YEAR_SECONDS: int := 31536000

  /** C's division: the quotient is truncated towards zero. */
  function Quot(a: int, b: int): int
    requires b > 0
  {
    if a >= 0 then a / b else -((-a) / b)
  }

  /** C's remainder: it has the sign of the dividend. */
  function Rem(a: int, b: int): int
    requires b > 0
  {
    if a >= 0 then a % b else -((-a) % b)
  }

  lemma Product(b: int, q: int)
    requires b >= 0 && q >= 0
    ensures b * q >= 0
  {
  }

  lemma QuotReachesOne(a: int, b: int)
    requires b > 0
    ensures Quot(a, b) >= 1 <==> a >= b
  {
    if a >= 0 {
      var q := a / b;
      if q <= 0 { Product(b, -q); } else { Product(b, q - 1); }
      assert a == b * q + a % b;
    }
  }

  /** is_leap */
  predicate IsLeap(year: int) {
    Rem(year, 4) == 0 && (Rem(year, 100) != 0 || Rem(year, 400) == 0)
  }

  function YearDays(year: int): int {
    if IsLeap(year) then 366 else 365
  }

  function MonthDays(year: int, month: int): int {
    if month == 2 then if IsLeap(year) then 29 else 28
    else if month == 4 || month == 6 || month == 9 || month == 11 then 30
    else 31
  }

  datatype Tm = Tm(year: int, month: int, day: int, hour: int, minute: int, second: int)

  /** A date of the Gregorian calendar and a time of day, from 1970 on. */
  predicate IsTime(tm: Tm) {
    && 1970 <= tm.year && 1 <= tm.month <= 12 && 1 <= tm.day <= MonthDays(tm.year, tm.month)
    && 0 <= tm.hour < 24 && 0 <= tm.minute < 60 && 0 <= tm.second < 60
  }

  /** Days from 1 January 1970 to 1 January of a year, counted year by year. */
  function DaysBeforeYear(year: int): nat
    requires year >= 1970
  {
    if year == 1970 then 0 else DaysBeforeYear(year - 1) + YearDays(year - 1)
  }

  /** Days of a year in front of a month, counted month by month. */
  function DaysBeforeMonth(year: int, month: int): nat
    requires 1 <= month <= 13
  {
    if month == 1 then 0 else DaysBeforeMonth(year, month - 1) + MonthDays(year, month - 1)
  }

  /** The seconds between 1970 and a time, counted along the calendar. */
  function SecondsOf(tm: Tm): int
    requires IsTime(tm)
  {
    (DaysBeforeYear(tm.year) + DaysBeforeMonth(tm.year, tm.month) + tm.day - 1) * DAY_SECONDS
    + tm.hour * HOUR_SECONDS + tm.minute * 60 + tm.second
  }

  lemma MonthTable(year: int)
    ensures DaysBeforeMonth(year, 2) == 31
    ensures DaysBeforeMonth(year, 3) == 59 + (YearDays(year) - 365)
    ensures DaysBeforeMonth(year, 6) == 151 + (YearDays(year) - 365)
    ensures DaysBeforeMonth(year, 9) == 243 + (YearDays(year) - 365)
    ensures DaysBeforeMonth(year, 13) == YearDays(year)
  {
    assert DaysBeforeMonth(year, 4) == DaysBeforeMonth(year, 3) + 31;
    assert DaysBeforeMonth(year, 5) == DaysBeforeMonth(year, 4) + 30;
    assert DaysBeforeMonth(year, 7) == DaysBeforeMonth(year, 6) + 30;
    assert DaysBeforeMonth(year, 8) == DaysBeforeMonth(year, 7) + 31;
    assert DaysBeforeMonth(year, 10) == DaysBeforeMonth(year, 9) + 30;
    assert DaysBeforeMonth(year, 11) == DaysBeforeMonth(year, 10) + 31;
    assert DaysBeforeMonth(year, 12) == DaysBeforeMonth(year, 11) + 30;
  }

  /** The lengths of the months without a table: 31 and 30 days take turns, from August on anew. */
  lemma MonthLengths(year: int, month: int)
    requires 1 <= month <= 12
    ensures MonthDays(year, month) == LengthOfMonth(year, month)
  {
  }

  /** The same as a formula, February with the day by which its year is longer. */
  function LengthOfMonth(year: int, month: int): int {
    if month == 2 then 28 + (YearDays(year) - 365) else 30 + (month + month / 8) % 2
  }

  /** The days in front of a month in closed form: 367 in twelve months, less the two or one that February lacks. */
  function DaysInFront(year: int, month: int): int {
    (367 * month - 362) / 12 - if month <= 2 then 0 else 367 - YearDays(year)
  }

  lemma {:induction false} DaysBeforeMonthClosed(year: int, month: int)
    requires 1 <= month <= 13
    ensures DaysBeforeMonth(year, month) == DaysInFront(year, month)
    decreases month
  {
    if month > 1 {
      DaysBeforeMonthClosed(year, month - 1);
      MonthLengths(year, month - 1);
    }
  }

  lemma {:induction false} MonthsInOrder(year: int, m: int, n: int)
    requires 1 <= m < n <= 13
    ensures DaysBeforeMonth(year, m) + MonthDays(year, m) <= DaysBeforeMonth(year, n)
    decreases n
  {
    if m + 1 < n { MonthsInOrder(year, m, n - 1); }
  }

  lemma {:induction false} YearsInOrder(y: int, z: int)
    requires 1970 <= y < z
    ensures DaysBeforeYear(y) + YearDays(y) <= DaysBeforeYear(z)
    decreases z
  {
    if y + 1 < z { YearsInOrder(y, z - 1); }
  }

  /** The day's number in its year stays below the year's length. */
  lemma DayInYear(tm: Tm)
    requires IsTime(tm)
    ensures 0 <= DaysBeforeMonth(tm.year, tm.month) + tm.day - 1 < YearDays(tm.year)
  {
    MonthsInOrder(tm.year, tm.month, 13);
    MonthTable(tm.year);
  }

  predicate EarlierDay(a: Tm, b: Tm) {
    a.year < b.year || (a.year == b.year && (a.month < b.month || (a.month == b.month && a.day < b.day)))
  }

  predicate SameDay(a: Tm, b: Tm) {
    a.year == b.year && a.month == b.month && a.day == b.day
  }

  predicate EarlierClock(a: Tm, b: Tm) {
    a.hour < b.hour || (a.hour == b.hour && (a.minute < b.minute || (a.minute == b.minute && a.second < b.second)))
  }

  /** Lexicographic order. */
  predicate Earlier(a: Tm, b: Tm) {
    EarlierDay(a, b) || (SameDay(a, b) && EarlierClock(a, b))
  }

  function DayNumber(tm: Tm): int
    requires IsTime(tm)
  {
    DaysBeforeYear(tm.year) + DaysBeforeMonth(tm.year, tm.month) + tm.day - 1
  }

  lemma DaysInOrder(a: Tm, b: Tm)
    requires IsTime(a) && IsTime(b) && EarlierDay(a, b)
    ensures DayNumber(a) < DayNumber(b)
  {
    if a.year < b.year {
      DayInYear(a);
      DayInYear(b);
      YearsInOrder(a.year, b.year);
    } else if a.month < b.month {
      MonthsInOrder(a.year, a.month, b.month);
    }
  }

  lemma EarlierIsFewer(a: Tm, b: Tm)
    requires IsTime(a) && IsTime(b) && Earlier(a, b)
    ensures SecondsOf(a) < SecondsOf(b)
  {
    if EarlierDay(a, b) { DaysInOrder(a, b); }
  }

  /** The calendar runs with the seconds: a later second has the larger (year, month, day, hour, minute,
      second), and equal seconds have the same. */
  lemma TimesInOrder(a: Tm, b: Tm)
    requires IsTime(a) && IsTime(b)
    ensures SecondsOf(a) < SecondsOf(b) <==> Earlier(a, b)
    ensures SecondsOf(a) == SecondsOf(b) <==> a == b
  {
    if Earlier(a, b) {
      EarlierIsFewer(a, b);
    } else if Earlier(b, a) {
      EarlierIsFewer(b, a);
    }
  }

  /** IEEE Std 1003.1-2017, Base Definitions, section 4.16, in its own variables. */
  function PosixSeconds(sec: int, min: int, hour: int, yday: int, year: int): int {
    sec + min * 60 + hour * 3600 + yday * 86400 + (year - 70) * 31536000
    + ((year - 69) / 4) * 86400 - ((year - 1) / 100) * 86400 + ((year + 299) / 400) * 86400
  }

  lemma Quotient4Step(year: int)
    requires year > 1970
    ensures (year - 1969) / 4 - (year - 1 - 1969) / 4 == if Rem(year - 1, 4) == 0 then 1 else 0
    ensures Rem(year - 1, 100) == 0 ==> Rem(year - 1, 4) == 0
  {
  }

  lemma Quotient100Step(year: int)
    requires year > 1970
    ensures (year - 1901) / 100 - (year - 1 - 1901) / 100 == if Rem(year - 1, 100) == 0 then 1 else 0
    ensures Rem(year - 1, 400) == 0 ==> Rem(year - 1, 100) == 0
  {
  }

  lemma Quotient400Step(year: int)
    requires year > 1970
    ensures (year - 1601) / 400 - (year - 1 - 1601) / 400 == if Rem(year - 1, 400) == 0 then 1 else 0
  {
  }

  /** A new multiple of 4, 100 or 400 moves the quotient on by one. */
  lemma QuotientsStep(year: int)
    requires year > 1970
    ensures (year - 1969) / 4 - (year - 1 - 1969) / 4 == if Rem(year - 1, 4) == 0 then 1 else 0
    ensures (year - 1901) / 100 - (year - 1 - 1901) / 100 == if Rem(year - 1, 100) == 0 then 1 else 0
    ensures (year - 1601) / 400 - (year - 1 - 1601) / 400 == if Rem(year - 1, 400) == 0 then 1 else 0
    ensures Rem(year - 1, 400) == 0 ==> Rem(year - 1, 100) == 0
    ensures Rem(year - 1, 100) == 0 ==> Rem(year - 1, 4) == 0
  {
    hide Rem;
    Quotient4Step(year);
    Quotient100Step(year);
    Quotient400Step(year);
  }

  lemma {:induction false} DaysBeforeYearClosed(year: int)
    requires year >= 1970
    ensures DaysBeforeYear(year) == (year - 1970) * 365 + (year - 1969) / 4 - (year - 1901) / 100 + (year - 1601) / 400
    decreases year
  {
    if year > 1970 {
      DaysBeforeYearClosed(year - 1);
      QuotientsStep(year);
    }
  }

  /** The POSIX formula counts the same seconds. */
  lemma PosixIsSeconds(tm: Tm)
    requires IsTime(tm)
    ensures PosixSeconds(tm.second, tm.minute, tm.hour, DaysBeforeMonth(tm.year, tm.month) + tm.day - 1, tm.year - 1900)
         == SecondsOf(tm)
  {
    DaysBeforeYearClosed(tm.year);
  }

  /** The first loop of ctime: the year, and the seconds into it. Years are only counted forward. */
  method SplitYear(t: int32) returns (year: int32, left: int32)
    ensures t < 0 ==> year == 1970 && left == t
    ensures t >= 0 ==> year >= 1970 && 0 <= left < YearDays(year) * DAY_SECONDS
    ensures t >= 0 ==> DaysBeforeYear(year) * DAY_SECONDS + left == t
  {
    year, left := 1970, t;
    var current: int32 := YEAR_SECONDS;
    QuotReachesOne(left, current);
    while Quot(left, current) >= 1
      invariant 1970 <= year <= 1970 + (t - left) / YEAR_SECONDS && current == YearDays(year) * DAY_SECONDS
      invariant if t < 0 then left == t && year == 1970 else left >= 0 && DaysBeforeYear(year) * DAY_SECONDS + left == t
      invariant Quot(left, current) >= 1 <==> left >= current
      decreases left
    {
      left := left - current;
      year := year + 1;
      current := if IsLeap(year) then YEAR_SECONDS + DAY_SECONDS else YEAR_SECONDS;
      QuotReachesOne(left, current);
    }
  }

  /** The second loop of ctime: the month, and the seconds into it. */
  method SplitMonth(year: int32, seconds: int32) returns (month: int32, left: int32)
    requires seconds < YearDays(year) * DAY_SECONDS
    ensures seconds < 0 ==> month == 1 && left == seconds
    ensures seconds >= 0 ==> 1 <= month <= 12 && 0 <= left < MonthDays(year, month) * DAY_SECONDS
    ensures seconds >= 0 ==> DaysBeforeMonth(year, month) * DAY_SECONDS + left == seconds
    ensures seconds >= 0 ==>
              left < LengthOfMonth(year, month) * 86400 && DaysInFront(year, month) * 86400 + left == seconds
  {
    month, left := SplitMonths(year, seconds);
    if seconds >= 0 {
      MonthLengths(year, month);
      DaysBeforeMonthClosed(year, month);
    }
  }

  /** The loop itself, which has the lengths of the months in a table. */
  method SplitMonths(year: int32, seconds: int32) returns (month: int32, left: int32)
    requires seconds < YearDays(year) * DAY_SECONDS
    ensures seconds < 0 ==> month == 1 && left == seconds
    ensures seconds >= 0 ==> 1 <= month <= 12 && 0 <= left < MonthDays(year, month) * DAY_SECONDS
    ensures seconds >= 0 ==> DaysBeforeMonth(year, month) * DAY_SECONDS + left == seconds
  {
    month, left := 1, seconds;
    MonthTable(year);
    for i := 0 to 12
      invariant month == i + 1
      invariant if seconds < 0 then left == seconds && i == 0
                else left >= 0 && DaysBeforeMonth(year, month) * DAY_SECONDS + left == seconds
    {
      var days := [31, 28, 31, 30, 31, 30, 31, 31, 30, 31, 30, 31][i];
      if i == 1 && IsLeap(year) {
        days := days + 1;
      }
      assert days == MonthDays(year, month);
      var current := days * DAY_SECONDS;
      QuotReachesOne(left, current);
      if Quot(left, current) >= 1 {
        left := left - current;
        month := month + 1;
      } else {
        break;
      }
    }
  }

  /** Quotient and remainder have the sign of the dividend, and make it up. */
  lemma DividesDay(a: int, b: int)
    requires b == 60 || b == 3600 || b == 86400
    ensures Quot(a, b) * b + Rem(a, b) == a && -b < Rem(a, b) < b
    ensures a >= 0 ==> Quot(a, b) >= 0 && Rem(a, b) >= 0
    ensures a <= 0 ==> Quot(a, b) <= 0 && Rem(a, b) <= 0
  {
  }

  /**
   ctime up to the formatting of its six numbers: for a second since 1970 they are the date and time
   whose seconds since 1970, counted along the calendar, are `t`; the day is one of its month, and POSIX's formula
   with the closed form of the day of the year gives `t` again. For a second before 1970 they are no date and time at
   all, but the signed hours, minutes and seconds to 1 January 1970 and the whole days, which count down from 1.
   */
  method Ctime(t: int32) returns (tm: Tm)
    ensures IsTime(tm) <==> t >= 0
    ensures t >= 0 ==> SecondsOf(tm) == t
    ensures t >= 0 ==>
              PosixSeconds(tm.second, tm.minute, tm.hour, DaysBeforeMonth(tm.year, tm.month) + tm.day - 1,
                            tm.year - 1900) == t
    ensures t >= 0 ==>
              && 1970 <= tm.year && 1 <= tm.month <= 12 && 1 <= tm.day <= LengthOfMonth(tm.year, tm.month)
              && 0 <= tm.hour < 24 && 0 <= tm.minute < 60 && 0 <= tm.second < 60
              && PosixSeconds(tm.second, tm.minute, tm.hour, DaysInFront(tm.year, tm.month) + tm.day - 1,
                              tm.year - 1900) == t
    ensures t < 0 ==>
              && tm.year == 1970 && tm.month == 1 && tm.day <= 1
              && -24 < tm.hour <= 0 && -60 < tm.minute <= 0 && -60 < tm.second <= 0
              && (tm.day - 1) * 86400 + tm.hour * 3600 + tm.minute * 60 + tm.second == t
  {
    hide PosixSeconds, LengthOfMonth, DaysInFront, MonthDays, DaysBeforeMonth, DaysBeforeYear, Quot, Rem;
    var year, left := SplitYear(t);
    var month;
    month, left := SplitMonth(year, left);
    var day := 1 + Quot(left, DAY_SECONDS);
    DividesDay(left, DAY_SECONDS);
    left := Rem(left, DAY_SECONDS);
    var hour := Quot(left, HOUR_SECONDS);
    DividesDay(left, HOUR_SECONDS);
    left := Rem(left, HOUR_SECONDS);
    DividesDay(left, 60);
    tm := Tm(year, month, day, hour, Quot(left, 60), Rem(left, 60));
    if t >= 0 {
      PosixIsSeconds(tm);
      MonthLengths(tm.year, tm.month);
      DaysBeforeMonthClosed(tm.year, tm.month);
    }
  }
}
