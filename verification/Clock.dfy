/** get_unix_time: the closed form of POSIX.1-2017 Base Definitions section 4.16, with a closed day of year. */
module Clock {

  /** A clock reading; the RTC's two-digit year counts from 2000. */
  datatype Time = Time(year: nat, month: nat, day: nat, hour: nat, minute: nat, second: nat)

  predicate IsLeapYear(year: nat) {
    year % 4 == 0 && (year % 100 != 0 || year % 400 == 0)
  }

  /** Days since 1970-01-01, as one expression; every dividend is non-negative from 1970 on. */
  function Days(year: nat, month: nat, day: nat): int
    requires year >= 1970 && month >= 1
  {
    (year - 1970) * 365 + (year - 1969) / 4 - (year - 1901) / 100 + (year - 1601) / 400
    + (367 * month - 362) / 12
    + (if month <= 2 then 0 else if IsLeapYear(year) then -1 else -2)
    + day - 1
  }

  function UnixTime(t: Time): int
    requires t.year >= 1970 && t.month >= 1
  {
    Days(t.year, t.month, t.day) * 24 * 3600 + t.hour * 3600 + t.minute * 60 + t.second
  }

  /** From the six bytes the RTC delivers. */
  function GetUnixTime(second: nat, minute: nat, hour: nat, day: nat, month: nat, year: nat): int
    requires month >= 1
  {
    UnixTime(Time(year + 2000, month, day, hour, minute, second))
  }

  // ----- the calendar it should agree with

  function DaysInYear(year: nat): nat {
    if IsLeapYear(year) then 366 else 365
  }

  function DaysInMonth(year: nat, month: nat): nat {
    if month == 2 then (if IsLeapYear(year) then 29 else 28)
    else if month == 4 || month == 6 || month == 9 || month == 11 then 30
    else 31
  }

  function DaysBeforeYear(year: nat): nat
    requires year >= 1970
  {
    if year == 1970 then 0 else DaysBeforeYear(year - 1) + DaysInYear(year - 1)
  }

  function DaysBeforeMonth(year: nat, month: nat): nat
    requires 1 <= month
  {
    if month == 1 then 0 else DaysBeforeMonth(year, month - 1) + DaysInMonth(year, month - 1)
  }

  predicate ValidTime(t: Time) {
    && t.year >= 1970 && 1 <= t.month <= 12 && 1 <= t.day <= DaysInMonth(t.year, t.month)
    && t.hour < 24 && t.minute < 60 && t.second < 60
  }

  /** The three divisions count the leap years since 1970. */
  lemma {:induction false} YearsExact(year: nat)
    requires year >= 1970
    ensures DaysBeforeYear(year)
         == (year - 1970) * 365 + (year - 1969) / 4 - (year - 1901) / 100 + (year - 1601) / 400
    decreases year
  {
    if year > 1970 {
      var y := year - 1;
      YearsExact(y);
      LeapStep(y);
      LeapDays(y);
      assert DaysBeforeYear(year) == DaysBeforeYear(y) + DaysInYear(y);
      assert y - 1968 == year - 1969 && y - 1900 == year - 1901 && y - 1600 == year - 1601;
    }
  }

  lemma LeapDays(y: nat)
    ensures DaysInYear(y) == 365 + (if y % 4 == 0 then 1 else 0) - (if y % 100 == 0 then 1 else 0)
                             + (if y % 400 == 0 then 1 else 0)
  {
    assert y % 400 == 0 ==> y % 100 == 0;
    assert y % 100 == 0 ==> y % 4 == 0;
  }

  lemma LeapStep(y: nat)
    requires y >= 1970
    ensures (y - 1968) / 4 - (y - 1969) / 4 == if y % 4 == 0 then 1 else 0
    ensures (y - 1900) / 100 - (y - 1901) / 100 == if y % 100 == 0 then 1 else 0
    ensures (y - 1600) / 400 - (y - 1601) / 400 == if y % 400 == 0 then 1 else 0
  {
    Steps4(y);
    Steps100(y);
    Steps400(y);
  }

  lemma Steps4(y: nat)
    requires y >= 1970
    ensures (y - 1968) / 4 - (y - 1969) / 4 == if y % 4 == 0 then 1 else 0
  {
  }

  lemma Steps100(y: nat)
    requires y >= 1970
    ensures (y - 1900) / 100 - (y - 1901) / 100 == if y % 100 == 0 then 1 else 0
  {
  }

  lemma Steps400(y: nat)
    requires y >= 1970
    ensures (y - 1600) / 400 - (y - 1601) / 400 == if y % 400 == 0 then 1 else 0
  {
  }

  /** The twelve values of the month expression are the cumulative month lengths. */
  lemma {:induction false} MonthsExact(year: nat, month: nat)
    requires 1 <= month <= 12
    ensures DaysBeforeMonth(year, month)
         == (367 * month - 362) / 12 + (if month <= 2 then 0 else if IsLeapYear(year) then -1 else -2)
    decreases month
  {
    if month > 1 {
      MonthsExact(year, month - 1);
    }
  }

  /** The closed form is the calendar's day count, for every date from 1970 on. */
  lemma DaysExact(year: nat, month: nat, day: nat)
    requires year >= 1970 && 1 <= month <= 12
    ensures Days(year, month, day) == DaysBeforeYear(year) + DaysBeforeMonth(year, month) + day - 1
  {
    YearsExact(year);
    MonthsExact(year, month);
  }

  // ----- order

  predicate Earlier(a: Time, b: Time) {
    a.year < b.year || (a.year == b.year
    && (a.month < b.month || (a.month == b.month
    && (a.day < b.day || (a.day == b.day
    && (a.hour < b.hour || (a.hour == b.hour
    && (a.minute < b.minute || (a.minute == b.minute
    && a.second < b.second)))))))))
  }

  lemma {:induction false} MonthsMonotone(year: nat, a: nat, b: nat)
    requires 1 <= a < b <= 12
    ensures DaysBeforeMonth(year, a) + DaysInMonth(year, a) <= DaysBeforeMonth(year, b)
    decreases b
  {
    if a < b - 1 {
      MonthsMonotone(year, a, b - 1);
    }
  }

  lemma {:induction false} YearsMonotone(a: nat, b: nat)
    requires 1970 <= a < b
    ensures DaysBeforeYear(a) + DaysInYear(a) <= DaysBeforeYear(b)
    decreases b
  {
    if a < b - 1 {
      YearsMonotone(a, b - 1);
    }
  }

  lemma LastDay(year: nat)
    ensures DaysBeforeMonth(year, 12) + 31 == DaysInYear(year)
  {
    MonthsExact(year, 12);
  }

  lemma WithinYear(year: nat, month: nat, day: nat)
    requires 1 <= month <= 12 && 1 <= day <= DaysInMonth(year, month)
    ensures DaysBeforeMonth(year, month) + day <= DaysInYear(year)
  {
    LastDay(year);
    if month < 12 {
      MonthsMonotone(year, month, 12);
    }
  }

  lemma EarlierDay(a: Time, b: Time)
    requires ValidTime(a) && ValidTime(b) && Earlier(a, b)
    ensures Days(a.year, a.month, a.day) <= Days(b.year, b.month, b.day)
    ensures (a.year, a.month, a.day) != (b.year, b.month, b.day)
            ==> Days(a.year, a.month, a.day) < Days(b.year, b.month, b.day)
  {
    DaysExact(a.year, a.month, a.day);
    DaysExact(b.year, b.month, b.day);
    if a.year < b.year {
      YearsMonotone(a.year, b.year);
      WithinYear(a.year, a.month, a.day);
    } else if a.month < b.month {
      MonthsMonotone(a.year, a.month, b.month);
    }
  }

  /** Later dates have larger values. */
  lemma StrictlyIncreasing(a: Time, b: Time)
    requires ValidTime(a) && ValidTime(b) && Earlier(a, b)
    ensures UnixTime(a) < UnixTime(b)
  {
    EarlierDay(a, b);
  }

  /** Equal values are equal dates. */
  lemma Injective(a: Time, b: Time)
    requires ValidTime(a) && ValidTime(b) && UnixTime(a) == UnixTime(b)
    ensures a == b
  {
    if Earlier(a, b) {
      StrictlyIncreasing(a, b);
    } else if Earlier(b, a) {
      StrictlyIncreasing(b, a);
    }
  }

  // ----- and it counts seconds

  const EPOCH: Time := Time(1970, 1, 1, 0, 0, 0)

  /** The next second of the calendar. */
  function Next(t: Time): Time {
    if t.second < 59 then t.(second := t.second + 1)
    else if t.minute < 59 then t.(second := 0, minute := t.minute + 1)
    else if t.hour < 23 then t.(second := 0, minute := 0, hour := t.hour + 1)
    else if t.day < DaysInMonth(t.year, t.month) then Time(t.year, t.month, t.day + 1, 0, 0, 0)
    else if t.month < 12 then Time(t.year, t.month + 1, 1, 0, 0, 0)
    else Time(t.year + 1, 1, 1, 0, 0, 0)
  }

  function SecondsLater(t: Time, n: nat): Time {
    if n == 0 then t else Next(SecondsLater(t, n - 1))
  }

  lemma NextAddsOne(t: Time)
    requires ValidTime(t)
    ensures ValidTime(Next(t)) && UnixTime(Next(t)) == UnixTime(t) + 1
  {
    hide IsLeapYear, Days, DaysInMonth, DaysBeforeYear, DaysBeforeMonth, DaysInYear;
    DaysExact(t.year, t.month, t.day);
    if t.second == 59 && t.minute == 59 && t.hour == 23 {
      NextDay(t);
    }
  }

  /** The first second of the day after t's. */
  lemma NextDay(t: Time)
    requires ValidTime(t) && t.second == 59 && t.minute == 59 && t.hour == 23
    ensures ValidTime(Next(t))
    ensures Days(Next(t).year, Next(t).month, Next(t).day) == Days(t.year, t.month, t.day) + 1
  {
    hide IsLeapYear, Days;
    DaysExact(t.year, t.month, t.day);
    if t.day < DaysInMonth(t.year, t.month) {
      DaysExact(t.year, t.month, t.day + 1);
    } else if t.month < 12 {
      DaysExact(t.year, t.month + 1, 1);
    } else {
      DaysExact(t.year + 1, 1, 1);
      LastDay(t.year);
    }
  }

  /** The value is the number of calendar seconds since the epoch, and every second has its date. */
  lemma {:induction false} CountsSeconds(n: nat)
    ensures ValidTime(SecondsLater(EPOCH, n)) && UnixTime(SecondsLater(EPOCH, n)) == n
  {
    if n > 0 {
      CountsSeconds(n - 1);
      NextAddsOne(SecondsLater(EPOCH, n - 1));
    }
  }

  /** What get_unix_time returns for a reading of the clock: how many seconds after the epoch that date is. */
  lemma GetUnixTimeCounts(second: nat, minute: nat, hour: nat, day: nat, month: nat, year: nat)
    requires ValidTime(Time(year + 2000, month, day, hour, minute, second))
    ensures GetUnixTime(second, minute, hour, day, month, year) >= 0
    ensures SecondsLater(EPOCH, GetUnixTime(second, minute, hour, day, month, year))
         == Time(year + 2000, month, day, hour, minute, second)
  {
    hide SecondsLater, Days;
    var t := Time(year + 2000, month, day, hour, minute, second);
    DaysExact(t.year, t.month, t.day);
    var n := UnixTime(t);
    CountsSeconds(n);
    Injective(SecondsLater(EPOCH, n), t);
  }
}
