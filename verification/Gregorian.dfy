/** The proleptic Gregorian calendar, counted in seconds from 1970-01-01 00:00:00. */
module Gregorian {
  const DAY := 86400

  datatype Calendar = Calendar(year: nat, month: nat, day: nat, hour: nat, minute: nat, second: nat)

  predicate LeapYear(y: nat) { y % 4 == 0 && (y % 100 != 0 || y % 400 == 0) }

  function YearDays(leap: bool): nat { if leap then 366 else 365 }

  function MonthDays(leap: bool, m: nat): nat {
    if m == 2 then (if leap then 29 else 28) else if m == 4 || m == 6 || m == 9 || m == 11 then 30 else 31
  }

  function DaysBeforeYear(y: nat): nat {
    if y <= 1970 then 0 else DaysBeforeYear(y - 1) + YearDays(LeapYear(y - 1))
  }

  function DaysBeforeMonth(leap: bool, m: nat): nat {
    if m <= 1 then 0 else DaysBeforeMonth(leap, m - 1) + MonthDays(leap, m - 1)
  }

  predicate Clockwork(c: Calendar) { c.hour < 24 && c.minute < 60 && c.second < 60 }

  predicate Exists(c: Calendar) {
    c.year >= 1970 && 1 <= c.month <= 12 && 1 <= c.day <= MonthDays(LeapYear(c.year), c.month) && Clockwork(c)
  }

  function DayNumber(y: nat, m: nat, d: nat): int { DaysBeforeYear(y) + DaysBeforeMonth(LeapYear(y), m) + d - 1 }

  function DaysOf(c: Calendar): int { DayNumber(c.year, c.month, c.day) }

  function TimeOfDay(c: Calendar): nat { c.hour * 3600 + c.minute * 60 + c.second }

  function SecondsOf(c: Calendar): int { DaysOf(c) * DAY + TimeOfDay(c) }

  lemma TwelveMonths(leap: bool)
    ensures DaysBeforeMonth(leap, 2) == 31
    ensures DaysBeforeMonth(leap, 3) == 59 + if leap then 1 else 0
    ensures DaysBeforeMonth(leap, 12) + 31 == YearDays(leap)
  {
    assert DaysBeforeMonth(leap, 1) == 0 && DaysBeforeMonth(leap, 2) == 31;
    assert DaysBeforeMonth(leap, 4) == DaysBeforeMonth(leap, 3) + 31;
    assert DaysBeforeMonth(leap, 6) == DaysBeforeMonth(leap, 4) + 61;
    assert DaysBeforeMonth(leap, 8) == DaysBeforeMonth(leap, 6) + 61;
    assert DaysBeforeMonth(leap, 10) == DaysBeforeMonth(leap, 8) + 61;
    assert DaysBeforeMonth(leap, 12) == DaysBeforeMonth(leap, 10) + 61;
  }

  lemma FourthYears(y: nat)
    requires y > 1970
    ensures (y - 1969) / 4 == (y - 1970) / 4 + if (y - 1) % 4 == 0 then 1 else 0
  {
  }

  lemma Centuries(y: nat)
    requires y > 1970
    ensures (y - 1901) / 100 == (y - 1902) / 100 + if (y - 1) % 100 == 0 then 1 else 0
  {
  }

  lemma FourthCenturies(y: nat)
    requires y > 1970
    ensures (y - 1601) / 400 == (y - 1602) / 400 + if (y - 1) % 400 == 0 then 1 else 0
  {
  }

  /** Counting year by year is the usual closed form: every fourth year, less centuries, plus
      every fourth century. */
  lemma {:induction false} ClosedForm(y: nat)
    requires y >= 1970
    ensures DaysBeforeYear(y) == 365 * (y - 1970) + (y - 1969) / 4 - (y - 1901) / 100 + (y - 1601) / 400
  {
    if y > 1970 {
      ClosedForm(y - 1);
      FourthYears(y);
      Centuries(y);
      FourthCenturies(y);
    }
  }

  lemma {:induction false} YearsFollow(y: nat, z: nat)
    requires 1970 <= y < z
    ensures DaysBeforeYear(y) + YearDays(LeapYear(y)) <= DaysBeforeYear(z)
  {
    if y + 1 < z {
      YearsFollow(y, z - 1);
    }
  }

  lemma {:induction false} MonthsFollow(leap: bool, m: nat, n: nat)
    requires 1 <= m < n
    ensures DaysBeforeMonth(leap, m) + MonthDays(leap, m) <= DaysBeforeMonth(leap, n)
  {
    if m + 1 < n {
      MonthsFollow(leap, m, n - 1);
    }
  }

  lemma MonthsFitYear(leap: bool, m: nat)
    requires 1 <= m <= 12
    ensures DaysBeforeMonth(leap, m) + MonthDays(leap, m) <= YearDays(leap)
  {
    TwelveMonths(leap);
    if m < 12 {
      MonthsFollow(leap, m, 12);
    }
  }

  predicate EarlierDay(c: Calendar, d: Calendar) {
    c.year < d.year || (c.year == d.year && (c.month < d.month || (c.month == d.month && c.day < d.day)))
  }

  lemma DaysKeepOrder(c: Calendar, d: Calendar)
    requires Exists(c) && Exists(d) && EarlierDay(c, d)
    ensures DaysOf(c) < DaysOf(d)
  {
    if c.year < d.year {
      YearsFollow(c.year, d.year);
      MonthsFitYear(LeapYear(c.year), c.month);
    } else if c.month < d.month {
      MonthsFollow(LeapYear(c.year), c.month, d.month);
    }
  }

  lemma SameParts(days: int, time: nat, otherDays: int, otherTime: nat)
    requires time < DAY && otherTime < DAY && days * DAY + time == otherDays * DAY + otherTime
    ensures days == otherDays && time == otherTime
  {
  }

  /** A moment has only one date and time. */
  lemma CalendarIsUnique(c: Calendar, d: Calendar)
    requires Exists(c) && Exists(d) && SecondsOf(c) == SecondsOf(d)
    ensures c == d
  {
    SameParts(DaysOf(c), TimeOfDay(c), DaysOf(d), TimeOfDay(d));
    if EarlierDay(c, d) { DaysKeepOrder(c, d); }
    if EarlierDay(d, c) { DaysKeepOrder(d, c); }
  }
}
