/** The calendar against its closed form, and the clock against dates: what it shows is nine hours ahead. */
module ClockDates {
  import opened Gregorian
  import opened Clock

  /** Months counted from March have 153 days in five. */
  lemma {:induction false} MonthsClosedForm(leap: bool, m: nat)
    requires 3 <= m <= 13
    ensures DaysBeforeMonth(leap, m) == DaysBeforeMonth(leap, 3) + (153 * (m - 3) + 2) / 5
  {
    if m > 3 {
      MonthsClosedForm(leap, m - 1);
      NextFifth(m - 4);
    }
  }

  lemma NextFifth(n: nat)
    requires n < 10
    ensures (153 * (n + 1) + 2) / 5 == (153 * n + 2) / 5 + if n == 1 || n == 3 || n == 6 || n == 8 then 30 else 31
  {
  }

  /** The days between a date and 1970-01-01: 365 a year, the leap days, the months, the day. */
  lemma DateHasClosedForm(c: Calendar)
    requires Exists(c)
    ensures DaysOf(c) == 365 * (c.year - 1970) + (c.year - 1969) / 4 - (c.year - 1901) / 100 + (c.year - 1601) / 400
                         + (if c.month <= 2 then 31 * (c.month - 1)
                            else (if LeapYear(c.year) then 60 else 59) + (153 * (c.month - 3) + 2) / 5)
                         + c.day - 1
  {
    ClosedForm(c.year);
    TwelveMonths(LeapYear(c.year));
    if c.month > 2 { MonthsClosedForm(LeapYear(c.year), c.month); }
  }

  lemma SameDayLater(c: Calendar)
    requires c.hour < 15
    ensures SecondsOf(c.(hour := c.hour + 9)) == SecondsOf(c) + 9 * 3600
  {
  }

  lemma NextDayEarlier(c: Calendar, next: Calendar)
    requires 15 <= c.hour < 24 && DaysOf(next) == DaysOf(c) + 1 && TimeOfDay(next) == TimeOfDay(c.(hour := c.hour - 15))
    ensures SecondsOf(next) == SecondsOf(c) + 9 * 3600
  {
  }

  lemma NextDayShown(c: Calendar)
    requires Exists(c) && c.year < 2200 && c.hour >= 15 && SecondsOf(c) + 9 * 3600 < 0x1_0000_0000
    ensures var next := NextDate(c.(hour := c.hour - 15));
            Exists(next) && SecondsOf(next) == SecondsOf(c) + 9 * 3600
  {
    var early := c.(hour := c.hour - 15);
    NextDateFollows(early);
    NextDayEarlier(c, NextDate(early));
    RealBeforeLimit(NextDate(early));
  }

  /** What a clock set to the seconds of a date shows: the same day nine hours later, or the next one fifteen hours
      earlier. */
  lemma NineHoursAhead(c: Calendar, shown: Calendar)
    requires Exists(c) && c.year < 2200 && SecondsOf(c) + 9 * 3600 < 0x1_0000_0000
    requires Exists(shown) && SecondsOf(shown) == (SecondsOf(c) + 9 * 3600) % 0x1_0000_0000
    ensures shown == if c.hour < 15 then c.(hour := c.hour + 9) else NextDate(c.(hour := c.hour - 15))
  {
    if c.hour < 15 {
      SameDayLater(c);
      CalendarIsUnique(shown, c.(hour := c.hour + 9));
    } else {
      NextDayShown(c);
      CalendarIsUnique(shown, NextDate(c.(hour := c.hour - 15)));
    }
  }
}
