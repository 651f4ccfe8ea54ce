/** The software clock: 16-bit words and carry chains, a fixed-point frame accumulator, and a
    calendar kept in step with them. */
module Clock {
  import opened Octets
  import opened Folds
  import opened Gregorian

  const SECOND := 0x1_0000_0000
  const TICKS := 0x1_0000_0000_0000_0000
  const FRAME_FRACTION: Word32 := 0x0442_7885
  const JST_OFFSET: Word32 := 0x7e90
  const COMMON_YEAR: Word32 := 0x01e1_3380
  const LEAP_YEAR: Word32 := 0x01e2_8500

  /** 2200-03-01, the day after the last one the clock's leap rule gets right. */
  const LIMIT := 7263216000

  function Dword(low: Word16, high: Word16): Word32 { high * 0x1_0000 + low }

  function Low(value: Word32): Word16 { value % 0x1_0000 }

  function High(value: Word32): Word16 { value / 0x1_0000 }

  function Adc(a: Word16, b: Word16, carry: bool): (Word16, bool) {
    var sum: int := a + b + if carry then 1 else 0;
    if sum < 0x1_0000 then (sum, false) else (sum - 0x1_0000, true)
  }

  function Sbc(a: Word16, b: Word16, carry: bool): (Word16, bool) {
    var difference: int := a - b - if carry then 0 else 1;
    if difference < 0 then (difference + 0x1_0000, false) else (difference, true)
  }

  function Increment(o: nat): nat { if o == 0xff then 0 else o + 1 }

  function Increment16(w: nat): nat { if w == 0xffff then 0 else w + 1 }

  function Decrement16(w: Word16): Word16 { if w == 0 then 0xffff else w - 1 }

  function WrapSum(a: Word32, b: Word32): Word32 { (a + b) % SECOND }

  lemma WrapSumIs(a: Word32, b: Word32)
    ensures WrapSum(a, b) == if a + b < SECOND then a + b else a + b - SECOND
  {
  }

  lemma CarryChain(low: Word16, high: Word16, value: Word32)
    ensures var (sumLow, carry) := Adc(low, Low(value), false);
            var (sumHigh, out) := Adc(high, High(value), carry);
            && Dword(sumLow, sumHigh) + (if out then SECOND else 0) == Dword(low, high) + value
            && Dword(sumLow, sumHigh) == WrapSum(Dword(low, high), value)
  {
    WrapSumIs(Dword(low, high), value);
  }

  lemma BorrowChain(low: Word16, high: Word16, value: Word32)
    requires Dword(low, high) >= value
    ensures var (lessLow, carry) := Sbc(low, Low(value), true);
            Dword(lessLow, Sbc(high, High(value), carry).0) == Dword(low, high) - value
  {
  }

  /** Only 2000 and 2100 get explicit century handling. */
  predicate IsLeapYear(y: nat) { if y == 2000 then true else if y == 2100 then false else y % 4 == 0 }

  lemma LeapRuleIsGregorian(y: nat)
    ensures IsLeapYear(y) == LeapYear(y) <==> !(y % 100 == 0 && y % 400 != 0 && y != 2100)
  {
  }

  lemma LeapRuleHolds(y: nat)
    requires 1970 <= y < 2200
    ensures IsLeapYear(y) == LeapYear(y)
  {
  }

  /** Dates the clock can show before its leap rule costs it a day: the Gregorian ones up to
      2200-02-28, and 2200-02-29. */
  predicate DateFits(y: nat, m: nat, d: nat) {
    && 1970 <= y <= 2200
    && 1 <= m <= (if y == 2200 then 2 else 12)
    && 1 <= d <= MonthDays(y == 2200 || LeapYear(y), m)
  }

  predicate Displayable(c: Calendar) { DateFits(c.year, c.month, c.day) && Clockwork(c) }

  lemma YearsOutgrowWords(y: nat)
    requires y >= 2107
    ensures DaysBeforeYear(y) * DAY > SECOND
  {
    ClosedForm(y);
  }

  lemma DaysBefore2200(y: nat)
    requires y == 2200
    ensures DaysBeforeYear(y) == 84006
  {
    ClosedForm(y);
  }

  lemma YearsBefore2200(x: nat, y: nat)
    requires 1970 <= x < y == 2200
    ensures DaysBeforeYear(x) + YearDays(LeapYear(x)) <= 84006
  {
    YearsFollow(x, y);
    DaysBefore2200(y);
  }

  lemma EarlierYears(c: Calendar)
    requires Displayable(c) && c.year < 2200
    ensures DaysOf(c) < 84006
  {
    YearsBefore2200(c.year, 2200);
    MonthsFitYear(LeapYear(c.year), c.month);
  }

  lemma LastDays(c: Calendar)
    requires c.year == 2200 && 1 <= c.month <= 2
    ensures DaysOf(c) == 84006 + (if c.month == 2 then 31 else 0) + c.day - 1
  {
    ClosedForm(c.year);
    TwelveMonths(false);
  }

  /** What is displayable is a real date exactly before the limit. */
  lemma RealBeforeLimit(c: Calendar)
    requires Displayable(c)
    ensures Exists(c) <==> SecondsOf(c) < LIMIT
  {
    if c.year < 2200 { EarlierYears(c); } else { LastDays(c); }
  }

  // ----- One day and one second later -----

  /** The date behind a shown one, for every content of the words that hold it. */
  function NextDate(c: Calendar): Calendar {
    var tomorrow := c.(day := Increment(c.day));
    if MonthDays(IsLeapYear(c.year), c.month) >= tomorrow.day then tomorrow
    else if Increment(c.month) < 13 then c.(month := Increment(c.month), day := 1)
    else c.(year := Increment16(c.year), month := 1, day := 1)
  }

  function NextSecond(c: Calendar): Calendar {
    if Increment(c.second) < 60 then c.(second := Increment(c.second))
    else if Increment(c.minute) < 60 then c.(minute := Increment(c.minute), second := 0)
    else if Increment(c.hour) < 24 then c.(hour := Increment(c.hour), minute := 0, second := 0)
    else NextDate(c.(hour := 0, minute := 0, second := 0))
  }

  lemma NextMonth(c: Calendar)
    requires Displayable(c) && DaysOf(c) * DAY < LIMIT && c.month < 12
    requires c.day == MonthDays(c.year == 2200 || LeapYear(c.year), c.month)
    ensures Displayable(c.(month := c.month + 1, day := 1))
            && DaysOf(c.(month := c.month + 1, day := 1)) == DaysOf(c) + 1
  {
    if c.year == 2200 { LastDays(c); }
  }

  lemma NextYear(c: Calendar)
    requires Displayable(c) && c.month == 12 && c.day == 31
    ensures var next := c.(year := c.year + 1, month := 1, day := 1);
            Displayable(next) && DaysOf(next) == DaysOf(c) + 1
  {
    TwelveMonths(LeapYear(c.year));
  }

  lemma NextDateFollows(c: Calendar)
    requires Displayable(c) && DaysOf(c) * DAY < LIMIT
    ensures Displayable(NextDate(c)) && DaysOf(NextDate(c)) == DaysOf(c) + 1
    ensures TimeOfDay(NextDate(c)) == TimeOfDay(c)
  {
    if c.year < 2200 { LeapRuleHolds(c.year); }
    if c.day == MonthDays(c.year == 2200 || LeapYear(c.year), c.month) {
      if c.month < 12 { NextMonth(c); } else { NextYear(c); }
    }
  }

  /** The next second is shown, up to and including the day the leap rule gets wrong. */
  lemma NextSecondFollows(c: Calendar)
    requires Displayable(c) && SecondsOf(c) + 1 < LIMIT + DAY
    ensures Displayable(NextSecond(c)) && SecondsOf(NextSecond(c)) == SecondsOf(c) + 1
  {
    if c.hour == 23 && c.minute == 59 && c.second == 59 {
      NextDateFollows(c.(hour := 0, minute := 0, second := 0));
    }
  }

  lemma MonthsAddUp(leap: bool, m: nat)
    requires 1 <= m <= 12
    ensures DaysBeforeMonth(leap, m + 1) == DaysBeforeMonth(leap, m) + MonthDays(leap, m)
    ensures m == 12 ==> DaysBeforeMonth(leap, m + 1) == YearDays(leap)
  {
    TwelveMonths(leap);
  }

  lemma PartsAddUp(c: Calendar, total: nat, inYear: nat, inMonth: nat)
    requires 1970 <= c.year && 1 <= c.month <= 12 && c.day >= 1 && Clockwork(c)
    requires DaysBeforeYear(c.year) * DAY + inYear == total
    requires DaysBeforeMonth(LeapYear(c.year), c.month) * DAY + inMonth == inYear
    requires (c.day - 1) * DAY + TimeOfDay(c) == inMonth < MonthDays(LeapYear(c.year), c.month) * DAY
    ensures Exists(c) && SecondsOf(c) == total
  {
  }

  /** What the clock holds: Unix seconds, a binary fraction, and the date and time shown. */
  datatype Reading = Reading(unix: Word32, fraction: Word32, shown: Calendar) {
    /** Unix time and local time in units of 2^-32 seconds. */
    function UnixTicks(): nat { unix * SECOND + fraction }

    function LocalTicks(): int { SecondsOf(shown) * SECOND + fraction }
  }

  /** The last tick of the day the leap rule gets wrong. */
  const END := (LIMIT + DAY) * SECOND

  /** So many frames later: Unix time wraps with its 32-bit seconds, and a displayable local time
      moves on by exactly as much while it does not pass the end. */
  predicate Later(before: Reading, after: Reading, frames: int) {
    && after.UnixTicks() == (before.UnixTicks() + frames * FRAME_FRACTION) % TICKS
    && (Displayable(before.shown) && before.LocalTicks() + frames * FRAME_FRACTION < END
        ==> Displayable(after.shown) && after.LocalTicks() == before.LocalTicks() + frames * FRAME_FRACTION)
  }

  lemma AddModTicks(a: int, b: int)
    ensures (a % TICKS + b) % TICKS == (a + b) % TICKS
  {
  }

  lemma LaterTwice(a: Reading, b: Reading, c: Reading, s: int, t: int)
    requires s >= 0 && t >= 0 && Later(a, b, s) && Later(b, c, t)
    ensures Later(a, c, s + t)
  {
    AddModTicks(a.UnixTicks() + s * FRAME_FRACTION, t * FRAME_FRACTION);
  }

  /** What one frame does. */
  function Frame(r: Reading): Reading {
    var sum: int := r.fraction + FRAME_FRACTION;
    if sum < SECOND then r.(fraction := sum)
    else Reading(if r.unix == SECOND - 1 then 0 else r.unix + 1, sum - SECOND, NextSecond(r.shown))
  }

  function Frames(r: Reading, n: nat): Reading { Iterate(Frame, r, n) }

  lemma WrappedTicks(unix: Word32, fraction: Word32)
    ensures var sum := fraction + FRAME_FRACTION;
            (unix * SECOND + sum) % TICKS
            == if sum < SECOND then unix * SECOND + sum
               else (if unix == SECOND - 1 then 0 else unix + 1) * SECOND + (sum - SECOND)
  {
  }

  lemma FrameIsLater(r: Reading)
    ensures Later(r, Frame(r), 1)
  {
    WrappedTicks(r.unix, r.fraction);
    if Displayable(r.shown) && SecondsOf(r.shown) + 1 < LIMIT + DAY {
      NextSecondFollows(r.shown);
    }
  }

  /** Frames add up on both clocks. */
  lemma {:induction false} FramesAreLater(r: Reading, n: nat)
    ensures Later(r, Frames(r, n), n)
  {
    if n > 0 {
      FramesAreLater(r, n - 1);
      FrameIsLater(Frames(r, n - 1));
      LaterTwice(r, Frames(r, n - 1), Frames(r, n), n - 1, 1);
    } else {
      assert Frames(r, 0) == r;
    }
  }

  class SoftwareClock {
    var secondsLow: Word16
    var secondsHigh: Word16
    var fractionLow: Word16
    var fractionHigh: Word16
    var remainingLow: Word16
    var remainingHigh: Word16
    var lastFrame: Word16
    var year: Word16
    var month: Octet
    var day: Octet
    var hour: Octet
    var minute: Octet
    var second: Octet
    var valid: bool

    function Unix(): Word32
      reads this`secondsLow, this`secondsHigh
    {
      Dword(secondsLow, secondsHigh)
    }

    function Fraction(): Word32
      reads this`fractionLow, this`fractionHigh
    {
      Dword(fractionLow, fractionHigh)
    }

    function Remaining(): Word32
      reads this`remainingLow, this`remainingHigh
    {
      Dword(remainingLow, remainingHigh)
    }

    function Shown(): Calendar
      reads this`year, this`month, this`day, this`hour, this`minute, this`second
    {
      Calendar(year, month, day, hour, minute, second)
    }

    function Read(): Reading
      reads this
    {
      Reading(Unix(), Fraction(), Shown())
    }

    constructor (frameCounter: Word16)
      ensures !valid && Unix() == 0 && Fraction() == 0 && lastFrame == frameCounter
      ensures Shown() == Calendar(0, 0, 0, 0, 0, 0)
    {
      secondsLow, secondsHigh, fractionLow, fractionHigh := 0, 0, 0, 0;
      year, remainingLow, remainingHigh := 0, 0, 0;
      lastFrame := frameCounter;
      valid, month, day, hour, minute, second := false, 0, 0, 0, 0, 0;
    }

    // ----- Decomposing a Unix time from scratch -----

    /** High words are compared first, then low words; the borrow runs the other way. */
    method SubtractIfAtLeast(value: Word32) returns (enough: bool)
      modifies this`remainingLow, this`remainingHigh
      ensures enough == (old(Remaining()) >= value)
      ensures Remaining() == if enough then old(Remaining()) - value else old(Remaining())
    {
      if remainingHigh < High(value) {
        return false;
      }
      if remainingHigh == High(value) && remainingLow < Low(value) {
        return false;
      }
      BorrowChain(remainingLow, remainingHigh, value);
      var (low, carry) := Sbc(remainingLow, Low(value), true);
      remainingLow, remainingHigh := low, Sbc(remainingHigh, High(value), carry).0;
      return true;
    }

    method CountYears()
      modifies this`year, this`remainingLow, this`remainingHigh
      ensures 1970 <= year <= 2106 && Remaining() < YearDays(LeapYear(year)) * DAY
      ensures DaysBeforeYear(year) * DAY + Remaining() == old(Remaining())
    {
      year := 1970;
      var enough := true;
      while enough
        invariant 1970 <= year <= 2106
        invariant DaysBeforeYear(year) * DAY + Remaining() == old(Remaining())
        invariant enough || Remaining() < YearDays(LeapYear(year)) * DAY
        decreases Remaining(), enough
      {
        if year == 2106 { YearsOutgrowWords(year + 1); }
        LeapRuleHolds(year);
        assert DaysBeforeYear(year + 1) == DaysBeforeYear(year) + YearDays(LeapYear(year));
        if IsLeapYear(year) {
          enough := SubtractIfAtLeast(LEAP_YEAR);
        } else {
          enough := SubtractIfAtLeast(COMMON_YEAR);
        }
        if enough {
          year := year + 1;
        }
      }
    }

    method SubtractMonth() returns (enough: bool)
      requires 1970 <= year < 2200
      modifies this`remainingLow, this`remainingHigh
      ensures enough == (old(Remaining()) >= MonthDays(LeapYear(year), month) * DAY)
      ensures Remaining()
              == if enough then old(Remaining()) - MonthDays(LeapYear(year), month) * DAY else old(Remaining())
    {
      LeapRuleHolds(year);
      if month == 2 {
        if IsLeapYear(year) {
          enough := SubtractIfAtLeast(0x0026_3b80);
        } else {
          enough := SubtractIfAtLeast(0x0024_ea00);
        }
      } else if month == 4 || month == 6 || month == 9 || month == 11 {
        enough := SubtractIfAtLeast(0x0027_8d00);
      } else {
        enough := SubtractIfAtLeast(0x0028_de80);
      }
    }

    /** One round of the month loop; December, the last month, is never taken away. */
    method TakeMonth(ghost total: nat) returns (enough: bool)
      requires 1970 <= year < 2200 && 1 <= month <= 12 && total < YearDays(LeapYear(year)) * DAY
      requires DaysBeforeMonth(LeapYear(year), month) * DAY + Remaining() == total
      modifies this`month, this`remainingLow, this`remainingHigh
      ensures 1 <= month <= 12 && DaysBeforeMonth(LeapYear(year), month) * DAY + Remaining() == total
      ensures if enough then Remaining() < old(Remaining())
              else Remaining() == old(Remaining()) < MonthDays(LeapYear(year), month) * DAY
    {
      enough := SubtractMonth();
      if enough {
        MonthsAddUp(LeapYear(year), month);
        month := month + 1;
      }
    }

    method CountMonths()
      requires 1970 <= year < 2200 && Remaining() < YearDays(LeapYear(year)) * DAY
      modifies this`month, this`remainingLow, this`remainingHigh
      ensures 1 <= month <= 12 && Remaining() < MonthDays(LeapYear(year), month) * DAY
      ensures DaysBeforeMonth(LeapYear(year), month) * DAY + Remaining() == old(Remaining())
    {
      ghost var total := Remaining();
      month := 1;
      var enough := true;
      while enough
        invariant 1 <= month <= 12
        invariant DaysBeforeMonth(LeapYear(year), month) * DAY + Remaining() == total
        invariant enough || Remaining() < MonthDays(LeapYear(year), month) * DAY
        decreases Remaining(), enough
      {
        enough := TakeMonth(total);
      }
    }

    /** The day, hour and minute loops: how often a unit can be taken away. */
    method CountUnits(unit: Word32, first: Octet) returns (count: Octet)
      requires unit > 0 && Remaining() < (0x100 - first) * unit
      modifies this`remainingLow, this`remainingHigh
      ensures count >= first && (count - first) * unit + Remaining() == old(Remaining()) && Remaining() < unit
    {
      count := first;
      var enough := true;
      while enough
        invariant count >= first && (count - first) * unit + Remaining() == old(Remaining())
        invariant enough || Remaining() < unit
        decreases Remaining(), enough
      {
        ghost var taken := (count - first) * unit;
        enough := SubtractIfAtLeast(unit);
        if enough {
          Distribute(count - first, unit);
          assert count == 0xff ==> (count - first + 1) * unit == (0x100 - first) * unit;
          count := count + 1;
        }
      }
    }

    method DecomposeDay()
      requires Remaining() < DAY
      modifies this`remainingLow, this`remainingHigh, this`hour, this`minute, this`second
      ensures Clockwork(Shown()) && TimeOfDay(Shown()) == old(Remaining())
    {
      hour := CountUnits(0xe10, 0);
      minute := CountUnits(0x3c, 0);
      TakeSecond();
    }

    method TakeSecond()
      requires Remaining() < 60
      modifies this`second
      ensures second == Remaining()
    {
      second := remainingLow % 0x100;
    }

    method DecomposeMonth()
      requires Remaining() < 31 * DAY
      modifies this`remainingLow, this`remainingHigh, this`day, this`hour, this`minute, this`second
      ensures day >= 1 && Clockwork(Shown()) && (day - 1) * DAY + TimeOfDay(Shown()) == old(Remaining())
    {
      day := CountUnits(DAY, 1);
      DecomposeDay();
    }

    method DecomposeRemaining()
      modifies this`remainingLow, this`remainingHigh, this`year, this`month, this`day, this`hour, this`minute,
               this`second
      ensures Exists(Shown()) && SecondsOf(Shown()) == old(Remaining()) && year <= 2106
    {
      ghost var total := Remaining();
      CountYears();
      ghost var inYear := Remaining();
      CountMonths();
      ghost var inMonth := Remaining();
      DecomposeMonth();
      PartsAddUp(Shown(), total, inYear, inMonth);
    }

    method AddJstOffset()
      modifies this`remainingLow, this`remainingHigh
      ensures Remaining() == WrapSum(Unix(), JST_OFFSET)
    {
      CarryChain(secondsLow, secondsHigh, JST_OFFSET);
      var (low, carry) := Adc(secondsLow, Low(JST_OFFSET), false);
      remainingLow, remainingHigh := low, Adc(secondsHigh, High(JST_OFFSET), carry).0;
    }

    /** The date and time of the Unix time and nine hours, where that sum is a 32-bit one. */
    method DecomposeJst()
      modifies this`remainingLow, this`remainingHigh, this`year, this`month, this`day, this`hour, this`minute,
               this`second
      ensures Exists(Shown()) && SecondsOf(Shown()) == WrapSum(Unix(), JST_OFFSET) && year <= 2106
      ensures SecondsOf(Shown()) == (Unix() + 9 * 3600) % 0x1_0000_0000
    {
      AddJstOffset();
      DecomposeRemaining();
    }

    method SetUnixTime(low: Word16, high: Word16, fraction: Word16, frameCounter: Word16)
      modifies this
      ensures valid && lastFrame == frameCounter
      ensures Unix() == Dword(low, high) && Fraction() == fraction * 0x1_0000
      ensures Exists(Shown()) && Displayable(Shown()) && SecondsOf(Shown()) == WrapSum(Unix(), JST_OFFSET)
    {
      secondsLow, secondsHigh, fractionLow, fractionHigh := low, high, 0, fraction;
      lastFrame := frameCounter;
      valid := true;
      DecomposeJst();
    }

    // ----- One second, one frame, many frames -----

    method DaysInMonth() returns (days: Octet)
      ensures days == MonthDays(IsLeapYear(year), month)
    {
      if month == 2 {
        return if IsLeapYear(year) then 29 else 28;
      }
      if month == 4 || month == 6 || month == 9 || month == 11 {
        return 30;
      }
      return 31;
    }

    method IncrementDate()
      modifies this`year, this`month, this`day
      ensures Shown() == NextDate(old(Shown()))
    {
      day := Increment(day);
      var days := DaysInMonth();
      if days >= day {
        return;
      }
      day := 1;
      month := Increment(month);
      if month < 13 {
        return;
      }
      month := 1;
      year := Increment16(year);
    }

    method IncrementCalendar()
      modifies this`year, this`month, this`day, this`hour, this`minute, this`second
      ensures Shown() == NextSecond(old(Shown()))
      ensures old(Displayable(Shown()) && SecondsOf(Shown()) + 1 < LIMIT + DAY)
              ==> Displayable(Shown()) && SecondsOf(Shown()) == old(SecondsOf(Shown())) + 1
    {
      if Displayable(Shown()) && SecondsOf(Shown()) + 1 < LIMIT + DAY { NextSecondFollows(Shown()); }
      second := Increment(second);
      if second < 60 {
        return;
      }
      second := 0;
      minute := Increment(minute);
      if minute < 60 {
        return;
      }
      minute := 0;
      hour := Increment(hour);
      if hour < 24 {
        return;
      }
      hour := 0;
      IncrementDate();
    }

    // ----- Frames -----

    method AdvanceSecond()
      modifies this`secondsLow, this`secondsHigh, this`year, this`month, this`day, this`hour, this`minute, this`second
      ensures Unix() == if old(Unix()) == SECOND - 1 then 0 else old(Unix()) + 1
      ensures Shown() == NextSecond(old(Shown()))
    {
      secondsLow := Increment16(secondsLow);
      if secondsLow == 0 {
        secondsHigh := Increment16(secondsHigh);
      }
      IncrementCalendar();
    }

    method AdvanceFraction() returns (carry: bool)
      modifies this`fractionLow, this`fractionHigh
      ensures Fraction() + (if carry then SECOND else 0) == old(Fraction()) + FRAME_FRACTION
    {
      CarryChain(fractionLow, fractionHigh, FRAME_FRACTION);
      var (low, out) := Adc(fractionLow, 0x7885, false);
      fractionLow := low;
      var (high, over) := Adc(fractionHigh, 0x0442, out);
      fractionHigh := high;
      return over;
    }

    method AdvanceFrame()
      modifies this`secondsLow, this`secondsHigh, this`fractionLow, this`fractionHigh,
               this`year, this`month, this`day, this`hour, this`minute, this`second
      ensures Read() == Frame(old(Read()))
    {
      var carry := AdvanceFraction();
      if carry {
        AdvanceSecond();
      }
    }

    /** The counter is tested after it is decremented, so zero stands for 65536 frames. */
    method AdvanceFrames(x: Word16)
      modifies this`secondsLow, this`secondsHigh, this`fractionLow, this`fractionHigh,
               this`year, this`month, this`day, this`hour, this`minute, this`second
      ensures Read() == Frames(old(Read()), FramesOf(x))
    {
      ghost var start := Read();
      AdvanceFrame();
      var left := Decrement16(x);
      ghost var done: nat := 1;
      IterateOnce(Frame, start);
      while left != 0
        invariant done == FramesOf(x) - left && Read() == Iterate(Frame, start, done)
      {
        AdvanceFrame();
        left := Decrement16(left);
        done := done + 1;
      }
    }

    /** One main-loop poll, atomic with respect to the interrupt that counts frames. */
    method Poll(frameCounter: Word16)
      modifies this`secondsLow, this`secondsHigh, this`fractionLow, this`fractionHigh,
               this`year, this`month, this`day, this`hour, this`minute, this`second, this`lastFrame
      ensures lastFrame == frameCounter
      ensures Read() == if valid then Frames(old(Read()), Elapsed(frameCounter, old(lastFrame))) else old(Read())
    {
      var elapsed := Elapsed(frameCounter, lastFrame);
      if elapsed == 0 {
        return;
      }
      lastFrame := frameCounter;
      if valid {
        AdvanceFrames(elapsed);
      }
    }
  }

  /** The difference of two readings of a wrapping counter. */
  function Elapsed(now: Word16, last: Word16): Word16 { Sbc(now, last, true).0 }

  function FramesOf(x: Word16): nat { if x == 0 then 0x1_0000 else x }

  lemma Distribute(n: nat, unit: nat)
    ensures (n + 1) * unit == n * unit + unit
  {
  }

  // ----- Runs of polls -----

  /** The word of the frame counter that a poll reads. */
  function FrameWord(count: nat): Word16 { count % 0x1_0000 }

  /** The frame count at the poll before poll `k`. */
  function CountBefore(start: nat, counts: seq<nat>, k: nat): nat
    requires k <= |counts|
  {
    if k == 0 then start else counts[k - 1]
  }

  /** Frame counts at successive polls, none more than 65535 behind the next. */
  predicate PolledInTime(start: nat, counts: seq<nat>) {
    forall k | 0 <= k < |counts| :: 0 <= counts[k] - CountBefore(start, counts, k) < 0x1_0000
  }

  function LastCount(start: nat, counts: seq<nat>): nat { CountBefore(start, counts, |counts|) }

  lemma WrappedDifference(from: nat, to: nat)
    requires from <= to < from + 0x1_0000
    ensures Elapsed(FrameWord(to), FrameWord(from)) == to - from
  {
  }

  /** A poll at a known frame count, some frames after the first reading. */
  method PollAt(clock: SoftwareClock, ghost first: Reading, ghost frames: nat, ghost from: nat, to: nat)
    requires clock.valid && clock.lastFrame == FrameWord(from) && from <= to < from + 0x1_0000
    requires clock.Read() == Iterate(Frame, first, frames)
    modifies clock`secondsLow, clock`secondsHigh, clock`fractionLow, clock`fractionHigh,
             clock`year, clock`month, clock`day, clock`hour, clock`minute, clock`second, clock`lastFrame
    ensures clock.lastFrame == FrameWord(to) && clock.Read() == Iterate(Frame, first, frames + (to - from))
  {
    WrappedDifference(from, to);
    IterateAppend(Frame, first, frames, to - from);
    clock.Poll(FrameWord(to));
  }

  /** Over any run of polls, not a frame is lost or counted twice. */
  method PollAll(clock: SoftwareClock, start: nat, counts: seq<nat>)
    requires clock.valid && clock.lastFrame == FrameWord(start) && PolledInTime(start, counts)
    modifies clock`secondsLow, clock`secondsHigh, clock`fractionLow, clock`fractionHigh,
             clock`year, clock`month, clock`day, clock`hour, clock`minute, clock`second, clock`lastFrame
    ensures start <= LastCount(start, counts)
    ensures clock.Read() == Frames(old(clock.Read()), LastCount(start, counts) - start)
  {
    ghost var first := clock.Read();
    ghost var from := start;
    for n := 0 to |counts|
      invariant clock.valid && start <= from == CountBefore(start, counts, n)
      invariant clock.lastFrame == FrameWord(from) && clock.Read() == Iterate(Frame, first, from - start)
    {
      PollAt(clock, first, from - start, from, counts[n]);
      from := counts[n];
    }
  }

  // ----- What the clock is for -----

  /** One frame of 357366 master clocks at 236250000/11 Hz. */
  const NOMINAL_FRAME: real := (357366 * 11) as real / 236250000.0

  /** No other 32-bit fraction is closer to the nominal frame. */
  lemma FrameFractionIsNearest(other: int)
    ensures var exact := NOMINAL_FRAME * SECOND as real;
            -0.5 <= FRAME_FRACTION as real - exact <= 0.5
            && (other != FRAME_FRACTION ==> other as real - exact > 0.5 || other as real - exact < -0.5)
  {
    if other < FRAME_FRACTION { assert other as real <= (FRAME_FRACTION - 1) as real; }
    if other > FRAME_FRACTION { assert other as real >= (FRAME_FRACTION + 1) as real; }
  }

  function Seconds(ticks: int): real { ticks as real / SECOND as real }

  lemma Drift(frames: nat)
    ensures var error := Seconds(frames * FRAME_FRACTION) - frames as real * NOMINAL_FRAME;
            -(frames as real) <= error * 0x2_0000_0000 as real <= frames as real
  {
  }

  /** A real date and time, within 2^-33 seconds a frame of the nominal one. */
  predicate Accurate(given: int, frames: int, r: Reading) {
    var error := Seconds(r.LocalTicks()) - Seconds(given) - frames as real * NOMINAL_FRAME;
    Exists(r.shown) && -(frames as real) <= error * 0x2_0000_0000 as real <= frames as real
  }

  lemma SecondsAdd(a: int, b: int)
    ensures Seconds(a + b) == Seconds(a) + Seconds(b)
  {
  }

  lemma ShownTimeMoves(before: Reading, after: Reading, frames: nat)
    requires Displayable(before.shown) && Later(before, after, frames)
    requires before.LocalTicks() + frames * FRAME_FRACTION < LIMIT * SECOND
    ensures after.LocalTicks() == before.LocalTicks() + frames * FRAME_FRACTION && Exists(after.shown)
  {
    TicksBelow(SecondsOf(after.shown), after.fraction);
    RealBeforeLimit(after.shown);
  }

  lemma ShownTimeIsAccurate(before: Reading, after: Reading, frames: nat)
    requires Displayable(before.shown) && Later(before, after, frames)
    requires before.LocalTicks() + frames * FRAME_FRACTION < LIMIT * SECOND
    ensures after.LocalTicks() == before.LocalTicks() + frames * FRAME_FRACTION
    ensures Accurate(before.LocalTicks(), frames, after)
  {
    ShownTimeMoves(before, after, frames);
    SecondsAdd(before.LocalTicks(), frames * FRAME_FRACTION);
    Drift(frames);
  }

  /** Local time as it is set, in ticks. */
  function GivenTicks(unix: Word32, fraction: Word16): int {
    WrapSum(unix, JST_OFFSET) * SECOND + fraction * 0x1_0000
  }

  /** A clock set to a Unix time and polled in time shows an accurate local time, and its Unix time
      is the one set plus all the frames. */
  method SetAndPoll(clock: SoftwareClock, low: Word16, high: Word16, fraction: Word16, start: nat, counts: seq<nat>)
    requires PolledInTime(start, counts)
    modifies clock
    ensures var frames := LastCount(start, counts) - start;
            var given := GivenTicks(Dword(low, high), fraction);
            && clock.Read().UnixTicks()
               == (Dword(low, high) * SECOND + fraction * 0x1_0000 + frames * FRAME_FRACTION) % TICKS
            && (given + frames * FRAME_FRACTION < LIMIT * SECOND ==> Accurate(given, frames, clock.Read()))
  {
    clock.SetUnixTime(low, high, fraction, FrameWord(start));
    ghost var before := clock.Read();
    assert before.LocalTicks() == GivenTicks(Dword(low, high), fraction);
    ghost var frames := LastCount(start, counts) - start;
    PollAll(clock, start, counts);
    FramesAreLater(before, frames);
    if before.LocalTicks() + frames * FRAME_FRACTION < LIMIT * SECOND {
      ShownTimeIsAccurate(before, clock.Read(), frames);
    }
  }

  // ----- The calendar kept in step against the conversion from scratch -----

  lemma WordsSplit(total: nat, seconds: int, fraction: Word32)
    requires total == seconds * SECOND + fraction
    ensures seconds == total / SECOND && fraction == total % SECOND
  {
  }

  lemma WrappedSeconds(total: nat, unix: Word32, fraction: Word32)
    requires unix * SECOND + fraction == total % TICKS
    ensures unix == (total / SECOND) % SECOND
  {
  }

  lemma SumModSecond(a: int, b: int, carry: int)
    ensures (a % SECOND + b) % SECOND == (a + b - carry * SECOND) % SECOND
  {
  }

  /** The local seconds are the Unix seconds and the offset, whatever wrapped on the way. */
  lemma LocalSeconds(unix: Word32, offset: Word32, fraction: Word32, moved: nat, local: int, now: Word32, rest: Word32)
    requires WrapSum(unix, offset) * SECOND + fraction + moved == local * SECOND + rest
    requires now * SECOND + rest == (unix * SECOND + fraction + moved) % TICKS
    ensures WrapSum(now, offset) == local % SECOND
  {
    var total := unix * SECOND + fraction + moved;
    var carry := if unix + offset < SECOND then 0 else 1;
    WrapSumIs(unix, offset);
    WordsSplit(total, local - offset + carry * SECOND, rest);
    WrappedSeconds(total, now, rest);
    SumModSecond(total / SECOND, offset, carry);
  }

  lemma BelowSecond(local: nat)
    ensures local % SECOND == local <==> local < SECOND
  {
  }

  lemma TicksBelow(seconds: int, fraction: Word32)
    ensures seconds * SECOND + fraction < TICKS <==> seconds < SECOND
    ensures seconds * SECOND + fraction < LIMIT * SECOND <==> seconds < LIMIT
  {
  }

  /** A shown date agrees with the one a conversion finds exactly below 2^32 local seconds. */
  lemma AgreesBelowSecond(shown: Calendar, scratch: Calendar)
    requires Displayable(shown) && SecondsOf(shown) >= 0
    requires Exists(scratch) && SecondsOf(scratch) == SecondsOf(shown) % SECOND
    ensures shown == scratch <==> SecondsOf(shown) < SECOND
  {
    BelowSecond(SecondsOf(shown));
    if SecondsOf(shown) < SECOND {
      RealBeforeLimit(shown);
      CalendarIsUnique(shown, scratch);
    }
  }

  /** What a clock shows after some frames against the date its Unix time is converted to then. */
  lemma StepwiseAgainstScratch(before: Reading, after: Reading, frames: nat, scratch: Calendar)
    requires Exists(before.shown) && Displayable(before.shown)
    requires SecondsOf(before.shown) == WrapSum(before.unix, JST_OFFSET)
    requires Later(before, after, frames) && before.LocalTicks() + frames * FRAME_FRACTION < END
    requires Exists(scratch) && SecondsOf(scratch) == WrapSum(after.unix, JST_OFFSET)
    ensures after.shown == scratch <==> before.LocalTicks() + frames * FRAME_FRACTION < TICKS
  {
    LocalSeconds(before.unix, JST_OFFSET, before.fraction, frames * FRAME_FRACTION, SecondsOf(after.shown), after.unix,
                 after.fraction);
    TicksBelow(SecondsOf(after.shown), after.fraction);
    AgreesBelowSecond(after.shown, scratch);
  }

  /** Set below the last 32400 seconds and not wrapped since, the clock agrees with a conversion as long
      as the conversion does not carry. */
  lemma AgreesWhileItFits(before: Reading, after: Reading, frames: nat)
    requires before.unix + JST_OFFSET < SECOND && before.UnixTicks() + frames * FRAME_FRACTION < TICKS
    requires SecondsOf(before.shown) == WrapSum(before.unix, JST_OFFSET)
    requires after.UnixTicks() == (before.UnixTicks() + frames * FRAME_FRACTION) % TICKS
    ensures before.LocalTicks() + frames * FRAME_FRACTION < END
    ensures before.LocalTicks() + frames * FRAME_FRACTION < TICKS <==> after.unix + JST_OFFSET < SECOND
  {
    WrapSumIs(before.unix, JST_OFFSET);
    TicksBelow(after.unix + JST_OFFSET, after.fraction);
  }

  lemma Reconverted(before: Reading, after: Reading, frames: nat, scratch: Calendar)
    requires Exists(before.shown) && Displayable(before.shown)
    requires SecondsOf(before.shown) == WrapSum(before.unix, JST_OFFSET) && Later(before, after, frames)
    requires Exists(scratch) && SecondsOf(scratch) == WrapSum(after.unix, JST_OFFSET)
    ensures var local := before.LocalTicks() + frames * FRAME_FRACTION;
            local < END ==> && Displayable(after.shown) && after.LocalTicks() == local
                            && (after.shown == scratch <==> local < TICKS)
    ensures before.unix + JST_OFFSET < SECOND && before.UnixTicks() + frames * FRAME_FRACTION < TICKS ==>
              (after.shown == scratch <==> after.unix + JST_OFFSET < SECOND)
  {
    if before.LocalTicks() + frames * FRAME_FRACTION < END {
      StepwiseAgainstScratch(before, after, frames, scratch);
    }
    if before.unix + JST_OFFSET < SECOND && before.UnixTicks() + frames * FRAME_FRACTION < TICKS {
      AgreesWhileItFits(before, after, frames);
    }
  }

  method Convert(clock: SoftwareClock) returns (scratch: Calendar)
    modifies clock
    ensures clock.Unix() == old(clock.Unix()) && clock.Fraction() == old(clock.Fraction())
    ensures scratch == clock.Shown() && Exists(scratch) && SecondsOf(scratch) == WrapSum(clock.Unix(), JST_OFFSET)
  {
    clock.DecomposeJst();
    scratch := clock.Shown();
  }

  /** A clock is set and polled in time; then its Unix time is converted from scratch. The calendar it
      has kept in step is the converted one exactly while its local time has not passed 2^32 seconds,
      which for a clock that has not wrapped is while the conversion does not carry out of 32 bits. */
  method SetPollAndConvert(clock: SoftwareClock, low: Word16, high: Word16, fraction: Word16, start: nat,
                           counts: seq<nat>)
    returns (stepwise: Calendar, scratch: Calendar)
    requires PolledInTime(start, counts)
    modifies clock
    ensures scratch == clock.Shown() && Exists(scratch) && SecondsOf(scratch) == WrapSum(clock.Unix(), JST_OFFSET)
    ensures var local := GivenTicks(Dword(low, high), fraction) + (LastCount(start, counts) - start) * FRAME_FRACTION;
            local < END ==>
              && Displayable(stepwise) && SecondsOf(stepwise) * SECOND + clock.Fraction() == local
              && (stepwise == scratch <==> local < TICKS)
    ensures var ticks := Dword(low, high) * SECOND + fraction * 0x1_0000
                         + (LastCount(start, counts) - start) * FRAME_FRACTION;
            Dword(low, high) + JST_OFFSET < SECOND && ticks < TICKS ==>
              (stepwise == scratch <==> clock.Unix() + JST_OFFSET < SECOND)
  {
    clock.SetUnixTime(low, high, fraction, FrameWord(start));
    ghost var before := clock.Read();
    ghost var frames := LastCount(start, counts) - start;
    PollAll(clock, start, counts);
    ghost var after := clock.Read();
    FramesAreLater(before, frames);
    stepwise := clock.Shown();
    scratch := Convert(clock);
    Reconverted(before, after, frames, scratch);
  }
}
