/** The proleptic Gregorian calendar as Python's `datetime.date` implements
    it: which (year, month, day) triples are dates, the ordinal day number
    (0001-01-01 is day 1), the weekday derived from it, the comparison of
    two dates and the step to the following day. */
module Calendar {
  import opened Results

  /** `datetime.MINYEAR` and `datetime.MAXYEAR`. */
  const MinYear: int := 1
  const MaxYear: int := 9999

  datatype Date = Date(year: int, month: int, day: int)

  /** Why `datetime.date(year, month, day)` refused its arguments. */
  datatype DateError =
    | YearOutOfRange(year: int)
    | MonthOutOfRange(month: int)
    | DayOutOfRange(day: int)

  predicate IsLeapYear(year: int) {
    year % 4 == 0 && (year % 100 != 0 || year % 400 == 0)
  }

  function DaysInYear(year: int): int {
    if IsLeapYear(year) then 366 else 365
  }

  function DaysInMonth(year: int, month: int): (n: int)
    requires 1 <= month <= 12
    ensures 28 <= n <= 31
    ensures n == 29 <==> month == 2 && IsLeapYear(year)
  {
    if month == 2 then (if IsLeapYear(year) then 29 else 28)
    else if month == 4 || month == 6 || month == 9 || month == 11 then 30
    else 31
  }

  predicate ValidDate(d: Date) {
    && MinYear <= d.year <= MaxYear
    && 1 <= d.month <= 12
    && 1 <= d.day <= DaysInMonth(d.year, d.month)
  }

  /** The constructor `datetime.date(year, month, day)`: the year is checked
      first, then the month, then the day. */
  function MakeDate(year: int, month: int, day: int): (r: Result<Date, DateError>)
    ensures r.Ok? <==> ValidDate(Date(year, month, day))
    ensures r.Ok? ==> r.value == Date(year, month, day)
    ensures r == Err(YearOutOfRange(year)) <==> !(MinYear <= year <= MaxYear)
    ensures r == Err(MonthOutOfRange(month)) <==> MinYear <= year <= MaxYear && !(1 <= month <= 12)
  {
    if !(MinYear <= year <= MaxYear) then Err(YearOutOfRange(year))
    else if !(1 <= month <= 12) then Err(MonthOutOfRange(month))
    else if !(1 <= day <= DaysInMonth(year, month)) then Err(DayOutOfRange(day))
    else Ok(Date(year, month, day))
  }

  /** Date comparison: Python compares dates as (year, month, day) tuples. */
  predicate Before(a: Date, b: Date) {
    || a.year < b.year
    || (a.year == b.year && a.month < b.month)
    || (a.year == b.year && a.month == b.month && a.day < b.day)
  }

  /** Number of days in the years before `year`. */
  function DaysBeforeYear(year: int): int {
    var y := year - 1;
    y * 365 + y / 4 - y / 100 + y / 400
  }

  /** Number of days in `year` before the first of `month`, from the
      cumulative table of a common year plus the leap day after February. */
  function DaysBeforeMonth(year: int, month: int): int
    requires 1 <= month <= 12
  {
    var table := [0, 0, 31, 59, 90, 120, 151, 181, 212, 243, 273, 304, 334];
    table[month] + (if month > 2 && IsLeapYear(year) then 1 else 0)
  }

  /** `date.toordinal()`: 0001-01-01 is day 1. */
  function Ordinal(d: Date): int
    requires 1 <= d.month <= 12
  {
    DaysBeforeYear(d.year) + DaysBeforeMonth(d.year, d.month) + d.day
  }

  /** `date.weekday()`: 0 is Monday and 6 is Sunday. */
  function Weekday(d: Date): (w: int)
    requires 1 <= d.month <= 12
    ensures 0 <= w < 7
  {
    (Ordinal(d) + 6) % 7
  }

  /** The English weekday names `strftime("%A")` yields, indexed by weekday. */
  function DayName(weekday: int): (name: string)
    requires 0 <= weekday < 7
    ensures |name| >= 6 && name[|name| - 3..] == "day"
    ensures name == "Saturday" || name == "Sunday" <==> weekday >= 5
  {
    ["Monday", "Tuesday", "Wednesday", "Thursday", "Friday", "Saturday", "Sunday"][weekday]
  }

  /** `d + timedelta(days=1)`, stated with calendar rollover. The lemma
      `OrdinalOfNextDay` shows it is the date whose ordinal is one more. */
  function NextDay(d: Date): (r: Date)
    requires 1 <= d.month <= 12
    ensures 1 <= r.month <= 12
  {
    if d.day < DaysInMonth(d.year, d.month) then Date(d.year, d.month, d.day + 1)
    else if d.month < 12 then Date(d.year, d.month + 1, 1)
    else Date(d.year + 1, 1, 1)
  }

  /** The date `n` days after `d`, one `NextDay` step at a time. */
  function Advance(d: Date, n: nat): (r: Date)
    requires 1 <= d.month <= 12
    ensures 1 <= r.month <= 12
    decreases n
  {
    if n == 0 then d else Advance(NextDay(d), n - 1)
  }

  /** Number of days from `a` up to, not including, `b`; zero when `b` is not later. */
  function DaysBetween(a: Date, b: Date): nat
    requires 1 <= a.month <= 12 && 1 <= b.month <= 12
  {
    if Ordinal(a) < Ordinal(b) then Ordinal(b) - Ordinal(a) else 0
  }

  // ---------------------------------------------------------------------
  // Lemmas about the ordinal numbering

  /** A year holds exactly `DaysInYear(year)` days of ordinals. */
  lemma {:induction false} DaysBeforeNextYear(year: int)
    ensures DaysBeforeYear(year + 1) == DaysBeforeYear(year) + DaysInYear(year)
  {
    var y := year - 1;
    QuotientStep4(y);
    QuotientStep100(y);
    QuotientStep400(y);
    LeapDayCount(year);
  }

  /** Inclusion-exclusion over the three divisibility rules. */
  lemma LeapDayCount(year: int)
    ensures DaysInYear(year) == 365 + (if year % 4 == 0 then 1 else 0)
                                    - (if year % 100 == 0 then 1 else 0)
                                    + (if year % 400 == 0 then 1 else 0)
  {
    if year % 400 == 0 {
      assert year % 100 == 0 by { assert year == 100 * (4 * (year / 400)); }
      assert year % 4 == 0 by { assert year == 4 * (100 * (year / 400)); }
    } else if year % 100 == 0 {
      assert year % 4 == 0 by { assert year == 4 * (25 * (year / 100)); }
    }
  }

  // Crossing a multiple of 4, 100 or 400 raises the quotient by one.

  lemma QuotientStep4(y: int)
    ensures (y + 1) / 4 == y / 4 + (if (y + 1) % 4 == 0 then 1 else 0)
  {
  }

  lemma QuotientStep100(y: int)
    ensures (y + 1) / 100 == y / 100 + (if (y + 1) % 100 == 0 then 1 else 0)
  {
  }

  lemma QuotientStep400(y: int)
    ensures (y + 1) / 400 == y / 400 + (if (y + 1) % 400 == 0 then 1 else 0)
  {
  }

  lemma {:induction false} DaysBeforeYearMonotone(a: int, b: int)
    requires a < b
    ensures DaysBeforeYear(a + 1) <= DaysBeforeYear(b)
    decreases b - a
  {
    if a + 1 < b {
      DaysBeforeYearMonotone(a, b - 1);
      DaysBeforeNextYear(b - 1);
    }
  }

  /** A month's days fill the gap between its start and the next month's. */
  lemma DaysBeforeFollowingMonth(year: int, month: int)
    requires 1 <= month <= 12
    ensures month < 12 ==> DaysBeforeMonth(year, month + 1) == DaysBeforeMonth(year, month) + DaysInMonth(year, month)
    ensures month == 12 ==> DaysBeforeMonth(year, month) + DaysInMonth(year, month) == DaysInYear(year)
  {
  }

  lemma {:induction false} DaysBeforeMonthMonotone(year: int, a: int, b: int)
    requires 1 <= a < b <= 12
    ensures DaysBeforeMonth(year, a) + DaysInMonth(year, a) <= DaysBeforeMonth(year, b)
    decreases b - a
  {
    DaysBeforeFollowingMonth(year, a);
    if a + 1 < b {
      DaysBeforeMonthMonotone(year, a + 1, b);
    }
  }

  /** The ordinal of a valid date lies inside its year's block of ordinals. */
  lemma OrdinalWithinYear(d: Date)
    requires ValidDate(d)
    ensures DaysBeforeYear(d.year) < Ordinal(d) <= DaysBeforeYear(d.year + 1)
  {
    DaysBeforeNextYear(d.year);
    if d.month < 12 {
      DaysBeforeMonthMonotone(d.year, d.month, 12);
    }
    DaysBeforeFollowingMonth(d.year, 12);
  }

  /** Stepping to the next day adds one to the ordinal, so `NextDay` is
      `fromordinal(toordinal() + 1)`. */
  lemma OrdinalOfNextDay(d: Date)
    requires ValidDate(d)
    ensures Ordinal(NextDay(d)) == Ordinal(d) + 1
  {
    DaysBeforeFollowingMonth(d.year, d.month);
    if d.day == DaysInMonth(d.year, d.month) && d.month == 12 {
      DaysBeforeNextYear(d.year);
    }
  }

  /** Comparing dates as tuples agrees with comparing their ordinals. */
  lemma BeforeIffOrdinalLess(a: Date, b: Date)
    requires ValidDate(a) && ValidDate(b)
    ensures Before(a, b) <==> Ordinal(a) < Ordinal(b)
  {
    if a.year < b.year {
      OrdinalWithinYear(a);
      OrdinalWithinYear(b);
      DaysBeforeYearMonotone(a.year, b.year);
    } else if b.year < a.year {
      OrdinalWithinYear(a);
      OrdinalWithinYear(b);
      DaysBeforeYearMonotone(b.year, a.year);
    } else if a.month < b.month {
      DaysBeforeMonthMonotone(a.year, a.month, b.month);
    } else if b.month < a.month {
      DaysBeforeMonthMonotone(a.year, b.month, a.month);
    }
  }

  /** Distinct valid dates have distinct ordinals. */
  lemma OrdinalInjective(a: Date, b: Date)
    requires ValidDate(a) && ValidDate(b)
    requires Ordinal(a) == Ordinal(b)
    ensures a == b
  {
    BeforeIffOrdinalLess(a, b);
    BeforeIffOrdinalLess(b, a);
  }

  /** The next day is later than `d` and no valid date lies strictly between. */
  lemma NextDayIsSuccessor(d: Date, e: Date)
    requires ValidDate(d) && ValidDate(NextDay(d)) && ValidDate(e)
    ensures Before(d, NextDay(d))
    ensures !(Before(d, e) && Before(e, NextDay(d)))
  {
    OrdinalOfNextDay(d);
    BeforeIffOrdinalLess(d, NextDay(d));
    BeforeIffOrdinalLess(d, e);
    BeforeIffOrdinalLess(e, NextDay(d));
  }

  /** While `d` is before a valid `end`, the next day is still a valid date
      and does not pass `end`. */
  lemma NextDayStaysInRange(d: Date, end: Date)
    requires ValidDate(d) && ValidDate(end) && Before(d, end)
    ensures ValidDate(NextDay(d))
    ensures Ordinal(NextDay(d)) <= Ordinal(end)
  {
    OrdinalOfNextDay(d);
    BeforeIffOrdinalLess(d, end);
  }

  /** Weekdays advance by one, cyclically, from one day to the next. */
  lemma WeekdayOfNextDay(d: Date)
    requires ValidDate(d)
    ensures Weekday(NextDay(d)) == (Weekday(d) + 1) % 7
  {
    OrdinalOfNextDay(d);
    var o := Ordinal(d);
    assert Weekday(NextDay(d)) == (o + 7) % 7;
    ModSevenStep(o + 6);
  }

  lemma ModSevenStep(x: int)
    ensures (x + 1) % 7 == (x % 7 + 1) % 7
  {
  }

  /** Inside a month, advancing `k` days only moves the day of the month. */
  lemma {:induction false} AdvanceWithinMonth(year: int, month: int, day: int, k: nat)
    requires 1 <= month <= 12 && 1 <= day && day + k <= DaysInMonth(year, month)
    ensures Advance(Date(year, month, day), k) == Date(year, month, day + k)
    decreases k
  {
    if k > 0 {
      assert NextDay(Date(year, month, day)) == Date(year, month, day + 1);
      AdvanceWithinMonth(year, month, day + 1, k - 1);
    }
  }

  /** From the first of a month to the first of the next month (January of
      the next year after December) is exactly the month's length. */
  lemma MonthSpan(year: int, month: int)
    requires 1 <= month <= 12
    ensures month < 12 ==> Ordinal(Date(year, month + 1, 1)) - Ordinal(Date(year, month, 1)) == DaysInMonth(year, month)
    ensures month == 12 ==> Ordinal(Date(year + 1, 1, 1)) - Ordinal(Date(year, 12, 1)) == DaysInMonth(year, 12)
  {
    DaysBeforeFollowingMonth(year, month);
    DaysBeforeNextYear(year);
  }

  /** One pass of a `while cur < end` day loop: the loop runs exactly while
      days remain, and each step leaves one day fewer, on a valid date. */
  lemma DayLoopStep(cur: Date, end: Date)
    requires ValidDate(cur) && ValidDate(end)
    ensures Before(cur, end) <==> DaysBetween(cur, end) > 0
    ensures Before(cur, end) ==> ValidDate(NextDay(cur)) && DaysBetween(NextDay(cur), end) == DaysBetween(cur, end) - 1
  {
    BeforeIffOrdinalLess(cur, end);
    if Before(cur, end) {
      NextDayStaysInRange(cur, end);
      OrdinalOfNextDay(cur);
    }
  }
}
