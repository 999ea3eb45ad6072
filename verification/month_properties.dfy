/** What `generate_month` promises about the rows it writes: exactly 24
    rows for every date of the month, in (date, hour) order, each labelled
    with its date's English weekday name, with amounts that are never
    negative, and a result that depends only on (year, month) and the
    draws after the fixed reseed. */
module MonthProperties {
  import opened Results
  import opened Calendar
  import opened Hourly
  import opened Generator
  import opened Formatting

  /** Reference definition of row `i` of a month, for any hour formula
      and day labels: hour `i % 24` of day `i / 24 + 1`, labelled as that
      date, computed from the draws at stream positions `4 * i` to
      `4 * i + 3` after seeding with `seed`. */
  function ExpectedRecordWith(src: DrawSource, formula: HourFormula, labels: Labeller, seed: int,
                              year: int, month: int, i: nat): HourlyRecord {
    var d := Date(year, month, i / 24 + 1);
    HourRecord(src, formula, seed, 4 * i, d, labels(d), i % 24)
  }

  /** The reference row with the program's hour formula, day labels and seed. */
  function ExpectedRecord(src: DrawSource, year: int, month: int, i: nat): HourlyRecord {
    ExpectedRecordWith(src, ComputeHour, DateLabel, Seed, year, month, i)
  }

  /** The date after the last day of the month: the first of the next one. */
  function MonthEnd(year: int, month: int): Date {
    if month == 12 then Date(year + 1, 1, 1) else Date(year, month + 1, 1)
  }

  /** The rows of an accepted month, as a total function of its arguments. */
  function MonthRowsOf(year: int, month: int, src: DrawSource, rng: Rng): (rows: seq<HourlyRecord>)
    requires Generatable(year, month)
    ensures |rows| == 24 * DaysInMonth(year, month)
  {
    GenerateMonth(year, month, src, rng).value.rows
  }

  /** Row `i` of a month lies on day `i / 24 + 1`, inside the month. */
  lemma RowDay(i: nat, days: nat)
    requires i < 24 * days
    ensures i / 24 < days
  {
  }

  /** Walking a month from its first day up to the first of the next month
      gives 24 rows per day of the month, four draws per row. */
  lemma MonthWalkLength(src: DrawSource, formula: HourFormula, labels: Labeller, seed: int, year: int, month: int)
    requires Generatable(year, month)
    ensures ValidDate(Date(year, month, 1)) && ValidDate(MonthEnd(year, month))
    ensures var g := WalkDays(src, formula, labels, Rng(seed, 0), Date(year, month, 1), MonthEnd(year, month));
            && |g.rows| == 24 * DaysInMonth(year, month)
            && g.rng == Rng(seed, 4 * |g.rows|)
  {
    MonthSpan(year, month);
  }

  /** Walking a month from its first day, for any hour formula and day
      labels, gives exactly the reference rows. */
  lemma MonthWalkRows(src: DrawSource, formula: HourFormula, labels: Labeller, seed: int, year: int, month: int)
    requires Generatable(year, month)
    ensures ValidDate(Date(year, month, 1)) && ValidDate(MonthEnd(year, month))
    ensures var g := WalkDays(src, formula, labels, Rng(seed, 0), Date(year, month, 1), MonthEnd(year, month));
            forall i :: 0 <= i < |g.rows| ==> g.rows[i] == ExpectedRecordWith(src, formula, labels, seed, year, month, i)
  {
    MonthWalkLength(src, formula, labels, seed, year, month);
    var start, end := Date(year, month, 1), MonthEnd(year, month);
    var g := WalkDays(src, formula, labels, Rng(seed, 0), start, end);
    WalkDaysByDay(src, formula, labels, Rng(seed, 0), start, end);
    MonthRowsFromDays(src, formula, labels, seed, year, month, g.rows);
  }

  lemma MonthRowsFromDays(src: DrawSource, formula: HourFormula, labels: Labeller, seed: int, year: int, month: int,
                          rows: seq<HourlyRecord>)
    requires 1 <= month <= 12
    requires DayByDay(src, formula, labels, seed, 0, Date(year, month, 1), rows)
    requires |rows| == 24 * DaysInMonth(year, month)
    ensures forall i :: 0 <= i < |rows| ==> rows[i] == ExpectedRecordWith(src, formula, labels, seed, year, month, i)
  {
    forall i | 0 <= i < |rows|
      ensures rows[i] == ExpectedRecordWith(src, formula, labels, seed, year, month, i)
    {
      MonthRowAt(src, formula, labels, seed, year, month, rows, i);
    }
  }

  lemma MonthRowAt(src: DrawSource, formula: HourFormula, labels: Labeller, seed: int, year: int, month: int,
                   rows: seq<HourlyRecord>, i: nat)
    requires 1 <= month <= 12
    requires DayByDay(src, formula, labels, seed, 0, Date(year, month, 1), rows)
    requires i < |rows| == 24 * DaysInMonth(year, month)
    ensures rows[i] == ExpectedRecordWith(src, formula, labels, seed, year, month, i)
  {
    var start := Date(year, month, 1);
    var k := i / 24;
    DayByDayRow(src, formula, labels, seed, 0, start, rows, i);
    RowDay(i, DaysInMonth(year, month));
    AdvanceWithinMonth(year, month, 1, k);
    assert Advance(start, k) == Date(year, month, k + 1);
  }

  /** The rows of an accepted month are exactly the reference rows, one per
      hour of every day, and the generator is left 4 draws per row past
      the reseed. */
  lemma MonthRows(year: int, month: int, src: DrawSource, rng: Rng)
    requires Generatable(year, month)
    ensures GenerateMonth(year, month, src, rng).Ok?
    ensures var g := GenerateMonth(year, month, src, rng).value;
            && |g.rows| == 24 * DaysInMonth(year, month)
            && g.rng == Rng(Seed, 4 * |g.rows|)
            && forall i :: 0 <= i < |g.rows| ==> g.rows[i] == ExpectedRecord(src, year, month, i)
  {
    MonthWalkLength(src, ComputeHour, DateLabel, Seed, year, month);
    MonthWalkRows(src, ComputeHour, DateLabel, Seed, year, month);
    assert GenerateMonth(year, month, src, rng)
        == Ok(WalkDays(src, ComputeHour, DateLabel, Rng(Seed, 0), Date(year, month, 1), MonthEnd(year, month)));
  }

  /** Row `i` of an accepted month is the reference row `i`. */
  lemma MonthRow(year: int, month: int, src: DrawSource, rng: Rng, i: nat)
    requires Generatable(year, month)
    requires i < 24 * DaysInMonth(year, month)
    ensures GenerateMonth(year, month, src, rng).Ok?
    ensures var rows := MonthRowsOf(year, month, src, rng);
            && |rows| == 24 * DaysInMonth(year, month)
            && rows[i] == ExpectedRecord(src, year, month, i)
  {
    MonthRows(year, month, src, rng);
  }

  /** Every row lies in the requested month, on a valid date, with its hour
      from 0 to 23; row `i` is hour `i % 24` of day `i / 24 + 1`. */
  lemma RowsWithinMonth(year: int, month: int, src: DrawSource, rng: Rng, i: nat)
    requires Generatable(year, month)
    requires i < 24 * DaysInMonth(year, month)
    ensures var row := MonthRowsOf(year, month, src, rng)[i];
            && ValidDate(row.date)
            && row.date == Date(year, month, i / 24 + 1)
            && row.hour == i % 24
            && 0 <= row.hour < 24
  {
    MonthRow(year, month, src, rng, i);
    RowDay(i, DaysInMonth(year, month));
  }

  /** The first row is hour 0 of the 1st, labelled with that date's
      weekday name. */
  lemma MonthFirstRow(year: int, month: int, src: DrawSource, rng: Rng)
    requires Generatable(year, month)
    ensures var rows := MonthRowsOf(year, month, src, rng);
            var first := Date(year, month, 1);
            && |rows| == 24 * DaysInMonth(year, month)
            && rows[0].date == first && rows[0].hour == 0
            && rows[0].dayName == DayName(Weekday(first))
  {
    MonthRow(year, month, src, rng, 0);
    RowsWithinMonth(year, month, src, rng, 0);
    RowDayNames(year, month, src, rng, 0);
  }

  /** The last row is hour 23 of the month's last day, labelled with that
      date's weekday name. */
  lemma MonthLastRow(year: int, month: int, src: DrawSource, rng: Rng)
    requires Generatable(year, month)
    ensures var rows := MonthRowsOf(year, month, src, rng);
            var last := Date(year, month, DaysInMonth(year, month));
            && |rows| == 24 * DaysInMonth(year, month)
            && rows[|rows| - 1].date == last && rows[|rows| - 1].hour == 23
            && rows[|rows| - 1].dayName == DayName(Weekday(last))
  {
    var days := DaysInMonth(year, month);
    RowOfEveryHour(year, month, src, rng, days, 23);
    assert 24 * (days - 1) + 23 == 24 * days - 1;
  }

  /** The last row of `days` whole days is hour 23 of the last day. */
  lemma LastRowIndex(days: nat)
    requires days >= 1
    ensures (24 * days - 1) / 24 == days - 1 && (24 * days - 1) % 24 == 23
  {
  }

  /** Every (day, hour) of the month has its row, at index
      `24 * (day - 1) + hour`: the walk leaves no gap. */
  lemma RowOfEveryHour(year: int, month: int, src: DrawSource, rng: Rng, day: int, hour: int)
    requires Generatable(year, month)
    requires 1 <= day <= DaysInMonth(year, month) && 0 <= hour < 24
    ensures var rows := MonthRowsOf(year, month, src, rng);
            var i := 24 * (day - 1) + hour;
            && i < |rows|
            && rows[i].date == Date(year, month, day)
            && rows[i].hour == hour
            && rows[i].dayName == DayName(Weekday(Date(year, month, day)))
  {
    var i := 24 * (day - 1) + hour;
    assert i / 24 == day - 1 && i % 24 == hour;
    RowsWithinMonth(year, month, src, rng, i);
    RowDayNames(year, month, src, rng, i);
  }

  /** `a` comes strictly before `b` in (date, hour) order. */
  predicate RowBefore(a: HourlyRecord, b: HourlyRecord) {
    Before(a.date, b.date) || (a.date == b.date && a.hour < b.hour)
  }

  lemma IndexOrder(i: nat, j: nat)
    requires i < j
    ensures i / 24 < j / 24 || (i / 24 == j / 24 && i % 24 < j % 24)
  {
  }

  /** The rows are strictly increasing in (date, hour), so no (date, hour)
      occurs twice. */
  lemma RowsStrictlyIncreasing(year: int, month: int, src: DrawSource, rng: Rng, i: nat, j: nat)
    requires Generatable(year, month)
    requires i < j < 24 * DaysInMonth(year, month)
    ensures RowBefore(MonthRowsOf(year, month, src, rng)[i], MonthRowsOf(year, month, src, rng)[j])
  {
    RowsWithinMonth(year, month, src, rng, i);
    RowsWithinMonth(year, month, src, rng, j);
    IndexOrder(i, j);
  }

  /** Every row carries the English name of its date's weekday, and the
      weekend multiplier its values were computed with is that weekday's. */
  lemma RowDayNames(year: int, month: int, src: DrawSource, rng: Rng, i: nat)
    requires Generatable(year, month)
    requires i < 24 * DaysInMonth(year, month)
    ensures var row := MonthRowsOf(year, month, src, rng)[i];
            var d := Date(year, month, i / 24 + 1);
            var weekday := Weekday(d);
            var v := ComputeHour(WeekendMultiplier(weekday), src(Seed, 4 * i), src(Seed, 4 * i + 1),
                                 src(Seed, 4 * i + 2), src(Seed, 4 * i + 3));
            && row.date == d
            && row.dayName == DayName(weekday)
            && row.transactions == v.transactions
            && row.totalCents == v.totalCents
  {
    MonthRow(year, month, src, rng, i);
    var d := Date(year, month, i / 24 + 1);
    assert DateLabel(d) == DayLabel(DayName(Weekday(d)), WeekendMultiplier(Weekday(d)));
  }

  /** Every row can be written out, and its written fields read back to its
      date, its hour `i % 24`, its count and its amount in cents. */
  lemma MonthRowFields(year: int, month: int, src: DrawSource, rng: Rng, i: nat)
    requires Generatable(year, month)
    requires i < 24 * DaysInMonth(year, month)
    ensures var row := MonthRowsOf(year, month, src, rng)[i];
            && ValidDate(row.date) && row.hour >= 0 && row.transactions >= 0
            && row.date == Date(year, month, i / 24 + 1)
            && var fields := RowFields(row);
               && fields[0] == IsoDate(row.date)
               && ParseIsoDate(fields[0]) == Some(row.date)
               && fields[1] == row.dayName
               && ParseNat(fields[2]) == Some(i % 24)
               && ParseNat(fields[3]) == Some(row.transactions)
               && ParseAmount(fields[4]) == Some(row.totalCents)
  {
    RowsWithinMonth(year, month, src, rng, i);
    RowDayNames(year, month, src, rng, i);
    RowFieldsRoundTrip(MonthRowsOf(year, month, src, rng)[i]);
  }

  /** The ranges of the four draws of hour `k`: `randint(1000, 10000)`, any
      Gaussian variate, `randint(1000, 1000000)` and `uniform(-0.1, 0.1)`. */
  ghost predicate HourDrawsInRange(src: DrawSource, seed: int, k: nat) {
    && BaseDrawInRange(src(seed, 4 * k))
    && AvgBaseDrawInRange(src(seed, 4 * k + 2))
    && NoiseDrawInRange(src(seed, 4 * k + 3))
  }

  ghost predicate DrawsInRange(src: DrawSource, seed: int) {
    forall k: nat :: HourDrawsInRange(src, seed, k)
  }

  /** With every draw in its range, no row has a negative count or amount,
      an amount is zero exactly when the count is, and each transaction
      contributes at least 900.00. */
  lemma RowAmountsNonNegative(year: int, month: int, src: DrawSource, rng: Rng, i: nat)
    requires Generatable(year, month) && DrawsInRange(src, Seed)
    requires i < 24 * DaysInMonth(year, month)
    ensures var row := MonthRowsOf(year, month, src, rng)[i];
            && row.transactions >= 0
            && row.totalCents >= 0
            && (row.totalCents == 0 <==> row.transactions == 0)
            && row.totalCents >= 90000 * row.transactions
  {
    RowDayNames(year, month, src, rng, i);
    assert HourDrawsInRange(src, Seed, i);
    var weekday := Weekday(Date(year, month, i / 24 + 1));
    HourValuesSign(WeekendMultiplier(weekday), src(Seed, 4 * i), src(Seed, 4 * i + 1),
                   src(Seed, 4 * i + 2), src(Seed, 4 * i + 3));
  }

  /** Two draw sources that agree on the draws a month consumes after the
      reseed give the same result, whatever state the generator was in
      before the call: the output is a function of (year, month) and those
      draws alone, and repeated calls agree. */
  lemma SameDrawsSameMonth(year: int, month: int, src1: DrawSource, src2: DrawSource, rng1: Rng, rng2: Rng)
    requires Generatable(year, month)
    requires forall p: nat :: p < 96 * DaysInMonth(year, month) ==> src1(Seed, p) == src2(Seed, p)
    ensures GenerateMonth(year, month, src1, rng1) == GenerateMonth(year, month, src2, rng2)
  {
    MonthRows(year, month, src1, rng1);
    MonthRows(year, month, src2, rng2);
    var g1 := GenerateMonth(year, month, src1, rng1).value;
    var g2 := GenerateMonth(year, month, src2, rng2).value;
    forall i | 0 <= i < |g1.rows|
      ensures g1.rows[i] == g2.rows[i]
    {
      assert 4 * i + 3 < 96 * DaysInMonth(year, month);
      assert src1(Seed, 4 * i) == src2(Seed, 4 * i);
      assert src1(Seed, 4 * i + 1) == src2(Seed, 4 * i + 1);
      assert src1(Seed, 4 * i + 2) == src2(Seed, 4 * i + 2);
      assert src1(Seed, 4 * i + 3) == src2(Seed, 4 * i + 3);
    }
    assert g1.rows == g2.rows;
  }

  /** January 2024, the month the script writes: 744 rows, from Monday
      2024-01-01 hour 0 to Wednesday 2024-01-31 hour 23. */
  lemma January2024(src: DrawSource, rng: Rng)
    ensures Generatable(2024, 1)
    ensures var rows := MonthRowsOf(2024, 1, src, rng);
            && |rows| == 744
            && rows[0].date == Date(2024, 1, 1) && rows[0].dayName == "Monday" && rows[0].hour == 0
            && rows[743].date == Date(2024, 1, 31) && rows[743].dayName == "Wednesday" && rows[743].hour == 23
  {
    assert Generatable(2024, 1);
    MonthFirstRow(2024, 1, src, rng);
    MonthLastRow(2024, 1, src, rng);
    January2024Weekdays();
  }

  /** 1 January 2024 is a Monday and 31 January 2024 a Wednesday. */
  lemma January2024Weekdays()
    ensures DayName(Weekday(Date(2024, 1, 1))) == "Monday"
    ensures DayName(Weekday(Date(2024, 1, 31))) == "Wednesday"
  {
    assert DaysBeforeYear(2024) == 738885;
    assert Weekday(Date(2024, 1, 1)) == 0;
    assert Weekday(Date(2024, 1, 31)) == 2;
  }

  /** February has 28 days in 2023 ... */
  lemma February2023(src: DrawSource, rng: Rng)
    ensures Generatable(2023, 2) && |MonthRowsOf(2023, 2, src, rng)| == 672
  {
    assert Generatable(2023, 2);
    assert DaysInMonth(2023, 2) == 28;
    MonthRows(2023, 2, src, rng);
  }

  /** ... and 29 in the leap year 2024. */
  lemma February2024(src: DrawSource, rng: Rng)
    ensures Generatable(2024, 2) && |MonthRowsOf(2024, 2, src, rng)| == 696
  {
    assert Generatable(2024, 2);
    assert DaysInMonth(2024, 2) == 29;
    MonthRows(2024, 2, src, rng);
  }

  /** A month outside 1..12 and December of the last supported year are
      refused with the error `datetime.date` raises. */
  lemma RefusedMonths(src: DrawSource, rng: Rng)
    ensures GenerateMonth(2024, 13, src, rng) == Err(MonthOutOfRange(13))
    ensures GenerateMonth(2024, 0, src, rng) == Err(MonthOutOfRange(0))
    ensures GenerateMonth(0, 1, src, rng) == Err(YearOutOfRange(0))
    ensures GenerateMonth(MaxYear, 12, src, rng) == Err(YearOutOfRange(MaxYear + 1))
    ensures GenerateMonth(MaxYear, 11, src, rng).Ok?
  {
  }
}
