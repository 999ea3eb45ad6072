/** `generate_month`: the rows of one month, one per (date, hour), built by
    walking the dates from the first of the month up to the first of the
    next month and, for each date, the hours 0 to 23.

    The pseudo-random generator is modelled by its observable behaviour: a
    `DrawSource` says what the n-th draw after seeding with a given seed
    returns, and an `Rng` is the process-wide generator state (its seed and
    how many draws it has handed out since). The day and hour loops are
    written for any per-hour formula; `GenerateMonth` uses the program's,
    `Hourly.ComputeHour`. */
module Generator {
  import opened Results
  import opened Calendar
  import opened Hourly

  /** The fixed seed passed to `random.seed` at the start of every call. */
  const Seed: int := 0

  /** `src(s, n)`: the value of the n-th draw (from 0) after seeding with `s`.
      A `randint` or `uniform` draw is the value the call returns; a `gauss`
      draw is the standard normal variate the call scales. */
  type DrawSource = (int, nat) -> real

  /** What one hour computes from its weekend multiplier and its four draws
      (base, Gaussian variate, average-value base, noise). */
  type HourFormula = (real, real, real, real, real) -> HourValues

  datatype Rng = Rng(seed: int, pos: nat)

  datatype HourlyRecord = HourlyRecord(
    date: Date,
    dayName: string,
    hour: int,
    transactions: int,
    totalCents: int)

  /** The rows produced and the generator state left behind. */
  datatype Generated = Generated(rows: seq<HourlyRecord>, rng: Rng)

  /** `random.seed(seed)`: the draws start again from the first one of `seed`. */
  function Reseed(seed: int): Rng {
    Rng(seed, 0)
  }

  /** Hand out the next draw and advance the generator. */
  function Draw(src: DrawSource, rng: Rng): (real, Rng) {
    (src(rng.seed, rng.pos), Rng(rng.seed, rng.pos + 1))
  }

  /** What the day loop derives from a date before its hour loop: the day
      name and the weekend multiplier. */
  datatype DayLabel = DayLabel(name: string, multiplier: real)

  type Labeller = Date -> DayLabel

  /** The program's labels: `strftime("%A")` and 1.1 on Saturday and Sunday,
      1.0 otherwise. Only dates with a month from 1 to 12 have a weekday;
      no other date reaches the loop. */
  function DateLabel(d: Date): (l: DayLabel)
    ensures l.multiplier == WeekdayFactor || l.multiplier == WeekendFactor
    ensures 1 <= d.month <= 12 ==>
              (l.multiplier == WeekendFactor <==> l.name == "Saturday" || l.name == "Sunday")
  {
    if 1 <= d.month <= 12 then
      var weekday := Weekday(d);
      DayLabel(DayName(weekday), WeekendMultiplier(weekday))
    else DayLabel("", WeekdayFactor)
  }

  /** The record of one hour whose four draws are at stream positions
      `pos` to `pos + 3`. */
  function HourRecord(src: DrawSource, formula: HourFormula, seed: int, pos: nat,
                      date: Date, dayLabel: DayLabel, hour: int): HourlyRecord
  {
    var v := formula(dayLabel.multiplier, src(seed, pos), src(seed, pos + 1), src(seed, pos + 2), src(seed, pos + 3));
    HourlyRecord(date, dayLabel.name, hour, v.transactions, v.totalCents)
  }

  /** One pass of the hour loop: draw the base, then the Gaussian variate,
      then the average-value base, then the noise. */
  function HourStep(src: DrawSource, formula: HourFormula, rng: Rng,
                    date: Date, dayLabel: DayLabel, hour: int): (r: (HourlyRecord, Rng))
    ensures r.1 == Rng(rng.seed, rng.pos + 4)
    ensures r.0 == HourRecord(src, formula, rng.seed, rng.pos, date, dayLabel, hour)
  {
    var (base, r1) := Draw(src, rng);
    var (z, r2) := Draw(src, r1);
    var (avgBase, r3) := Draw(src, r2);
    var (noise, r4) := Draw(src, r3);
    var v := formula(dayLabel.multiplier, base, z, avgBase, noise);
    (HourlyRecord(date, dayLabel.name, hour, v.transactions, v.totalCents), r4)
  }

  /** The hour loop `for hour in range(24)`, from `hour` on. */
  function HoursFrom(src: DrawSource, formula: HourFormula, rng: Rng,
                     date: Date, dayLabel: DayLabel, hour: int): (g: Generated)
    requires 0 <= hour <= 24
    ensures |g.rows| == 24 - hour
    ensures g.rng == Rng(rng.seed, rng.pos + 4 * (24 - hour))
    decreases 24 - hour
  {
    if hour == 24 then Generated([], rng)
    else
      var step := HourStep(src, formula, rng, date, dayLabel, hour);
      var rest := HoursFrom(src, formula, step.1, date, dayLabel, hour + 1);
      Generated([step.0] + rest.rows, rest.rng)
  }

  /** The hour loop's rows are the hours from `hour` on, in order, each
      drawing the four values that follow the previous hour's. */
  lemma {:induction false} HoursFromRows(src: DrawSource, formula: HourFormula, rng: Rng,
                                         date: Date, dayLabel: DayLabel, hour: int)
    requires 0 <= hour <= 24
    ensures HourRowsAt(src, formula, rng.seed, rng.pos, date, dayLabel, hour,
                       HoursFrom(src, formula, rng, date, dayLabel, hour).rows)
    decreases 24 - hour
  {
    if hour < 24 {
      var next := Rng(rng.seed, rng.pos + 4);
      var rest := HoursFrom(src, formula, next, date, dayLabel, hour + 1).rows;
      HoursFromRows(src, formula, next, date, dayLabel, hour + 1);
      HourRowsCons(src, formula, rng.seed, rng.pos, date, dayLabel, hour,
                   HourRecord(src, formula, rng.seed, rng.pos, date, dayLabel, hour), rest);
      HoursFromStep(src, formula, rng, date, dayLabel, hour);
    }
  }

  /** One turn of the hour loop: this hour's record, then the later hours
      from the generator state four draws on. */
  lemma HoursFromStep(src: DrawSource, formula: HourFormula, rng: Rng,
                      date: Date, dayLabel: DayLabel, hour: int)
    requires 0 <= hour < 24
    ensures HoursFrom(src, formula, rng, date, dayLabel, hour).rows
            == [HourRecord(src, formula, rng.seed, rng.pos, date, dayLabel, hour)]
               + HoursFrom(src, formula, Rng(rng.seed, rng.pos + 4), date, dayLabel, hour + 1).rows
  {
  }

  /** Row `i` of `rows` is hour `hour + i` of `date`, drawing from stream
      position `pos + 4 * i`. */
  ghost predicate HourRowsAt(src: DrawSource, formula: HourFormula, seed: int, pos: nat,
                             date: Date, dayLabel: DayLabel, hour: int, rows: seq<HourlyRecord>)
  {
    forall i :: 0 <= i < |rows| ==>
      rows[i] == HourRecord(src, formula, seed, pos + 4 * i, date, dayLabel, hour + i)
  }

  lemma HourRowsCons(src: DrawSource, formula: HourFormula, seed: int, pos: nat,
                     date: Date, dayLabel: DayLabel, hour: int,
                     record: HourlyRecord, rest: seq<HourlyRecord>)
    requires record == HourRecord(src, formula, seed, pos, date, dayLabel, hour)
    requires HourRowsAt(src, formula, seed, pos + 4, date, dayLabel, hour + 1, rest)
    ensures HourRowsAt(src, formula, seed, pos, date, dayLabel, hour, [record] + rest)
  {
    var rows := [record] + rest;
    forall i | 1 <= i < |rows|
      ensures rows[i] == HourRecord(src, formula, seed, pos + 4 * i, date, dayLabel, hour + i)
    {
      var p, h := pos + 4 + 4 * (i - 1), hour + 1 + (i - 1);
      assert rows[i] == rest[i - 1] == HourRecord(src, formula, seed, p, date, dayLabel, h);
      assert p == pos + 4 * i && h == hour + i;
    }
  }

  /** The body of the day loop: the labels of `date`, computed once per
      day, then its 24 hours. */
  function DayRecords(src: DrawSource, formula: HourFormula, labels: Labeller, rng: Rng, date: Date): (g: Generated)
    ensures |g.rows| == 24
    ensures g.rng == Rng(rng.seed, rng.pos + 4 * 24)
    ensures HourRowsAt(src, formula, rng.seed, rng.pos, date, labels(date), 0, g.rows)
  {
    HoursFromRows(src, formula, rng, date, labels(date), 0);
    HoursFrom(src, formula, rng, date, labels(date), 0)
  }

  /** `rows` are whole days of records from hour 0 of `start` on, drawing
      from stream position `pos` on: the first 24 are the records of `start`,
      the rest are whole days from the next day on, 96 draws later. */
  ghost predicate DayByDay(src: DrawSource, formula: HourFormula, labels: Labeller, seed: int, pos: nat,
                           start: Date, rows: seq<HourlyRecord>)
    requires 1 <= start.month <= 12
    decreases |rows|
  {
    if |rows| == 0 then true
    else
      && |rows| >= 24
      && HourRowsAt(src, formula, seed, pos, start, labels(start), 0, rows[..24])
      && DayByDay(src, formula, labels, seed, pos + 96, NextDay(start), rows[24..])
  }

  /** Row `i` of whole days from `start` is hour `i % 24` of the date `d`
      that lies `i / 24` days after `start`, labelled as `d`, drawing from
      stream position `pos + 4 * i`. */
  lemma {:induction false} DayByDayRow(src: DrawSource, formula: HourFormula, labels: Labeller, seed: int, pos: nat,
                                       start: Date, rows: seq<HourlyRecord>, i: nat)
    requires 1 <= start.month <= 12
    requires DayByDay(src, formula, labels, seed, pos, start, rows) && i < |rows|
    ensures var d := Advance(start, i / 24);
            rows[i] == HourRecord(src, formula, seed, pos + 4 * i, d, labels(d), i % 24)
    decreases i
  {
    if i < 24 {
      SameDayIndex(i);
      assert rows[i] == rows[..24][i];
    } else {
      var j := i - 24;
      DayByDayRow(src, formula, labels, seed, pos + 96, NextDay(start), rows[24..], j);
      NextDayIndex(j);
      assert rows[i] == rows[24..][j];
      assert Advance(start, i / 24) == Advance(NextDay(start), j / 24);
      assert pos + 96 + 4 * j == pos + 4 * i;
    }
  }

  lemma SameDayIndex(i: nat)
    requires i < 24
    ensures i / 24 == 0 && i % 24 == i
  {
  }

  /** Row `j + 24` is the same hour of the following day as row `j`. */
  lemma NextDayIndex(j: nat)
    ensures (j + 24) / 24 == j / 24 + 1 && (j + 24) % 24 == j % 24
  {
  }

  /** The day loop `while cur < end`, stepping one day at a time. */
  function WalkDays(src: DrawSource, formula: HourFormula, labels: Labeller, rng: Rng, cur: Date, end: Date): (g: Generated)
    requires ValidDate(cur) && ValidDate(end)
    ensures |g.rows| == 24 * DaysBetween(cur, end)
    ensures g.rng == Rng(rng.seed, rng.pos + 4 * |g.rows|)
    decreases DaysBetween(cur, end)
  {
    DayLoopStep(cur, end);
    if !Before(cur, end) then Generated([], rng)
    else
      var day := DayRecords(src, formula, labels, rng, cur);
      var rest := WalkDays(src, formula, labels, day.rng, NextDay(cur), end);
      Generated(day.rows + rest.rows, rest.rng)
  }

  /** The day loop's rows are whole days from `cur` on, each with the
      labels of its date, drawing four values per hour from `rng` on. */
  lemma {:induction false} WalkDaysByDay(src: DrawSource, formula: HourFormula, labels: Labeller, rng: Rng, cur: Date, end: Date)
    requires ValidDate(cur) && ValidDate(end)
    ensures DayByDay(src, formula, labels, rng.seed, rng.pos, cur, WalkDays(src, formula, labels, rng, cur, end).rows)
    decreases DaysBetween(cur, end)
  {
    DayLoopStep(cur, end);
    if Before(cur, end) {
      var day := DayRecords(src, formula, labels, rng, cur);
      WalkDaysByDay(src, formula, labels, day.rng, NextDay(cur), end);
      var rest := WalkDays(src, formula, labels, day.rng, NextDay(cur), end);
      var rows := WalkDays(src, formula, labels, rng, cur, end).rows;
      assert rows == day.rows + rest.rows;
      assert rows[..24] == day.rows && rows[24..] == rest.rows;
    }
  }

  /** A (year, month) `generate_month` accepts: the first of the month and
      the first of the following month are both dates. */
  predicate Generatable(year: int, month: int) {
    && MinYear <= year <= MaxYear
    && 1 <= month <= 12
    && !(year == MaxYear && month == 12)
  }

  /** The first of the month and the first of the following month (January
      of the next year after December), or the error `datetime.date` raises. */
  function MonthBounds(year: int, month: int): (r: Result<(Date, Date), DateError>)
    ensures r.Ok? <==> Generatable(year, month)
    ensures r.Ok? ==> r.value.0 == Date(year, month, 1)
    ensures r.Ok? && month < 12 ==> r.value.1 == Date(year, month + 1, 1)
    ensures r.Ok? && month == 12 ==> r.value.1 == Date(year + 1, 1, 1)
    ensures !(MinYear <= year <= MaxYear) ==> r == Err(YearOutOfRange(year))
    ensures MinYear <= year <= MaxYear && !(1 <= month <= 12) ==> r == Err(MonthOutOfRange(month))
    ensures year == MaxYear && month == 12 ==> r == Err(YearOutOfRange(MaxYear + 1))
  {
    var start :- MakeDate(year, month, 1);
    var end :- if month == 12 then MakeDate(year + 1, 1, 1) else MakeDate(year, month + 1, 1);
    Ok((start, end))
  }

  /** `generate_month(year, month)` up to writing the file: the rows it
      writes and the generator state it leaves behind. */
  function GenerateMonth(year: int, month: int, src: DrawSource, rng: Rng): (r: Result<Generated, DateError>)
    ensures r.Ok? <==> Generatable(year, month)
    ensures r.Err? ==> r.error == MonthBounds(year, month).error
    ensures r.Ok? ==> |r.value.rows| == 24 * DaysInMonth(year, month)
  {
    var bounds :- MonthBounds(year, month);
    MonthSpan(year, month);
    Ok(WalkDays(src, ComputeHour, DateLabel, Reseed(Seed), bounds.0, bounds.1))
  }
}
