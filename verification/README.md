# Hourly transaction month generator — a Dafny model

`scripts/generate_month.py` writes one synthetic row per hour of a calendar
month: the date, its English day name, the hour, a transaction count and a
total amount. `generate_month(year, month)` builds the half-open range from
the 1st of the month to the 1st of the next month (January of `year + 1`
after December), reseeds the process-wide generator with 0, and for every
date in the range, in order, and every hour 0..23 draws four values — a
base count, a Gaussian variate, an average-value base and a noise factor —
from which it computes the hour's count (`int(max(0, round(gauss(base *
weekend, base * 0.25))))`) and total (`round(count * avg, 2)`), with a
weekend multiplier of 1.1 on Saturday and Sunday.

The model is split into six modules:

- `Results` (`results.dfy`): a failure-compatible `Result` and an `Option`.
- `Calendar` (`calendar.dfy`): Python's `datetime.date` — which triples are
  dates and which error the constructor raises (year first, then month,
  then day), `toordinal()`, `weekday()`, tuple comparison, the English
  `%A` names and the step `+ timedelta(days=1)`.
- `Hourly` (`hourly.dfy`): the per-hour arithmetic on exact reals —
  round-half-to-even, the clamp at zero, `gauss` as `mu + z * sigma`, the
  average value and the total in whole cents.
- `Generator` (`generator.dfy`): the generator state, the hour loop, the
  day loop and `GenerateMonth`. The loops are written for any per-hour
  formula and any day labelling; `GenerateMonth` instantiates them with the
  program's.
- `Formatting` (`formatting.dfy`): the text of a row — `isoformat()`,
  `str(n)` and the two-decimal amount — each with a parser and a
  round-trip lemma.
- `MonthProperties` (`month_properties.dfy`): what the output of a month
  is, stated against an independent reference definition of row `i`
  (hour `i % 24` of day `i / 24 + 1`, drawing at stream positions `4 * i`
  to `4 * i + 3`), and the concrete months January 2024 and February
  2023/2024.

The random generator is a parameter: a `DrawSource` maps (seed, n) to the
value of the n-th draw after seeding, and `Rng(seed, pos)` is the
process-wide state. The output is therefore a function of (year, month)
and the draws after the reseed, which `SameDrawsSameMonth` states.

## Model

| member | source | states |
|---|---|---|
| Calendar.MakeDate | scripts/generate_month.py:31-36 | `datetime.date(y, m, d)` succeeds exactly for valid dates and returns that date; otherwise the year is reported first, then the month |
| Calendar.DaysInMonth | scripts/generate_month.py:32-36 | a month has 28 to 31 days, and 29 exactly for February of a leap year |
| Calendar.MonthSpan | scripts/generate_month.py:32-36 | from the 1st of the month to the 1st of the next month (January of the next year after December) is exactly the month's length in days |
| Calendar.OrdinalOfNextDay | scripts/generate_month.py:61 | adding one day by calendar rollover raises the ordinal by exactly one, as `timedelta(days=1)` does |
| Calendar.AdvanceWithinMonth | scripts/generate_month.py:61 | inside a month, stepping `k` days only raises the day of the month by `k` |
| Calendar.BeforeIffOrdinalLess | scripts/generate_month.py:42 | comparing dates as (year, month, day) tuples agrees with comparing ordinals, both directions |
| Calendar.OrdinalInjective | scripts/generate_month.py:44 | distinct valid dates have distinct ordinals, so the weekday is a function of a well-defined day number |
| Calendar.NextDayIsSuccessor | scripts/generate_month.py:61 | the next day is later than the date and no valid date lies strictly between them |
| Calendar.NextDayStaysInRange | scripts/generate_month.py:42 | while the loop guard `cur < end` holds, the next day is a valid date not past `end` |
| Calendar.DayLoopStep | scripts/generate_month.py:42 | the day loop runs exactly while days remain, and each step leaves one day fewer |
| Calendar.Weekday | scripts/generate_month.py:44 | `weekday()` is a number from 0 to 6; its value is pinned down by `Calendar.WeekdayOfNextDay` (one more, modulo 7, each day) together with the anchor 2024-01-01 = Monday in `MonthProperties.January2024Weekdays` |
| Calendar.DayName | scripts/generate_month.py:43 | `strftime("%A")` is an English name ending in "day", and it is Saturday or Sunday exactly for weekdays 5 and 6 |
| Calendar.NextDay | scripts/generate_month.py:61 | `cur + timedelta(days=1)` keeps a month from 1 to 12; that it is the following date is carried by `Calendar.OrdinalOfNextDay` and `Calendar.NextDayIsSuccessor` |
| Calendar.WeekdayOfNextDay | scripts/generate_month.py:44 | weekdays advance by one, modulo 7, from each day to the next |
| Hourly.RoundHalfEven | scripts/generate_month.py:50 | `round(x)` is within 0.5 of `x`, and an exact tie goes to the even neighbour |
| Hourly.RoundHalfEvenUnique | scripts/generate_month.py:50 | those two properties determine the rounded value uniquely |
| Hourly.RoundHalfEvenMonotone | scripts/generate_month.py:50 | rounding never reverses the order of two values |
| Hourly.WeekendMultiplier | scripts/generate_month.py:46 | the multiplier is 1.0 or 1.1, and 1.1 exactly for weekdays 5 and 6 |
| Hourly.TransactionCount | scripts/generate_month.py:50 | the clamped count is never negative, is 0 exactly when the raw value is at most 0.5, and is otherwise within 0.5 of the raw value with an exact tie going to the even neighbour (the two facts `Hourly.RoundHalfEvenUnique` shows determine `round`) |
| Hourly.ComputeHour | scripts/generate_month.py:48-53 | the count of an hour is never negative for any draws; the sign and zero facts of its total, for draws in range, are carried by `Hourly.HourValuesSign` |
| Hourly.TotalCents | scripts/generate_month.py:53 | the total in cents is within half a cent of 100 times count times average |
| Hourly.AverageValueBounds | scripts/generate_month.py:52 | with an average-value base in [1000, 1000000] and noise in [-0.1, 0.1] the average value lies in [900, 1100000] |
| Hourly.TotalCentsSign | scripts/generate_month.py:53 | a non-negative count at an average of at least 900 gives a non-negative total, zero exactly when the count is zero, and at least 900.00 per transaction |
| Hourly.HourValuesSign | scripts/generate_month.py:48-53 | with the average-value base and noise in range, an hour's count and total are non-negative, the total is zero exactly when the count is, and it is at least 900.00 per transaction |
| Hourly.WeekendNoFewerTransactions | scripts/generate_month.py:46-50 | for the same base and Gaussian draws a weekend hour never has fewer transactions than a weekday hour |
| Generator.DateLabel | scripts/generate_month.py:43-46 | a date's multiplier is 1.0 or 1.1, and it is 1.1 exactly when the day name is Saturday or Sunday |
| Generator.HourStep | scripts/generate_month.py:48-52 | one hour consumes exactly four draws, in the order base, Gaussian, average-value base, noise |
| Generator.HoursFrom | scripts/generate_month.py:47 | the hour loop yields one row per remaining hour and advances the generator by four draws per row |
| Generator.HoursFromRows | scripts/generate_month.py:47-60 | row `i` of the hour loop is hour `hour + i`, computed from the four draws at positions `pos + 4 * i` on |
| Generator.DayRecords | scripts/generate_month.py:43-60 | a day yields 24 rows, hours 0 to 23, with the day's own labels, consuming 96 draws |
| Generator.WalkDays | scripts/generate_month.py:41-61 | the day loop yields 24 rows per day from `cur` up to `end` and advances the generator by four draws per row |
| Generator.WalkDaysByDay | scripts/generate_month.py:41-61 | the day loop's rows are whole days, each date labelled as itself, each following day drawing after the previous |
| Generator.DayByDayRow | scripts/generate_month.py:41-61 | row `i` of whole days is hour `i % 24` of the date `i / 24` days after the start, drawing at `pos + 4 * i` |
| Generator.MonthBounds | scripts/generate_month.py:31-36 | the bounds exist exactly for an accepted (year, month); the start is the 1st, the end the 1st of the next month or of January next year; each refusal carries the range error `datetime.date` raises for it (see the `Calendar.MakeDate` line under Left out for arguments beyond a C int) |
| Generator.GenerateMonth | scripts/generate_month.py:30-61 | a month is generated exactly when it is accepted, otherwise the bounds' error comes back, and an accepted month has 24 rows per day |
| MonthProperties.MonthWalkLength | scripts/generate_month.py:40-61 | walking a month gives 24 rows per day and leaves the generator 4 draws per row past the reseed |
| MonthProperties.MonthWalkRows | scripts/generate_month.py:40-61 | walking a month, for any formula and labels, gives exactly the reference rows |
| MonthProperties.MonthRows | scripts/generate_month.py:38-61 | an accepted month's rows are exactly the reference rows, and the generator ends 4 draws per row past the reseed |
| MonthProperties.MonthRow | scripts/generate_month.py:54-60 | row `i` of an accepted month is reference row `i` |
| MonthProperties.RowsWithinMonth | scripts/generate_month.py:41-47 | every row lies on a valid date of the requested month, on day `i / 24 + 1`, at hour `i % 24` in 0..23 |
| MonthProperties.RowOfEveryHour | scripts/generate_month.py:42-47 | every (day, hour) of the month has its row, at index `24 * (day - 1) + hour`, labelled with that date's weekday name |
| MonthProperties.RowsStrictlyIncreasing | scripts/generate_month.py:47-61 | rows are strictly increasing in (date, hour), so no (date, hour) repeats |
| MonthProperties.MonthFirstRow | scripts/generate_month.py:41-47 | the first row is hour 0 of the 1st, named after that date's weekday |
| MonthProperties.MonthLastRow | scripts/generate_month.py:33-47 | the last row is hour 23 of the month's last day, named after that date's weekday |
| MonthProperties.RowDayNames | scripts/generate_month.py:43-46 | each row carries the English name of its date's weekday, and its values were computed with that weekday's multiplier |
| MonthProperties.RowAmountsNonNegative | scripts/generate_month.py:50-53 | with every draw in its range, no row has a negative count or total, a total is zero exactly when its count is, and it is at least 900.00 per transaction |
| MonthProperties.SameDrawsSameMonth | scripts/generate_month.py:38-52 | two draw sources agreeing on the draws a month consumes after the reseed give the same result whatever the earlier generator state, so repeated calls agree |
| MonthProperties.MonthRowFields | scripts/generate_month.py:54-60 | every row can be written, and its fields read back to its date, hour, count and cents |
| MonthProperties.January2024 | scripts/generate_month.py:72-74 | January 2024 has 744 rows, from Monday 2024-01-01 hour 0 to Wednesday 2024-01-31 hour 23 |
| MonthProperties.January2024Weekdays | scripts/generate_month.py:74 | 2024-01-01 is a Monday and 2024-01-31 a Wednesday |
| MonthProperties.February2023 | scripts/generate_month.py:32-36 | February 2023 has 28 days of rows (672) |
| MonthProperties.February2024 | scripts/generate_month.py:32-36 | February 2024, a leap year, has 29 days of rows (696) |
| MonthProperties.RefusedMonths | scripts/generate_month.py:31-36 | month 13 and month 0 are refused for the month, year 0 for the year, December 9999 for year 10000 of its end date, and November 9999 is accepted |
| Formatting.Decimal | scripts/generate_month.py:57-58 | `str(n)` is a non-empty digit string without a leading zero |
| Formatting.DecimalRoundTrip | scripts/generate_month.py:57-58 | reading back `str(n)` gives `n` |
| Formatting.ZeroPadRoundTrip | scripts/generate_month.py:55 | reading back a zero-padded number gives the number |
| Formatting.IsoDate | scripts/generate_month.py:55 | `isoformat()` is ten characters with dashes at positions 4 and 7 |
| Formatting.IsoDateRoundTrip | scripts/generate_month.py:55 | every valid date is read back from its ISO text |
| Formatting.IsoDateInjective | scripts/generate_month.py:55 | distinct valid dates have distinct ISO texts |
| Formatting.AmountText | scripts/generate_month.py:59 | the amount is at least one digit of units, a point and exactly two digits, with a leading minus exactly when negative |
| Formatting.AmountRoundTrip | scripts/generate_month.py:59 | every amount in cents is read back from its two-decimal text |
| Formatting.RowFields | scripts/generate_month.py:54-60 | a row has one field per header column |
| Formatting.RowFieldsRoundTrip | scripts/generate_month.py:54-60 | a row's fields read back to its date, day name, hour, count and cents |

## Left out

- Writing the file: `OUT_PATH`, `os.makedirs`, `csv.DictWriter` and the final `print` (lines 15, 63-69, 75) are I/O. `Formatting.RowFields` gives the fields and `Formatting.Header` the header; joining them with commas is not modelled (no field contains a comma or a quote, so no quoting applies).
- The Mersenne Twister behind `random.seed`, `randint`, `gauss` and `uniform`: draws are an abstract `DrawSource`. A `gauss` draw is its standard normal variate `z`, with `gauss(mu, sigma) = mu + z * sigma`. CPython's `gauss` caches a second variate between calls; that cache is part of the abstract draw stream.
- IEEE binary floating point: all arithmetic is on exact reals, so `round` on a value that is not exactly representable, the double rounding in `round(x, 2)` and the float-to-text step of `:.2f` are not modelled. The total is kept as whole cents (`Hourly.TotalCents`), and the text is derived from those cents.
- Locale: `strftime("%A")` is the fixed English name table.
- The comment on line 19 gives the base range as up to 1,000,000; the code on line 21 draws up to 10000, and the model follows the code.
- The draw ranges are not enforced on `DrawSource`; the lemmas that need them (`MonthProperties.RowAmountsNonNegative`, `Hourly.HourValuesSign`, `Hourly.WeekendNoFewerTransactions`) take them as hypotheses. The noise range is the closed interval [-0.1, 0.1] that `random.uniform(-0.1, 0.1)` can return.
- The count is rounded first and then clamped, as the code writes `max(0, round(...))`; clamping before rounding would give the same value.
- Hourly.WeekendNoFewerTransactions: the weekend effect is stated per hour for equal draws, not as the statistical comparison of weekend and weekday means over one seed's output, which depends on the concrete generator.
- Calendar.MakeDate: CPython's `date()` first converts its arguments to C ints, so a year or month outside [-2^31, 2^31) raises `OverflowError` before any range check; the model reports `YearOutOfRange` or `MonthOutOfRange` for those. Generation fails either way, and `Generator.MonthBounds` inherits the same simplification.
- Day labels of dates with a month outside 1..12 (an empty name) are never used: no such date reaches the day loop.
- The `OverflowError` that `date + timedelta` raises past 9999-12-31 cannot occur: the loop stops at `end`, which is itself a valid date.
