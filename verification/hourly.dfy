/** The numbers computed for one hour: the transaction count drawn around a
    weekday- or weekend-scaled base, and the total amount of those
    transactions. Arithmetic is on exact reals; amounts are whole cents. */
module Hourly {

  /** Inclusive bounds of `random.randint` in `hourly_base_transactions`. */
  const BaseLow: real := 1000.0
  const BaseHigh: real := 10000.0
  /** Inclusive bounds of `random.randint` in `hourly_avg_value`. */
  const AvgBaseLow: real := 1000.0
  const AvgBaseHigh: real := 1000000.0
  /** `random.uniform(-0.1, 0.1)`. */
  const NoiseBound: real := 0.1
  /** The standard deviation of the count is a quarter of the base. */
  const SpreadFactor: real := 0.25
  const WeekdayFactor: real := 1.0
  const WeekendFactor: real := 1.1

  predicate IsWhole(x: real) {
    x == x.Floor as real
  }

  predicate BaseDrawInRange(x: real) {
    IsWhole(x) && BaseLow <= x <= BaseHigh
  }

  predicate AvgBaseDrawInRange(x: real) {
    IsWhole(x) && AvgBaseLow <= x <= AvgBaseHigh
  }

  predicate NoiseDrawInRange(x: real) {
    -NoiseBound <= x <= NoiseBound
  }

  /** Python's `round(x)`: the nearest integer, ties to the even one. */
  function RoundHalfEven(x: real): (n: int)
    ensures x - 0.5 <= n as real <= x + 0.5
    ensures (n as real == x - 0.5 || n as real == x + 0.5) ==> n % 2 == 0
  {
    var f := x.Floor;
    var frac := x - f as real;
    if frac < 0.5 then f
    else if frac > 0.5 then f + 1
    else if f % 2 == 0 then f
    else f + 1
  }

  /** The two properties in `RoundHalfEven`'s contract pin the result down. */
  lemma RoundHalfEvenUnique(x: real, n: int)
    requires x - 0.5 <= n as real <= x + 0.5
    requires (n as real == x - 0.5 || n as real == x + 0.5) ==> n % 2 == 0
    ensures n == RoundHalfEven(x)
  {
  }

  lemma RoundHalfEvenMonotone(x: real, y: real)
    requires x <= y
    ensures RoundHalfEven(x) <= RoundHalfEven(y)
  {
  }

  /** The weekend multiplier of a weekday number: 1.0 for Monday (0) to
      Friday (4), 1.1 for Saturday and Sunday. */
  function WeekendMultiplier(weekday: int): (m: real)
    ensures m == WeekdayFactor || m == WeekendFactor
    ensures m == WeekendFactor <==> weekday >= 5
  {
    if weekday < 5 then WeekdayFactor else WeekendFactor
  }

  /** `random.gauss(mu, sigma)` given the standard normal variate `z` it
      draws: CPython returns `mu + z * sigma`. */
  function Gauss(mu: real, sigma: real, z: real): real {
    mu + z * sigma
  }

  /** `int(max(0, round(raw)))`. */
  function TransactionCount(raw: real): (n: int)
    ensures n >= 0
    ensures n == 0 <==> raw <= 0.5
    ensures n > 0 ==> raw - 0.5 <= n as real <= raw + 0.5
    ensures n > 0 && (n as real == raw - 0.5 || n as real == raw + 0.5) ==> n % 2 == 0
  {
    var r := RoundHalfEven(raw);
    if r < 0 then 0 else r
  }

  /** The count for one hour from its base draw and its Gaussian variate:
      mean `base * multiplier`, standard deviation `base * 0.25`. */
  function HourTransactions(base: real, z: real, multiplier: real): (n: int)
    ensures n >= 0
  {
    TransactionCount(Gauss(base * multiplier, base * SpreadFactor, z))
  }

  /** The two numbers one hour of the output carries. */
  datatype HourValues = HourValues(transactions: int, totalCents: int)

  /** The numbers of one hour from its weekend multiplier and its four draws,
      in the order they are drawn: base, Gaussian variate, average-value base
      and noise. */
  function ComputeHour(multiplier: real, base: real, z: real, avgBase: real, noise: real): (v: HourValues)
    ensures v.transactions >= 0
  {
    var transactions := HourTransactions(base, z, multiplier);
    HourValues(transactions, TotalCents(transactions, AverageValue(avgBase, noise)))
  }

  /** The average transaction value: the average-value draw scaled by `1 + noise`. */
  function AverageValue(avgBase: real, noise: real): real {
    avgBase * (1.0 + noise)
  }

  /** `round(count * avg, 2)` in whole cents. */
  function TotalCents(count: int, avg: real): (cents: int)
    ensures -0.5 <= cents as real - 100.0 * (count as real * avg) <= 0.5
  {
    RoundHalfEven(count as real * avg * 100.0)
  }

  /** With its draws in range the average value lies in [900, 1100000]. */
  lemma AverageValueBounds(avgBase: real, noise: real)
    requires AvgBaseDrawInRange(avgBase) && NoiseDrawInRange(noise)
    ensures 900.0 <= AverageValue(avgBase, noise) <= 1100000.0
  {
    var f := 1.0 + noise;
    assert AverageValue(avgBase, noise) == avgBase * f;
    assert 0.9 <= f <= 1.1;
    assert avgBase * f >= avgBase * 0.9 by {
      assert avgBase * f - avgBase * 0.9 == avgBase * (f - 0.9);
    }
    assert avgBase * f <= avgBase * 1.1 by {
      assert avgBase * 1.1 - avgBase * f == avgBase * (1.1 - f);
    }
  }

  /** A non-negative count at a positive average value gives a total that is
      never negative, is zero exactly when the count is, and is at least
      nine hundred units per transaction otherwise. */
  lemma TotalCentsSign(count: int, avg: real)
    requires count >= 0 && avg >= 900.0
    ensures TotalCents(count, avg) >= 0
    ensures TotalCents(count, avg) == 0 <==> count == 0
    ensures TotalCents(count, avg) >= 90000 * count
  {
    var c := count as real;
    assert c * avg >= c * 900.0 by {
      assert c * avg - c * 900.0 == c * (avg - 900.0);
    }
  }

  /** With the average-value base and the noise in range, an hour's total
      is never negative, is zero exactly when its count is, and is at least
      900.00 per transaction. */
  lemma HourValuesSign(multiplier: real, base: real, z: real, avgBase: real, noise: real)
    requires AvgBaseDrawInRange(avgBase) && NoiseDrawInRange(noise)
    ensures var v := ComputeHour(multiplier, base, z, avgBase, noise);
            && v.transactions >= 0
            && v.totalCents >= 0
            && (v.totalCents == 0 <==> v.transactions == 0)
            && v.totalCents >= 90000 * v.transactions
  {
    var transactions := HourTransactions(base, z, multiplier);
    AverageValueBounds(avgBase, noise);
    TotalCentsSign(transactions, AverageValue(avgBase, noise));
  }

  /** For the same draws a weekend hour never has fewer transactions than a
      weekday hour. */
  lemma WeekendNoFewerTransactions(base: real, z: real)
    requires BaseDrawInRange(base)
    ensures HourTransactions(base, z, WeekendFactor) >= HourTransactions(base, z, WeekdayFactor)
  {
    RoundHalfEvenMonotone(
      Gauss(base * WeekdayFactor, base * SpreadFactor, z),
      Gauss(base * WeekendFactor, base * SpreadFactor, z));
  }
}
