/** The text a row carries into the file: `date.isoformat()` for the date,
    `str(n)` for the hour and the count, and the amount written with two
    decimals (`f"{total:.2f}"`) from its whole number of cents. Each
    rendering comes with the parser that reads it back. */
module Formatting {
  import opened Results
  import opened Calendar
  import opened Generator

  predicate IsDigit(c: char) {
    '0' <= c <= '9'
  }

  predicate AllDigits(s: string) {
    forall i :: 0 <= i < |s| ==> IsDigit(s[i])
  }

  function DigitValue(c: char): (d: int)
    requires IsDigit(c)
    ensures 0 <= d < 10
  {
    c as int - '0' as int
  }

  function DigitChar(d: int): (c: char)
    requires 0 <= d < 10
    ensures IsDigit(c) && DigitValue(c) == d
  {
    ('0' as int + d) as char
  }

  /** The number a string of decimal digits denotes, most significant first. */
  function DigitsValue(s: string): nat
    requires AllDigits(s)
    decreases |s|
  {
    if |s| == 0 then 0 else DigitsValue(s[..|s| - 1]) * 10 + DigitValue(s[|s| - 1])
  }

  /** Read back a non-negative integer written in decimal digits. */
  function ParseNat(s: string): (r: Option<nat>)
    ensures r.Some? <==> |s| >= 1 && AllDigits(s)
  {
    if |s| >= 1 && AllDigits(s) then Some(DigitsValue(s)) else None
  }

  /** `str(n)` for a non-negative integer: its decimal digits, with no
      leading zero unless the number is zero itself. */
  function Decimal(n: nat): (s: string)
    ensures 1 <= |s| && AllDigits(s)
    ensures |s| >= 2 ==> s[0] != '0'
    decreases n
  {
    if n < 10 then [DigitChar(n)] else Decimal(n / 10) + [DigitChar(n % 10)]
  }

  function Zeros(k: nat): (s: string)
    ensures |s| == k && AllDigits(s)
  {
    seq(k, _ => '0')
  }

  /** `%0*d`: `n` in decimal, padded on the left with zeros to `width`. */
  function ZeroPad(n: nat, width: nat): (s: string)
    ensures AllDigits(s) && |s| >= width
    ensures |Decimal(n)| <= width ==> |s| == width
  {
    var digits := Decimal(n);
    (if |digits| < width then Zeros(width - |digits|) else []) + digits
  }

  /** `date.isoformat()`: `YYYY-MM-DD`. */
  function IsoDate(d: Date): (s: string)
    requires ValidDate(d)
    ensures |s| == 10 && s[4] == '-' && s[7] == '-'
  {
    IsoWidths(d);
    ZeroPad(d.year, 4) + "-" + ZeroPad(d.month, 2) + "-" + ZeroPad(d.day, 2)
  }

  /** Read back a `YYYY-MM-DD` date; `None` unless the text has that shape
      and names a valid date. */
  function ParseIsoDate(s: string): (r: Option<Date>)
    ensures r.Some? ==> ValidDate(r.value)
  {
    if |s| == 10 && s[4] == '-' && s[7] == '-'
       && AllDigits(s[..4]) && AllDigits(s[5..7]) && AllDigits(s[8..])
    then
      var d := Date(DigitsValue(s[..4]), DigitsValue(s[5..7]), DigitsValue(s[8..]));
      if ValidDate(d) then Some(d) else None
    else None
  }

  /** `f"{total:.2f}"` for the amount `cents / 100`: an optional minus
      sign, the whole units, a point and exactly two digits of cents. */
  function AmountText(cents: int): (s: string)
    ensures |s| >= 4 && s[|s| - 3] == '.'
    ensures s[0] == '-' <==> cents < 0
    ensures var units := if cents < 0 then s[1..|s| - 3] else s[..|s| - 3];
            |units| >= 1 && AllDigits(units) && AllDigits(s[|s| - 2..])
  {
    if cents < 0 then "-" + UnsignedAmount(-cents) else UnsignedAmount(cents)
  }

  /** The units, a point and two digits of cents of a non-negative amount. */
  function UnsignedAmount(magnitude: nat): (s: string)
    ensures |s| >= 4 && s[|s| - 3] == '.' && IsDigit(s[0])
    ensures AllDigits(s[..|s| - 3]) && AllDigits(s[|s| - 2..])
  {
    CentsWidth(magnitude % 100);
    var units, fraction := Decimal(magnitude / 100), ZeroPad(magnitude % 100, 2);
    var s := units + "." + fraction;
    assert s[..|s| - 3] == units && s[|s| - 2..] == fraction;
    s
  }

  /** Read back an amount with two decimals as whole cents. */
  function ParseAmount(s: string): (r: Option<int>)
  {
    if |s| > 0 && s[0] == '-' then
      match ParseUnsignedAmount(s[1..])
      case None => None
      case Some(magnitude) => Some(-(magnitude as int))
    else
      match ParseUnsignedAmount(s)
      case None => None
      case Some(magnitude) => Some(magnitude as int)
  }

  function ParseUnsignedAmount(s: string): (r: Option<nat>)
  {
    if |s| >= 4 && s[|s| - 3] == '.' && AllDigits(s[..|s| - 3]) && AllDigits(s[|s| - 2..])
    then Some(DigitsValue(s[..|s| - 3]) * 100 + DigitsValue(s[|s| - 2..]))
    else None
  }

  /** The five fields `csv.DictWriter` writes for a row, in the order of
      the header. */
  function RowFields(row: HourlyRecord): (fields: seq<string>)
    requires ValidDate(row.date) && row.hour >= 0 && row.transactions >= 0
    ensures |fields| == |Header| == 5
  {
    [IsoDate(row.date), row.dayName, Decimal(row.hour), Decimal(row.transactions), AmountText(row.totalCents)]
  }

  /** The header line's field names. */
  const Header: seq<string> := ["date", "day", "hour", "number_of_transactions", "total_amount"]

  // ---------------------------------------------------------------------
  // Widths

  /** A number below `10^k` (k >= 1) has at most `k` decimal digits. */
  lemma {:induction false} DecimalWidth(n: nat, k: nat, bound: nat)
    requires k >= 1 && bound == Pow10(k) && n < bound
    ensures |Decimal(n)| <= k
    decreases k
  {
    if n >= 10 {
      assert k >= 2;
      Pow10Step(k - 1);
      DecimalWidth(n / 10, k - 1, Pow10(k - 1));
    }
  }

  function Pow10(k: nat): (p: nat)
    ensures p >= 1
  {
    if k == 0 then 1 else 10 * Pow10(k - 1)
  }

  lemma Pow10Step(k: nat)
    ensures Pow10(k + 1) == 10 * Pow10(k)
  {
  }

  /** A year has at most four digits, a month or a day at most two. */
  lemma IsoWidths(d: Date)
    requires ValidDate(d)
    ensures |Decimal(d.year)| <= 4 && |Decimal(d.month)| <= 2 && |Decimal(d.day)| <= 2
  {
    assert Pow10(2) == 100 && Pow10(4) == 10000;
    DecimalWidth(d.year, 4, 10000);
    DecimalWidth(d.month, 2, 100);
    DecimalWidth(d.day, 2, 100);
  }

  lemma CentsWidth(c: nat)
    requires c < 100
    ensures |Decimal(c)| <= 2
  {
    assert Pow10(2) == 100;
    DecimalWidth(c, 2, 100);
  }

  // ---------------------------------------------------------------------
  // Round trips

  /** Reading back the digits of `str(n)` gives `n`. */
  lemma {:induction false} DecimalRoundTrip(n: nat)
    ensures DigitsValue(Decimal(n)) == n
    decreases n
  {
    if n >= 10 {
      DecimalRoundTrip(n / 10);
      var s := Decimal(n);
      assert s[..|s| - 1] == Decimal(n / 10);
    }
  }

  /** A leading zero does not change the value of a digit string. */
  lemma {:induction false} LeadingZero(s: string)
    requires AllDigits(s)
    ensures DigitsValue(['0'] + s) == DigitsValue(s)
    decreases |s|
  {
    if |s| > 0 {
      var t := ['0'] + s;
      assert t[..|t| - 1] == ['0'] + s[..|s| - 1];
      LeadingZero(s[..|s| - 1]);
    }
  }

  lemma {:induction false} LeadingZeros(k: nat, s: string)
    requires AllDigits(s)
    ensures DigitsValue(Zeros(k) + s) == DigitsValue(s)
    decreases k
  {
    if k > 0 {
      var rest := Zeros(k - 1) + s;
      LeadingZeros(k - 1, s);
      assert Zeros(k) == ['0'] + Zeros(k - 1);
      assert Zeros(k) + s == ['0'] + rest;
      assert AllDigits(rest) by {
        forall i | 0 <= i < |rest| ensures IsDigit(rest[i]) {
          if i < k - 1 { assert rest[i] == Zeros(k - 1)[i]; } else { assert rest[i] == s[i - (k - 1)]; }
        }
      }
      LeadingZero(rest);
    } else {
      assert Zeros(k) + s == s;
    }
  }

  /** Reading back a zero-padded number gives the number. */
  lemma ZeroPadRoundTrip(n: nat, width: nat)
    ensures DigitsValue(ZeroPad(n, width)) == n
  {
    var digits := Decimal(n);
    DecimalRoundTrip(n);
    if |digits| < width {
      LeadingZeros(width - |digits|, digits);
    } else {
      assert ZeroPad(n, width) == digits;
    }
  }

  /** Every valid date is read back from its ISO text. */
  lemma IsoDateRoundTrip(d: Date)
    requires ValidDate(d)
    ensures ParseIsoDate(IsoDate(d)) == Some(d)
  {
    IsoWidths(d);
    var y, m, dd := ZeroPad(d.year, 4), ZeroPad(d.month, 2), ZeroPad(d.day, 2);
    var s := IsoDate(d);
    assert s == y + "-" + m + "-" + dd;
    assert s[..4] == y && s[5..7] == m && s[8..] == dd;
    ZeroPadRoundTrip(d.year, 4);
    ZeroPadRoundTrip(d.month, 2);
    ZeroPadRoundTrip(d.day, 2);
  }

  /** Two different valid dates never share their ISO text. */
  lemma IsoDateInjective(a: Date, b: Date)
    requires ValidDate(a) && ValidDate(b) && IsoDate(a) == IsoDate(b)
    ensures a == b
  {
    IsoDateRoundTrip(a);
    IsoDateRoundTrip(b);
  }

  /** Every amount is read back from its two-decimal text. */
  lemma AmountRoundTrip(cents: int)
    ensures ParseAmount(AmountText(cents)) == Some(cents)
  {
    if cents < 0 {
      NegativeAmountRoundTrip(-cents);
    } else {
      PositiveAmountRoundTrip(cents);
    }
  }

  lemma PositiveAmountRoundTrip(magnitude: nat)
    ensures ParseAmount(AmountText(magnitude)) == Some(magnitude as int)
  {
    assert AmountText(magnitude) == UnsignedAmount(magnitude);
    UnsignedAmountRoundTrip(magnitude);
  }

  lemma NegativeAmountRoundTrip(magnitude: nat)
    requires magnitude > 0
    ensures ParseAmount(AmountText(-(magnitude as int))) == Some(-(magnitude as int))
  {
    assert AmountText(-(magnitude as int)) == "-" + UnsignedAmount(magnitude);
    var body := UnsignedAmount(magnitude);
    UnsignedAmountRoundTrip(magnitude);
    assert ("-" + body)[1..] == body;
  }

  lemma UnsignedAmountRoundTrip(magnitude: nat)
    ensures ParseUnsignedAmount(UnsignedAmount(magnitude)) == Some(magnitude)
  {
    var units, fraction := Decimal(magnitude / 100), ZeroPad(magnitude % 100, 2);
    CentsWidth(magnitude % 100);
    var s := UnsignedAmount(magnitude);
    assert s == units + "." + fraction;
    assert s[..|s| - 3] == units && s[|s| - 2..] == fraction;
    DecimalRoundTrip(magnitude / 100);
    ZeroPadRoundTrip(magnitude % 100, 2);
  }

  /** The fields of a row give back its date, hour, count and amount. */
  lemma RowFieldsRoundTrip(row: HourlyRecord)
    requires ValidDate(row.date) && row.hour >= 0 && row.transactions >= 0
    ensures var fields := RowFields(row);
            && ParseIsoDate(fields[0]) == Some(row.date)
            && fields[1] == row.dayName
            && ParseNat(fields[2]) == Some(row.hour)
            && ParseNat(fields[3]) == Some(row.transactions)
            && ParseAmount(fields[4]) == Some(row.totalCents)
  {
    var fields := RowFields(row);
    assert fields[0] == IsoDate(row.date) && fields[1] == row.dayName;
    assert fields[2] == Decimal(row.hour) && fields[3] == Decimal(row.transactions);
    assert fields[4] == AmountText(row.totalCents);
    IsoDateRoundTrip(row.date);
    DecimalRoundTrip(row.hour);
    DecimalRoundTrip(row.transactions);
    AmountRoundTrip(row.totalCents);
  }
}
