/**
 * The Gregorian arithmetic under the referral-bonus ledger, as Python's
 * `datetime` and dateutil's `relativedelta` perform it: parsing and printing
 * `YYYY-MM-DD`, adding calendar months with the day clamped to the target
 * month, day ordinals, and the whole-day difference between two instants.
 */
module Calendar {
  import opened Common
  import opened Text

  /** datetime.MINYEAR and datetime.MAXYEAR. */
  const MinYear := 1
  const MaxYear := 9999

  const MicrosPerDay := 86_400_000_000

  datatype Date = Date(year: int, month: int, day: int)

  predicate IsLeapYear(y: int)
  {
    y % 4 == 0 && (y % 100 != 0 || y % 400 == 0)
  }

  function DaysInMonth(y: int, m: int): (n: int)
    requires 1 <= m <= 12
    ensures 28 <= n <= 31
  {
    if m == 2 then (if IsLeapYear(y) then 29 else 28)
    else if m == 4 || m == 6 || m == 9 || m == 11 then 30
    else 31
  }

  function DaysInYear(y: int): int
  {
    if IsLeapYear(y) then 366 else 365
  }

  /** A date `datetime.date` accepts. */
  predicate ValidDate(d: Date)
  {
    MinYear <= d.year <= MaxYear && 1 <= d.month <= 12 && 1 <= d.day <= DaysInMonth(d.year, d.month)
  }

  /** The ValueError of strptime (text that is not a date) or of datetime arithmetic
      (a year outside MinYear..MaxYear). */
  datatype DateError = Malformed(text: string) | YearOutOfRange(year: int)

  function Min(a: int, b: int): int { if a <= b then a else b }

  // ---------------------------------------------------------------------------
  // Text form
  // ---------------------------------------------------------------------------

  /** The shape strptime's "%Y-%m-%d" pattern matches in its zero-padded form. */
  predicate IsDateShape(s: string)
  {
    |s| == 10 && s[4] == '-' && s[7] == '-'
    && IsDigits(s[..4]) && IsDigits(s[5..7]) && IsDigits(s[8..])
  }

  /** `datetime.strptime(s, "%Y-%m-%d")`, for zero-padded text. */
  function ParseDate(s: string): (r: Result<Date, DateError>)
    ensures r.Ok? ==> ValidDate(r.value) && IsDateShape(s)
    ensures r.Err? ==> r.error == Malformed(s)
  {
    if IsDateShape(s) then
      var d := Date(DigitsValue(s[..4]), DigitsValue(s[5..7]), DigitsValue(s[8..]));
      if ValidDate(d) then Ok(d) else Err(Malformed(s))
    else Err(Malformed(s))
  }

  /** `d.strftime("%Y-%m-%d")`. */
  function FormatDate(d: Date): (s: string)
    requires ValidDate(d)
    ensures |s| == 10
  {
    PadDigits(d.year, 4) + "-" + PadDigits(d.month, 2) + "-" + PadDigits(d.day, 2)
  }

  /** The field widths' powers of ten, for the digit-value steps of `ParseFormat`. */
  lemma Pow10Values()
    ensures Pow10(2) == 100 && Pow10(4) == 10000
  {
    calc {
      Pow10(4);
      10 * Pow10(3);
      10 * (10 * Pow10(2));
      { assert Pow10(2) == 10 * (10 * Pow10(0)); }
      10000;
    }
  }

  /** A year, a month and a day field joined by dashes sit at the fixed offsets of the
      date shape. */
  lemma DateFields(y: string, m: string, d: string)
    requires |y| == 4 && |m| == 2 && |d| == 2
    ensures var s := y + "-" + m + "-" + d;
      |s| == 10 && s[..4] == y && s[4] == '-' && s[5..7] == m && s[7] == '-' && s[8..] == d
  {
  }

  /** Text of the date shape is its three fields joined by dashes. */
  lemma DateJoin(s: string)
    requires |s| == 10 && s[4] == '-' && s[7] == '-'
    ensures s == s[..4] + "-" + s[5..7] + "-" + s[8..]
  {
  }

  /** Every valid date prints to text that parses back to it. */
  lemma ParseFormat(d: Date)
    requires ValidDate(d)
    ensures ParseDate(FormatDate(d)) == Ok(d)
  {
    var y, m, dd := PadDigits(d.year, 4), PadDigits(d.month, 2), PadDigits(d.day, 2);
    assert DigitsValue(y) == d.year && DigitsValue(m) == d.month && DigitsValue(dd) == d.day by {
      Pow10Values();
      PadDigitsValue(d.year, 4);
      PadDigitsValue(d.month, 2);
      PadDigitsValue(d.day, 2);
    }
    DateFields(y, m, dd);
    var s := FormatDate(d);
    assert s == y + "-" + m + "-" + dd;
    assert IsDateShape(s);
  }

  /** Text that parses is the canonical print of the date it denotes. */
  lemma FormatParse(s: string)
    requires ParseDate(s).Ok?
    ensures FormatDate(ParseDate(s).value) == s
  {
    var d := ParseDate(s).value;
    assert PadDigits(d.year, 4) == s[..4] && PadDigits(d.month, 2) == s[5..7] && PadDigits(d.day, 2) == s[8..] by {
      PadDigitsOfValue(s[..4]);
      PadDigitsOfValue(s[5..7]);
      PadDigitsOfValue(s[8..]);
    }
    DateJoin(s);
  }

  // ---------------------------------------------------------------------------
  // Month arithmetic
  // ---------------------------------------------------------------------------

  /** Months since January of year 0: the quantity relativedelta(months=n) adds n to. */
  function MonthIndex(d: Date): int
  {
    d.year * 12 + (d.month - 1)
  }

  /**
   * `d + relativedelta(months=n)`. The relativedelta constructor folds |n| > 11 into
   * years and a signed remainder of months; adding it carries one year when the
   * month leaves 1..12, then clamps the day to the length of the target month.
   * Building the result with a year outside MinYear..MaxYear raises ValueError.
   */
  function AddMonths(d: Date, n: int): (r: Result<Date, DateError>)
    requires ValidDate(d)
    ensures r.Err? <==> !(MinYear <= (MonthIndex(d) + n) / 12 <= MaxYear)
    ensures r.Ok? ==> ValidDate(r.value) && MonthIndex(r.value) == MonthIndex(d) + n
    ensures r.Ok? ==> (r.value.day <= d.day
                       && (r.value.day == d.day || r.value.day == DaysInMonth(r.value.year, r.value.month)))
    ensures r.Ok? && d.day <= 28 ==> r.value.day == d.day
  {
    var a := if n < 0 then -n else n;
    var years := if a > 11 then (if n < 0 then -(a / 12) else a / 12) else 0;
    var months := if a > 11 then (if n < 0 then -(a % 12) else a % 12) else n;
    var month0 := d.month + months;
    var year := d.year + years + (if month0 > 12 then 1 else if month0 < 1 then -1 else 0);
    var month := if month0 > 12 then month0 - 12 else if month0 < 1 then month0 + 12 else month0;
    assert years * 12 + months == n;
    assert 1 <= month <= 12 && year * 12 + (month - 1) == MonthIndex(d) + n;
    assert year == (MonthIndex(d) + n) / 12;
    if year < MinYear || year > MaxYear then Err(YearOutOfRange(year))
    else Ok(Date(year, month, Min(d.day, DaysInMonth(year, month))))
  }

  /** Adding at least one month moves strictly forward in time. */
  lemma AddMonthsLater(d: Date, n: int)
    requires ValidDate(d) && n >= 1 && AddMonths(d, n).Ok?
    ensures Before(d, AddMonths(d, n).value)
  {
  }

  /** The documented clamp: 2024-01-31 plus one month is 2024-02-29, not March 2. */
  lemma LeapClampExample()
    ensures AddMonths(Date(2024, 1, 31), 1) == Ok(Date(2024, 2, 29))
  {
  }

  // ---------------------------------------------------------------------------
  // Ordinals and order
  // ---------------------------------------------------------------------------

  /** Lexicographic order of (year, month, day): the order of `date` objects. */
  predicate Before(a: Date, b: Date)
  {
    a.year < b.year || (a.year == b.year && (a.month < b.month || (a.month == b.month && a.day < b.day)))
  }

  /** Days in the years before `y`, as `datetime._days_before_year` computes them. */
  function DaysBeforeYear(y: int): int
    requires y >= 1
  {
    var p := y - 1;
    p * 365 + p / 4 - p / 100 + p / 400
  }

  /** Days in the months of year `y` before month `m`, as `datetime._days_before_month`. */
  function DaysBeforeMonth(y: int, m: int): int
    requires 1 <= m <= 12
  {
    [0, 31, 59, 90, 120, 151, 181, 212, 243, 273, 304, 334][m - 1]
    + (if m > 2 && IsLeapYear(y) then 1 else 0)
  }

  /** `d.toordinal()`: 0001-01-01 is day 1. */
  function Ordinal(d: Date): int
    requires ValidDate(d)
  {
    DaysBeforeYear(d.year) + DaysBeforeMonth(d.year, d.month) + d.day
  }

  /** Floor division by 4 steps up exactly at multiples of 4: a step of `YearStep`. */
  lemma DivStep4(p: int)
    ensures (p + 1) / 4 == p / 4 + (if (p + 1) % 4 == 0 then 1 else 0)
  {
  }

  /** The same for the century rule, used by `YearStep`. */
  lemma DivStep100(p: int)
    ensures (p + 1) / 100 == p / 100 + (if (p + 1) % 100 == 0 then 1 else 0)
  {
  }

  /** The same for the 400-year rule, used by `YearStep`. */
  lemma DivStep400(p: int)
    ensures (p + 1) / 400 == p / 400 + (if (p + 1) % 400 == 0 then 1 else 0)
  {
  }

  /** Consecutive years are DaysInYear apart in the closed form of `_days_before_year`. */
  lemma YearStep(y: int)
    requires y >= 1
    ensures DaysBeforeYear(y + 1) == DaysBeforeYear(y) + DaysInYear(y)
  {
    DivStep4(y - 1);
    DivStep100(y - 1);
    DivStep400(y - 1);
  }

  lemma {:induction false} YearsApart(y1: int, y2: int)
    requires 1 <= y1 < y2
    ensures DaysBeforeYear(y1) + DaysInYear(y1) <= DaysBeforeYear(y2)
    decreases y2 - y1
  {
    YearStep(y1);
    if y1 + 1 < y2 {
      YearsApart(y1 + 1, y2);
      YearStep(y1 + 1);
    }
  }

  lemma MonthsApart(y: int, m1: int, m2: int)
    requires 1 <= m1 < m2 <= 12
    ensures DaysBeforeMonth(y, m1) + DaysInMonth(y, m1) <= DaysBeforeMonth(y, m2)
  {
  }

  lemma LastMonth(y: int, m: int)
    requires 1 <= m <= 12
    ensures DaysBeforeMonth(y, m) + DaysInMonth(y, m) <= DaysInYear(y)
  {
  }

  /** The ordinal numbers days consecutively: it orders dates as `date` comparison
      does, and two valid dates share an ordinal only when they are equal. */
  lemma OrdinalOrder(a: Date, b: Date)
    requires ValidDate(a) && ValidDate(b)
    ensures Before(a, b) <==> Ordinal(a) < Ordinal(b)
    ensures a == b <==> Ordinal(a) == Ordinal(b)
  {
    LastMonth(a.year, a.month);
    LastMonth(b.year, b.month);
    if a.year < b.year {
      YearsApart(a.year, b.year);
    } else if b.year < a.year {
      YearsApart(b.year, a.year);
    } else if a.month < b.month {
      MonthsApart(a.year, a.month, b.month);
    } else if b.month < a.month {
      MonthsApart(a.year, b.month, a.month);
    }
  }

  // ---------------------------------------------------------------------------
  // Instants
  // ---------------------------------------------------------------------------

  /** A naive `datetime`: a date and the microseconds elapsed since its midnight. */
  datatype DateTime = DateTime(date: Date, micros: int)

  predicate ValidDateTime(t: DateTime)
  {
    ValidDate(t.date) && 0 <= t.micros < MicrosPerDay
  }

  /** What `datetime.now()` can return. */
  type Instant = t: DateTime | ValidDateTime(t) witness DateTime(Date(MinYear, 1, 1), 0)

  /** What `strptime` yields for a date: that day at 00:00:00. */
  function Midnight(d: Date): DateTime
  {
    DateTime(d, 0)
  }

  /** Microseconds since the proleptic epoch; `datetime` comparison and subtraction work on it. */
  function Timeline(t: DateTime): int
    requires ValidDateTime(t)
  {
    Ordinal(t.date) * MicrosPerDay + t.micros
  }

  /** `a < b` on datetimes. */
  predicate Earlier(a: DateTime, b: DateTime)
    requires ValidDateTime(a) && ValidDateTime(b)
  {
    Timeline(a) < Timeline(b)
  }

  /** `(later - earlier).days`: timedelta keeps seconds and microseconds non-negative,
      so the day count is the floor of the difference in days. */
  function DaysBetween(later: DateTime, earlier: DateTime): int
    requires ValidDateTime(later) && ValidDateTime(earlier)
  {
    (Timeline(later) - Timeline(earlier)) / MicrosPerDay
  }

  /** An instant is earlier than a day's midnight exactly when its date is before
      that day: the time of day never matters. */
  lemma EarlierThanMidnight(now: DateTime, e: Date)
    requires ValidDateTime(now) && ValidDate(e)
    ensures Earlier(now, Midnight(e)) <==> Before(now.date, e)
  {
    OrdinalOrder(now.date, e);
  }

  /** Whole days from `now` to the midnight that starts `e`: the difference of the
      ordinals, one less as soon as any time of day has elapsed. */
  lemma DaysUntilMidnight(e: Date, now: DateTime)
    requires ValidDate(e) && ValidDateTime(now)
    ensures DaysBetween(Midnight(e), now)
      == Ordinal(e) - Ordinal(now.date) - (if now.micros == 0 then 0 else 1)
  {
    var k := Ordinal(e) - Ordinal(now.date);
    var x := Timeline(Midnight(e)) - Timeline(now);
    if now.micros == 0 {
      assert x == k * MicrosPerDay;
    } else {
      assert x == (k - 1) * MicrosPerDay + (MicrosPerDay - now.micros);
    }
  }
}
