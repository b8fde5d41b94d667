/**
  Proleptic Gregorian calendar dates as Python's `datetime` holds them
  (years 1 to 9999), the one-day step back that the grants lookback takes,
  and the `%Y%m%d` text the extract URL is built from.
*/
module Calendar {
  import opened Wrappers
  import opened Text

  datatype Date = Date(year: int, month: int, day: int)

  const MinYear := 1
  const MaxYear := 9999

  predicate IsLeap(y: int) {
    (y % 4 == 0 && y % 100 != 0) || y % 400 == 0
  }

  function DaysInMonth(y: int, m: int): (r: int)
    ensures 28 <= r <= 31
  {
    if m == 2 then (if IsLeap(y) then 29 else 28)
    else if m == 4 || m == 6 || m == 9 || m == 11 then 30
    else 31
  }

  /** A date `datetime` can represent. */
  predicate ValidDate(d: Date) {
    && MinYear <= d.year <= MaxYear
    && 1 <= d.month <= 12
    && 1 <= d.day <= DaysInMonth(d.year, d.month)
  }

  function YearLength(y: int): int {
    if IsLeap(y) then 366 else 365
  }

  /** Days from 1 January of year 1 to 1 January of year `y`: the closed form of CPython's `_days_before_year`. */
  function DaysBeforeYear(y: int): int {
    var p := y - 1;
    365 * p + p / 4 - p / 100 + p / 400
  }

  /** Days from 1 January to the first of month `m` in year `y`: CPython's `_days_before_month`. */
  function DaysBeforeMonth(y: int, m: int): (r: int)
    requires 1 <= m <= 12
  {
    var common :=
      if m == 1 then 0 else if m == 2 then 31 else if m == 3 then 59 else if m == 4 then 90
      else if m == 5 then 120 else if m == 6 then 151 else if m == 7 then 181 else if m == 8 then 212
      else if m == 9 then 243 else if m == 10 then 273 else if m == 11 then 304 else 334;
    common + (if m > 2 && IsLeap(y) then 1 else 0)
  }

  /** The proleptic ordinal of a date, counting 0001-01-01 as day 0 (Python's `toordinal() - 1`). */
  function DayNumber(d: Date): (n: int)
    requires ValidDate(d)
    ensures n >= 0
  {
    DaysBeforeYear(d.year) + DaysBeforeMonth(d.year, d.month) + d.day - 1
  }

  /** The eleven months before December fill the year but for December's 31 days. */
  lemma DaysBeforeDecember(y: int)
    ensures DaysBeforeMonth(y, 12) + 31 == YearLength(y)
  {
  }

  /** Within a month the ordinal counts the days. */
  lemma SameMonthStep(y: int, m: int, day: int)
    requires ValidDate(Date(y, m, day)) && day < DaysInMonth(y, m)
    ensures ValidDate(Date(y, m, day + 1))
    ensures DayNumber(Date(y, m, day + 1)) == DayNumber(Date(y, m, day)) + 1
  {
  }

  /** The ordinal of the first of a month follows the last day of the month before. */
  lemma FirstOfMonth(y: int, m: int)
    requires MinYear <= y <= MaxYear && 1 < m <= 12
    ensures ValidDate(Date(y, m - 1, DaysInMonth(y, m - 1))) && ValidDate(Date(y, m, 1))
    ensures DayNumber(Date(y, m, 1)) == DayNumber(Date(y, m - 1, DaysInMonth(y, m - 1))) + 1
  {
  }

  /** The ordinal of New Year's Day follows 31 December of the year before. */
  lemma FirstOfYear(y: int)
    requires MinYear < y <= MaxYear
    ensures ValidDate(Date(y - 1, 12, 31)) && ValidDate(Date(y, 1, 1))
    ensures DayNumber(Date(y, 1, 1)) == DayNumber(Date(y - 1, 12, 31)) + 1
  {
    DaysBeforeDecember(y - 1);
    var p := y - 1;
    assert p / 4 == (p - 1) / 4 + (if p % 4 == 0 then 1 else 0);
    assert p / 100 == (p - 1) / 100 + (if p % 100 == 0 then 1 else 0);
    assert p / 400 == (p - 1) / 400 + (if p % 400 == 0 then 1 else 0);
  }

  /**
    `date - timedelta(days=1)`: the day before, or nothing at 0001-01-01,
    where Python raises `OverflowError`.
  */
  function PrevDay(d: Date): (r: Option<Date>)
    requires ValidDate(d)
    ensures r.None? <==> d == Date(MinYear, 1, 1)
    ensures r.Some? ==> ValidDate(r.value)
  {
    if d.day > 1 then Some(Date(d.year, d.month, d.day - 1))
    else if d.month > 1 then Some(Date(d.year, d.month - 1, DaysInMonth(d.year, d.month - 1)))
    else if d.year > MinYear then Some(Date(d.year - 1, 12, 31))
    else None
  }

  /** The day before has the ordinal one less. */
  lemma PrevDayNumber(d: Date)
    requires ValidDate(d) && PrevDay(d).Some?
    ensures DayNumber(PrevDay(d).value) == DayNumber(d) - 1
  {
    if d.day > 1 {
      SameMonthStep(d.year, d.month, d.day - 1);
    } else if d.month > 1 {
      FirstOfMonth(d.year, d.month);
    } else {
      FirstOfYear(d.year);
    }
  }

  /** `date + timedelta(days=1)`: the day after, or nothing at 9999-12-31. */
  function NextDay(d: Date): (r: Option<Date>)
    requires ValidDate(d)
    ensures r.None? <==> d == Date(MaxYear, 12, 31)
    ensures r.Some? ==> ValidDate(r.value)
  {
    if d.day < DaysInMonth(d.year, d.month) then Some(Date(d.year, d.month, d.day + 1))
    else if d.month < 12 then Some(Date(d.year, d.month + 1, 1))
    else if d.year < MaxYear then Some(Date(d.year + 1, 1, 1))
    else None
  }

  /** The day after has the ordinal one more. */
  lemma NextDayNumber(d: Date)
    requires ValidDate(d) && NextDay(d).Some?
    ensures DayNumber(NextDay(d).value) == DayNumber(d) + 1
  {
    if d.day < DaysInMonth(d.year, d.month) {
      SameMonthStep(d.year, d.month, d.day);
    } else if d.month < 12 {
      FirstOfMonth(d.year, d.month + 1);
    } else {
      FirstOfYear(d.year + 1);
    }
  }

  /** Stepping back a day and then forward again returns to the same date. */
  lemma PrevThenNext(d: Date)
    requires ValidDate(d)
    ensures PrevDay(d).Some? ==> NextDay(PrevDay(d).value) == Some(d)
  {
    if d.day == 1 && d.month > 1 {
      var p := PrevDay(d).value;
      assert p.day == DaysInMonth(p.year, p.month);
    }
  }

  /** Stepping forward a day and then back again returns to the same date. */
  lemma NextThenPrev(d: Date)
    requires ValidDate(d)
    ensures NextDay(d).Some? ==> PrevDay(NextDay(d).value) == Some(d)
  {
  }

  /** `date - timedelta(days=n)`, one day at a time, or nothing once the step passes 0001-01-01. */
  function MinusDays(d: Date, n: nat): (r: Option<Date>)
    requires ValidDate(d)
    ensures r.Some? ==> ValidDate(r.value)
    decreases n
  {
    if n == 0 then Some(d)
    else match PrevDay(d)
      case None => None
      case Some(p) => MinusDays(p, n - 1)
  }

  /** `n` days back is the ordinal less `n`, and it is missing only when fewer than `n` days precede `d`. */
  lemma {:induction false} MinusDaysNumber(d: Date, n: nat)
    requires ValidDate(d)
    ensures MinusDays(d, n).Some? ==> DayNumber(MinusDays(d, n).value) == DayNumber(d) - n
    ensures MinusDays(d, n).None? ==> DayNumber(d) < n
    decreases n
  {
    if n > 0 {
      if PrevDay(d).Some? {
        PrevDayNumber(d);
        MinusDaysNumber(PrevDay(d).value, n - 1);
      } else {
        assert DayNumber(d) == 0;
      }
    }
  }

  /** Two valid dates with the same ordinal are the same date. */
  lemma {:induction false} DayNumberInjective(a: Date, b: Date)
    requires ValidDate(a) && ValidDate(b) && DayNumber(a) == DayNumber(b)
    ensures a == b
    decreases DayNumber(a)
  {
    var pa := PrevDay(a);
    var pb := PrevDay(b);
    if pa.Some? {
      PrevDayNumber(a);
    }
    if pb.Some? {
      PrevDayNumber(b);
    }
    if pa.Some? && pb.Some? {
      DayNumberInjective(pa.value, pb.value);
      PrevThenNext(a);
      PrevThenNext(b);
    }
  }

  /** Only 0001-01-01 has ordinal 0. */
  lemma NotFirstDay(d: Date)
    requires ValidDate(d) && DayNumber(d) > 0
    ensures d != Date(MinYear, 1, 1)
  {
  }

  /** Fewer than `DayNumber(d)` days back lands on a day after 0001-01-01. */
  lemma MinusDaysAfterFirst(d: Date, n: nat)
    requires ValidDate(d) && n < DayNumber(d)
    ensures MinusDays(d, n).Some? && MinusDays(d, n).value != Date(MinYear, 1, 1)
  {
    MinusDaysNumber(d, n);
    NotFirstDay(MinusDays(d, n).value);
  }

  /** The lookback window never goes beyond 0001-01-01 as long as `n` days fit before today. */
  lemma MinusDaysDefined(d: Date, n: nat)
    requires ValidDate(d) && n <= DayNumber(d)
    ensures MinusDays(d, n).Some?
  {
    MinusDaysNumber(d, n);
  }

  // ---------------------------------------------------------------------
  // `strftime('%Y%m%d')` and `strftime('%Y-%m-%d')`
  // ---------------------------------------------------------------------

  /** `%Y%m%d`: four-digit year, two-digit month and day, no separators. */
  function FormatYmd(d: Date): (r: string)
    requires ValidDate(d)
    ensures |r| == 8 && forall k :: 0 <= k < 8 ==> IsDigit(r[k])
  {
    DecimalWidth(d.year, 4);
    DecimalWidth(d.month, 2);
    DecimalWidth(d.day, 2);
    Decimal(d.year, 4) + Decimal(d.month, 2) + Decimal(d.day, 2)
  }

  /** `%Y-%m-%d`. */
  function FormatIso(d: Date): (r: string)
    requires ValidDate(d)
    ensures |r| == 10 && r[4] == '-' && r[7] == '-'
  {
    DecimalWidth(d.year, 4);
    DecimalWidth(d.month, 2);
    DecimalWidth(d.day, 2);
    Decimal(d.year, 4) + "-" + Decimal(d.month, 2) + "-" + Decimal(d.day, 2)
  }

  /** Reads eight digits `YYYYMMDD` back into a date, when they name one. */
  function ParseYmd(s: string): (r: Option<Date>)
    ensures r.Some? ==> ValidDate(r.value)
  {
    if |s| == 8 && forall k :: 0 <= k < 8 ==> IsDigit(s[k]) then
      var d := Date(DigitsValue(s[..4]), DigitsValue(s[4..6]), DigitsValue(s[6..]));
      if ValidDate(d) then Some(d) else None
    else None
  }

  /** `%Y%m%d` text determines the date it was made from. */
  lemma FormatParseRoundTrip(d: Date)
    requires ValidDate(d)
    ensures ParseYmd(FormatYmd(d)) == Some(d)
  {
    var y := Decimal(d.year, 4);
    var m := Decimal(d.month, 2);
    var dd := Decimal(d.day, 2);
    var s := FormatYmd(d);
    DecimalWidth(d.year, 4);
    DecimalWidth(d.month, 2);
    DecimalWidth(d.day, 2);
    assert s[..4] == y && s[4..6] == m && s[6..] == dd;
    DecimalValue(d.year, 4);
    DecimalValue(d.month, 2);
    DecimalValue(d.day, 2);
  }

  /** Different dates give different `%Y%m%d` text. */
  lemma FormatYmdInjective(a: Date, b: Date)
    requires ValidDate(a) && ValidDate(b) && FormatYmd(a) == FormatYmd(b)
    ensures a == b
  {
    FormatParseRoundTrip(a);
    FormatParseRoundTrip(b);
  }
}
