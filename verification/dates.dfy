/** A model of the part of Python's `datetime.date` the calendar relies on:
    the proleptic Gregorian calendar, the day number `toordinal()`, the
    weekday, chronological comparison and the range-checked
    `date + timedelta(days=k)`.

    Calendar arithmetic here (`NextDay`, `PrevDay`, `Shift`) is unbounded;
    Python's restriction to years 1..9999 is the predicate `InRange`, and
    the operations that Python checks against it return a `Result`. */
module Dates {
  import opened Outcomes

  datatype Date = Date(year: int, month: int, day: int)

  const MinYear: int := 1
  const MaxYear: int := 9999

  /** `toordinal()` of 9999-12-31, the largest day number Python accepts. */
  const MaxOrdinal: int := 3652059

  const MinDate: Date := Date(MinYear, 1, 1)
  const MaxDate: Date := Date(MaxYear, 12, 31)

  predicate IsLeap(y: int) {
    y % 4 == 0 && (y % 100 != 0 || y % 400 == 0)
  }

  function DaysInYear(y: int): int {
    if IsLeap(y) then 366 else 365
  }

  function DaysInMonth(y: int, m: int): (n: int)
    requires 1 <= m <= 12
    ensures 28 <= n <= 31
    ensures n == 29 <==> m == 2 && IsLeap(y)
  {
    if m == 2 then (if IsLeap(y) then 29 else 28)
    else if m == 4 || m == 6 || m == 9 || m == 11 then 30
    else 31
  }

  /** A real calendar day, in any year. */
  predicate Valid(d: Date) {
    1 <= d.month <= 12 && 1 <= d.day <= DaysInMonth(d.year, d.month)
  }

  /** A value Python's `datetime.date` can hold. */
  predicate InRange(d: Date) {
    Valid(d) && MinYear <= d.year <= MaxYear
  }

  /** Number of days in the years before year `y` (Python's `_days_before_year`). */
  function DaysBeforeYear(y: int): int {
    var p := y - 1;
    365 * p + p / 4 - p / 100 + p / 400
  }

  /** Number of days in year `y` before the first of month `m`. */
  function DaysBeforeMonth(y: int, m: int): int
    requires 1 <= m <= 12
  {
    var common := [0, 31, 59, 90, 120, 151, 181, 212, 243, 273, 304, 334];
    common[m - 1] + (if m > 2 && IsLeap(y) then 1 else 0)
  }

  /** The day number of `d`; 0001-01-01 is day 1 (Python's `toordinal()`). */
  function Ordinal(d: Date): int
    requires Valid(d)
  {
    DaysBeforeYear(d.year) + DaysBeforeMonth(d.year, d.month) + d.day
  }

  /** Monday is 0 and Sunday is 6 (Python's `weekday()`). */
  function Weekday(d: Date): (w: int)
    requires Valid(d)
    ensures 0 <= w < 7
  {
    (Ordinal(d) + 6) % 7
  }

  /** Chronological order as Python compares dates: by year, then month, then day. */
  predicate Before(a: Date, b: Date) {
    a.year < b.year
    || (a.year == b.year && (a.month < b.month || (a.month == b.month && a.day < b.day)))
  }

  /** Whether `d` lies in the inclusive span from `first` to `last`. */
  predicate InSpan(d: Date, first: Date, last: Date) {
    Valid(d) && !Before(d, first) && !Before(last, d)
  }

  // ---------------------------------------------------------------------
  // Day-number arithmetic

  /** `(p + 1) / k` exceeds `p / k` by one exactly when `k` divides `p + 1`. */
  lemma DivStep(p: int, k: int)
    requires k == 4 || k == 100 || k == 400
    ensures (p + 1) / k - p / k == (if (p + 1) % k == 0 then 1 else 0)
  {
    var q, r := p / k, p % k;
    assert p == k * q + r && 0 <= r < k;
    if r == k - 1 {
      assert p + 1 == k * (q + 1) + 0;
    } else {
      assert p + 1 == k * q + (r + 1);
    }
  }

  lemma DaysBeforeNextYear(y: int)
    ensures DaysBeforeYear(y + 1) == DaysBeforeYear(y) + DaysInYear(y)
  {
    var p := y - 1;
    DivStep(p, 4);
    DivStep(p, 100);
    DivStep(p, 400);
    if y % 400 == 0 {
      assert y == 400 * (y / 400);
      assert y % 100 == 0 && y % 4 == 0;
    } else if y % 100 == 0 {
      assert y == 100 * (y / 100);
      assert y % 4 == 0;
    }
  }

  lemma DaysBeforeMonthStep(y: int, m: int)
    requires 1 <= m < 12
    ensures DaysBeforeMonth(y, m + 1) == DaysBeforeMonth(y, m) + DaysInMonth(y, m)
  {
  }

  lemma DaysBeforeDecember(y: int)
    ensures DaysBeforeMonth(y, 12) + DaysInMonth(y, 12) == DaysInYear(y)
  {
  }

  /** The day after `d`. */
  function NextDay(d: Date): (r: Date)
    requires Valid(d)
    ensures Valid(r) && Ordinal(r) == Ordinal(d) + 1
    ensures Before(d, r)
  {
    if d.day < DaysInMonth(d.year, d.month) then
      Date(d.year, d.month, d.day + 1)
    else if d.month < 12 then
      DaysBeforeMonthStep(d.year, d.month);
      Date(d.year, d.month + 1, 1)
    else
      DaysBeforeDecember(d.year);
      DaysBeforeNextYear(d.year);
      Date(d.year + 1, 1, 1)
  }

  /** The day before `d`. */
  function PrevDay(d: Date): (r: Date)
    requires Valid(d)
    ensures Valid(r) && Ordinal(r) == Ordinal(d) - 1
    ensures Before(r, d)
  {
    if d.day > 1 then
      Date(d.year, d.month, d.day - 1)
    else if d.month > 1 then
      DaysBeforeMonthStep(d.year, d.month - 1);
      Date(d.year, d.month - 1, DaysInMonth(d.year, d.month - 1))
    else
      DaysBeforeDecember(d.year - 1);
      DaysBeforeNextYear(d.year - 1);
      Date(d.year - 1, 12, 31)
  }

  /** The date `k` days after `d` (before it when `k` is negative). */
  function Shift(d: Date, k: int): (r: Date)
    requires Valid(d)
    ensures Valid(r) && Ordinal(r) == Ordinal(d) + k
    decreases if k < 0 then -k else k
  {
    if k == 0 then d
    else if k > 0 then Shift(NextDay(d), k - 1)
    else Shift(PrevDay(d), k + 1)
  }

  // ---------------------------------------------------------------------
  // Order and the day number

  lemma {:induction false} DaysBeforeYearGrows(y1: int, y2: int)
    requires y1 <= y2
    ensures DaysBeforeYear(y1) + 365 * (y2 - y1) <= DaysBeforeYear(y2)
    decreases y2 - y1
  {
    if y1 < y2 {
      DaysBeforeYearGrows(y1, y2 - 1);
      DaysBeforeNextYear(y2 - 1);
    }
  }

  lemma {:induction false} DaysBeforeMonthGrows(y: int, m1: int, m2: int)
    requires 1 <= m1 < m2 <= 12
    ensures DaysBeforeMonth(y, m1) + DaysInMonth(y, m1) <= DaysBeforeMonth(y, m2)
    decreases m2 - m1
  {
    DaysBeforeMonthStep(y, m1);
    if m1 + 1 < m2 {
      DaysBeforeMonthGrows(y, m1 + 1, m2);
    }
  }

  /** Every day of year `y` has a day number inside that year. */
  lemma OrdinalWithinYear(d: Date)
    requires Valid(d)
    ensures DaysBeforeYear(d.year) < Ordinal(d) <= DaysBeforeYear(d.year) + DaysInYear(d.year)
  {
    if d.month < 12 {
      DaysBeforeMonthGrows(d.year, d.month, 12);
    }
    DaysBeforeDecember(d.year);
  }

  /** A date of an earlier year has a smaller day number. */
  lemma EarlierYearSmallerOrdinal(a: Date, b: Date)
    requires Valid(a) && Valid(b) && a.year < b.year
    ensures Ordinal(a) < Ordinal(b)
  {
    OrdinalWithinYear(a);
    OrdinalWithinYear(b);
    DaysBeforeNextYear(a.year);
    DaysBeforeYearGrows(a.year + 1, b.year);
  }

  /** A date of an earlier month of the same year has a smaller day number. */
  lemma EarlierMonthSmallerOrdinal(a: Date, b: Date)
    requires Valid(a) && Valid(b) && a.year == b.year && a.month < b.month
    ensures Ordinal(a) < Ordinal(b)
  {
    DaysBeforeMonthGrows(a.year, a.month, b.month);
  }

  /** Chronological order and day-number order agree on real dates. */
  lemma BeforeIffOrdinal(a: Date, b: Date)
    requires Valid(a) && Valid(b)
    ensures Before(a, b) <==> Ordinal(a) < Ordinal(b)
  {
    if a.year < b.year {
      EarlierYearSmallerOrdinal(a, b);
    } else if b.year < a.year {
      EarlierYearSmallerOrdinal(b, a);
    } else if a.month < b.month {
      EarlierMonthSmallerOrdinal(a, b);
    } else if b.month < a.month {
      EarlierMonthSmallerOrdinal(b, a);
    }
  }

  /** Two real dates with the same day number are the same date. */
  lemma OrdinalInjective(a: Date, b: Date)
    requires Valid(a) && Valid(b)
    requires Ordinal(a) == Ordinal(b)
    ensures a == b
  {
    BeforeIffOrdinal(a, b);
    BeforeIffOrdinal(b, a);
  }

  lemma EdgeYears()
    ensures DaysBeforeYear(MinYear) == 0
    ensures DaysBeforeYear(MaxYear + 1) == MaxOrdinal
  {
  }

  /** Python's date range is exactly the day numbers 1..MaxOrdinal. */
  lemma InRangeIffOrdinal(d: Date)
    requires Valid(d)
    ensures InRange(d) <==> 1 <= Ordinal(d) <= MaxOrdinal
  {
    var y := d.year;
    EdgeYears();
    OrdinalWithinYear(d);
    DaysBeforeNextYear(y);
    if y < MinYear {
      DaysBeforeYearGrows(y + 1, MinYear);
    } else {
      DaysBeforeYearGrows(MinYear, y);
    }
    if y <= MaxYear {
      DaysBeforeYearGrows(y + 1, MaxYear + 1);
    } else {
      DaysBeforeYearGrows(MaxYear + 1, y);
    }
  }

  /** No real date lies strictly between `c` and the day after it. */
  lemma BeforeNextDay(d: Date, c: Date)
    requires Valid(d) && Valid(c)
    ensures Before(d, NextDay(c)) <==> Before(d, c) || d == c
  {
    BeforeIffOrdinal(d, NextDay(c));
    BeforeIffOrdinal(d, c);
    if Ordinal(d) == Ordinal(c) {
      OrdinalInjective(d, c);
    }
  }

  // ---------------------------------------------------------------------
  // Python's checked date arithmetic

  /** `d + timedelta(days=k)`: the date whose day number is `toordinal() + k`,
      or OverflowError when that day number is outside 1..MaxOrdinal. */
  function PyAddDays(d: Date, k: int): (r: Result<Date>)
    requires Valid(d)
    ensures r.Ok? <==> 0 < Ordinal(d) + k <= MaxOrdinal
    ensures r.Ok? ==> InRange(r.value) && Ordinal(r.value) == Ordinal(d) + k
    ensures r.Err? ==> r.error == DateOverflow
  {
    var shifted := Shift(d, k);
    InRangeIffOrdinal(shifted);
    if 0 < Ordinal(d) + k <= MaxOrdinal then Ok(shifted) else Err(DateOverflow)
  }

  /** Stepping one day forward fails only from the last date Python can hold. */
  lemma PyNextDay(d: Date)
    requires InRange(d)
    ensures PyAddDays(d, 1) == if d == MaxDate then Err(DateOverflow) else Ok(NextDay(d))
  {
    InRangeIffOrdinal(d);
    InRangeIffOrdinal(NextDay(d));
    if d != MaxDate && Ordinal(d) == MaxOrdinal {
      OrdinalInjective(d, MaxDate);
    }
  }

  // ---------------------------------------------------------------------
  // Runs of consecutive days

  /** The `n` consecutive dates starting at `d`. */
  function DaysFrom(d: Date, n: nat): (r: seq<Date>)
    requires Valid(d)
    ensures |r| == n
    ensures forall i :: 0 <= i < n ==> Valid(r[i]) && Ordinal(r[i]) == Ordinal(d) + i
    decreases n
  {
    if n == 0 then []
    else
      var rest := DaysFrom(NextDay(d), n - 1);
      assert forall i :: 1 <= i < n ==> ([d] + rest)[i] == rest[i - 1];
      [d] + rest
  }

  /** A span of one day holds that day only. */
  lemma SpanOfOneDay(c: Date)
    requires Valid(c)
    ensures forall d :: InSpan(d, c, c) <==> d == c
  {
  }

  /** Peeling the first day off a span leaves the span from the next day. */
  lemma SpanStep(c: Date, last: Date)
    requires Valid(c)
    ensures forall d :: InSpan(d, c, last) <==> (d == c && !Before(last, c)) || InSpan(d, NextDay(c), last)
  {
    forall d | Valid(d)
      ensures InSpan(d, c, last) <==> (d == c && !Before(last, c)) || InSpan(d, NextDay(c), last)
    {
      BeforeNextDay(d, c);
    }
  }
}
