/** The visible window and the navigation of the calendar (class
    `CalendarView`): which 42 dates the grid shows for a month, how each
    cell is shaded, and how the anchor date moves by months and years. */
module CalendarView {
  import opened Outcomes
  import opened Dates
  import EventManager

  /** Six weeks of seven days. */
  const WindowSize: nat := 42

  /** `calendar.monthrange(y, m)[0]`: the weekday of the first of the month, Monday 0. */
  function FirstWeekday(y: int, m: int): int
    requires 1 <= m <= 12
  {
    Weekday(Date(y, m, 1))
  }

  /** Days shown before the first of the month, so that every row starts on a Sunday. */
  function LeadingDays(y: int, m: int): (k: int)
    requires 1 <= m <= 12
    ensures 0 <= k <= 6
  {
    SundayStart(Ordinal(Date(y, m, 1)));
    (FirstWeekday(y, m) + 1) % 7
  }

  /** Stepping back `(weekday + 1) % 7` days from any day number lands on a Sunday. */
  lemma SundayStart(o: int)
    ensures 0 <= ((o + 6) % 7 + 1) % 7 <= 6
    ensures (o - ((o + 6) % 7 + 1) % 7 + 6) % 7 == 6
  {
    var w := (o + 6) % 7;
    var q := (o + 6) / 7;
    assert o + 6 == 7 * q + w;
    if w == 6 {
      assert (w + 1) % 7 == 0;
    } else {
      assert (w + 1) % 7 == w + 1;
      assert o - (w + 1) + 6 == 7 * (q - 1) + 6;
    }
  }

  /** A date `((o + 6) % 7 + 1) % 7` days before day number `o` is a Sunday. */
  lemma SundayBefore(o: int, d: Date)
    requires Valid(d)
    requires Ordinal(d) == o - ((o + 6) % 7 + 1) % 7
    ensures Weekday(d) == 6
  {
    SundayStart(o);
  }

  /** Weekdays advance by one per day. */
  lemma WeekdayAfterSunday(o: int, i: int)
    requires (o + 6) % 7 == 6
    ensures (o + i + 6) % 7 == (i + 6) % 7
  {
    var q := (o + 6) / 7;
    assert o + 6 == 7 * q + 6;
    assert o + i + 6 == 7 * q + (i + 6);
  }

  // ---------------------------------------------------------------------
  // The window

  /** The cell loop of `fill_calendar` from `current`: each of `n` cells takes
      the current date and then steps it with a checked `+ timedelta(days=1)`. */
  function WalkCells(current: Date, n: nat): (r: Result<seq<Date>>)
    requires InRange(current)
    ensures r.Ok? <==> Ordinal(current) + n <= MaxOrdinal
    ensures r.Ok? ==> r.value == DaysFrom(current, n)
    ensures r.Err? ==> r.error == DateOverflow
    decreases n
  {
    if n == 0 then Ok([])
    else
      PyNextDay(current);
      InRangeIffOrdinal(current);
      match PyAddDays(current, 1)
      case Err(e) => Err(e)
      case Ok(next) =>
        match WalkCells(next, n - 1)
        case Err(e) => Err(e)
        case Ok(rest) => Ok([current] + rest)
  }

  /** The dates `fill_calendar` assigns to the 42 cells for month `m` of year `y`,
      or the OverflowError it raises at the two ends of Python's date range. */
  function Window(y: int, m: int): Result<seq<Date>>
    requires MinYear <= y <= MaxYear && 1 <= m <= 12
  {
    match PyAddDays(Date(y, m, 1), -LeadingDays(y, m))
    case Err(e) => Err(e)
    case Ok(start) => WalkCells(start, WindowSize)
  }

  /** When the window exists, it is the run of 42 days from the checked start. */
  lemma WindowIsRun(y: int, m: int)
    requires MinYear <= y <= MaxYear && 1 <= m <= 12
    requires Window(y, m).Ok?
    ensures PyAddDays(Date(y, m, 1), -LeadingDays(y, m)).Ok?
    ensures Window(y, m).value == DaysFrom(PyAddDays(Date(y, m, 1), -LeadingDays(y, m)).value, WindowSize)
  {
  }

  /** Stepping back `(weekday + 1) % 7` days from any date lands on a Sunday. */
  lemma StepBackLandsOnSunday(first: Date, lead: int, start: Date)
    requires Valid(first) && Valid(start)
    requires lead == (Weekday(first) + 1) % 7
    requires Ordinal(start) == Ordinal(first) - lead
    ensures Weekday(start) == 6
  {
    var o := Ordinal(first);
    WeekdayOfOrdinal(first, o);
    SundayBefore(o, start);
  }

  /** The first cell of the window is a Sunday. */
  lemma WindowStartsOnSunday(y: int, m: int)
    requires 1 <= m <= 12
    requires PyAddDays(Date(y, m, 1), -LeadingDays(y, m)).Ok?
    ensures Weekday(PyAddDays(Date(y, m, 1), -LeadingDays(y, m)).value) == 6
  {
    StepBackLandsOnSunday(Date(y, m, 1), LeadingDays(y, m), PyAddDays(Date(y, m, 1), -LeadingDays(y, m)).value);
  }

  /** A run that starts on a Sunday has day `i` on weekday `(i + 6) % 7`. */
  lemma RunWeekdays(start: Date, n: nat)
    requires Valid(start) && Weekday(start) == 6
    ensures forall i :: 0 <= i < n ==> Weekday(DaysFrom(start, n)[i]) == (i + 6) % 7
  {
    var w := DaysFrom(start, n);
    forall i | 0 <= i < n
      ensures Weekday(w[i]) == (i + 6) % 7
    {
      WeekdayAfterSunday(Ordinal(start), i);
    }
  }

  /** A run that reaches the first of a month `lead` days in holds day `d` of that
      month at position `lead + d - 1`, as long as the month fits. */
  lemma RunHoldsMonth(start: Date, n: nat, y: int, m: int, lead: int)
    requires Valid(start) && 1 <= m <= 12
    requires 0 <= lead && lead + DaysInMonth(y, m) <= n
    requires Ordinal(start) + lead == Ordinal(Date(y, m, 1))
    ensures forall d :: 1 <= d <= DaysInMonth(y, m) ==> DaysFrom(start, n)[lead + d - 1] == Date(y, m, d)
  {
    var w := DaysFrom(start, n);
    forall d | 1 <= d <= DaysInMonth(y, m)
      ensures w[lead + d - 1] == Date(y, m, d)
    {
      OrdinalInjective(w[lead + d - 1], Date(y, m, d));
    }
  }

  /** The window is 42 consecutive days, the first of the month `LeadingDays` cells in. */
  lemma WindowCells(y: int, m: int)
    requires MinYear <= y <= MaxYear && 1 <= m <= 12
    requires (y, m) != (MinYear, 1) && (y, m) != (MaxYear, 12)
    ensures Window(y, m).Ok? && |Window(y, m).value| == WindowSize
    ensures forall i :: 0 <= i < WindowSize ==>
      && Valid(Window(y, m).value[i])
      && Ordinal(Window(y, m).value[i]) == Ordinal(Date(y, m, 1)) - LeadingDays(y, m) + i
  {
    InnerMonthFits(y, m);
    WindowIsRun(y, m);
  }

  /** The window is six weeks that each run from Sunday to Saturday. */
  lemma WindowWeekdays(y: int, m: int)
    requires MinYear <= y <= MaxYear && 1 <= m <= 12
    requires (y, m) != (MinYear, 1) && (y, m) != (MaxYear, 12)
    ensures Window(y, m).Ok? && |Window(y, m).value| == WindowSize
    ensures forall i :: 0 <= i < WindowSize ==>
      Valid(Window(y, m).value[i]) && Weekday(Window(y, m).value[i]) == (i + 6) % 7
  {
    InnerMonthFits(y, m);
    WindowIsRun(y, m);
    WindowStartsOnSunday(y, m);
    RunWeekdays(PyAddDays(Date(y, m, 1), -LeadingDays(y, m)).value, WindowSize);
  }

  /** Day `d` of the displayed month sits in cell `LeadingDays + d - 1`. */
  lemma WindowHoldsMonth(y: int, m: int)
    requires MinYear <= y <= MaxYear && 1 <= m <= 12
    requires (y, m) != (MinYear, 1) && (y, m) != (MaxYear, 12)
    ensures Window(y, m).Ok? && |Window(y, m).value| == WindowSize
    ensures forall d :: 1 <= d <= DaysInMonth(y, m) ==>
      Window(y, m).value[LeadingDays(y, m) + d - 1] == Date(y, m, d)
  {
    InnerMonthFits(y, m);
    WindowIsRun(y, m);
    RunHoldsMonth(PyAddDays(Date(y, m, 1), -LeadingDays(y, m)).value, WindowSize, y, m, LeadingDays(y, m));
  }

  lemma OrdinalJanuaryOfYearOne()
    ensures Ordinal(Date(MinYear, 1, 1)) == 1
  {
  }

  lemma OrdinalFebruaryOfYearOne()
    ensures Ordinal(Date(MinYear, 2, 1)) == 32
  {
  }

  lemma OrdinalNovemberOfLastYear()
    ensures Ordinal(Date(MaxYear, 11, 1)) == MaxOrdinal - 60
  {
    assert DaysBeforeYear(MaxYear) == 3651694;
    assert DaysBeforeMonth(MaxYear, 11) == 304;
  }

  lemma OrdinalDecemberOfLastYear()
    ensures Ordinal(Date(MaxYear, 12, 1)) == MaxOrdinal - 30
  {
    assert DaysBeforeYear(MaxYear) == 3651694;
    assert DaysBeforeMonth(MaxYear, 12) == 334;
  }

  /** Only January of year 1 starts fewer than 32 days into Python's range. */
  lemma FirstOrdinalLow(y: int, m: int)
    requires MinYear <= y <= MaxYear && 1 <= m <= 12
    ensures (y, m) == (MinYear, 1) ==> Ordinal(Date(y, m, 1)) == 1
    ensures (y, m) != (MinYear, 1) ==> Ordinal(Date(y, m, 1)) >= 32
  {
    if (y, m) == (MinYear, 1) {
      OrdinalJanuaryOfYearOne();
    } else {
      assert !Before(Date(y, m, 1), Date(MinYear, 2, 1));
      OrdinalFebruaryOfYearOne();
      BeforeIffOrdinal(Date(y, m, 1), Date(MinYear, 2, 1));
    }
  }

  /** Only December of year 9999 starts fewer than 61 days before its end. */
  lemma FirstOrdinalHigh(y: int, m: int)
    requires MinYear <= y <= MaxYear && 1 <= m <= 12
    ensures (y, m) == (MaxYear, 12) ==> Ordinal(Date(y, m, 1)) == MaxOrdinal - 30
    ensures (y, m) != (MaxYear, 12) ==> Ordinal(Date(y, m, 1)) <= MaxOrdinal - 60
  {
    if (y, m) == (MaxYear, 12) {
      OrdinalDecemberOfLastYear();
    } else {
      assert !Before(Date(MaxYear, 11, 1), Date(y, m, 1));
      OrdinalNovemberOfLastYear();
      BeforeIffOrdinal(Date(MaxYear, 11, 1), Date(y, m, 1));
    }
  }

  /** Day 1 of the proleptic Gregorian calendar is a Monday. */
  lemma DayOneIsMonday(d: Date)
    requires Valid(d) && Ordinal(d) == 1
    ensures Weekday(d) == 0
  {
    WeekdayOfOrdinal(d, 1);
  }

  /** The weekday depends on the day number alone. */
  lemma WeekdayOfOrdinal(d: Date, o: int)
    requires Valid(d) && Ordinal(d) == o
    ensures Weekday(d) == (o + 6) % 7
  {
  }

  /** A month that starts on a Monday shows one leading day. */
  lemma MondayStartLeadsOneDay(y: int, m: int)
    requires 1 <= m <= 12 && Weekday(Date(y, m, 1)) == 0
    ensures LeadingDays(y, m) == 1
  {
  }

  /** The grid fails when the step back to Sunday leaves Python's range. */
  lemma StartBeforeRangeOverflows(y: int, m: int)
    requires MinYear <= y <= MaxYear && 1 <= m <= 12
    requires Ordinal(Date(y, m, 1)) - LeadingDays(y, m) <= 0
    ensures Window(y, m).Err?
  {
  }

  /** A month whose first day is day 1 cannot step back to its Sunday. */
  lemma DayOneMonthOverflows(y: int, m: int)
    requires MinYear <= y <= MaxYear && 1 <= m <= 12
    requires Ordinal(Date(y, m, 1)) == 1
    ensures Window(y, m).Err?
  {
    DayOneIsMonday(Date(y, m, 1));
    MondayStartLeadsOneDay(y, m);
    StartBeforeRangeOverflows(y, m);
  }

  /** Stepping back from 0001-01-01 to the Sunday before it overflows. */
  lemma FirstMonthOverflows(y: int, m: int)
    requires (y, m) == (MinYear, 1)
    ensures Window(y, m).Err?
  {
    FirstOrdinalLow(y, m);
    DayOneMonthOverflows(y, m);
  }

  /** The six weeks shown for December 9999 run past 9999-12-31. */
  lemma LastMonthOverflows(y: int, m: int)
    requires (y, m) == (MaxYear, 12)
    ensures Window(y, m).Err?
  {
    FirstOrdinalHigh(y, m);
    assert PyAddDays(Date(y, m, 1), -LeadingDays(y, m)).Ok?;
  }

  /** Every other month has room for its six weeks. */
  lemma InnerMonthFits(y: int, m: int)
    requires MinYear <= y <= MaxYear && 1 <= m <= 12
    requires (y, m) != (MinYear, 1) && (y, m) != (MaxYear, 12)
    ensures Window(y, m).Ok?
  {
    FirstOrdinalLow(y, m);
    FirstOrdinalHigh(y, m);
    assert PyAddDays(Date(y, m, 1), -LeadingDays(y, m)).Ok?;
  }

  /** `fill_calendar` raises only for January of year 1 and December of year 9999. */
  lemma WindowFailsOnlyAtRangeEnds(y: int, m: int)
    requires MinYear <= y <= MaxYear && 1 <= m <= 12
    ensures Window(y, m).Err? <==> (y, m) == (MinYear, 1) || (y, m) == (MaxYear, 12)
  {
    if (y, m) == (MinYear, 1) {
      FirstMonthOverflows(y, m);
    } else if (y, m) == (MaxYear, 12) {
      LastMonthOverflows(y, m);
    } else {
      InnerMonthFits(y, m);
    }
  }

  // ---------------------------------------------------------------------
  // The cells

  /** How `fill_calendar` colours a cell. */
  datatype Shade = Disabled | Today | Plain

  /** The shade of the cell showing `d` while month `m` of year `y` is displayed. */
  function CellShade(d: Date, y: int, m: int, today: Date): (sh: Shade)
    requires Valid(d) && 1 <= m <= 12
    ensures sh == Disabled <==> d.year != y || d.month != m
    ensures sh == Today <==> d.year == y && d.month == m && d == today
  {
    var first := Date(y, m, 1);
    var last := Date(y, m, DaysInMonth(y, m));
    if Before(d, first) || Before(last, d) then Disabled
    else if d == today then Today
    else Plain
  }

  datatype Cell = Cell(date: Date, shade: Shade, events: EventManager.RenderPlan)

  /** One iteration of the cell loop: the date, its shade and its events. */
  function CellFor(d: Date, y: int, m: int, today: Date, store: EventManager.Store): Cell
    requires Valid(d) && 1 <= m <= 12
  {
    Cell(d, CellShade(d, y, m, today), EventManager.RenderEvents(store, Some(d), m, y))
  }

  /** When the window exists it holds 42 real dates. */
  lemma WindowValid(y: int, m: int)
    requires MinYear <= y <= MaxYear && 1 <= m <= 12
    requires Window(y, m).Ok?
    ensures |Window(y, m).value| == WindowSize
    ensures forall i :: 0 <= i < WindowSize ==> Valid(Window(y, m).value[i])
  {
    WindowIsRun(y, m);
  }

  /** `fill_calendar`: every cell gets its date, its shade and its events. */
  function FillCalendar(y: int, m: int, today: Date, store: EventManager.Store): (r: Result<seq<Cell>>)
    requires MinYear <= y <= MaxYear && 1 <= m <= 12
    ensures r.Ok? <==> Window(y, m).Ok?
    ensures r.Ok? ==> |r.value| == WindowSize
    ensures r.Ok? ==> forall i :: 0 <= i < WindowSize ==> r.value[i].date == Window(y, m).value[i]
  {
    match Window(y, m)
    case Err(e) => Err(e)
    case Ok(dates) =>
      WindowValid(y, m);
      Ok(seq(WindowSize, i requires 0 <= i < WindowSize => CellFor(dates[i], y, m, today, store)))
  }

  /** Exactly the cells of the displayed month are enabled; only they show events,
      and each of them shows every event stored on its date. */
  lemma FillCalendarCells(y: int, m: int, today: Date, store: EventManager.Store)
    requires MinYear <= y <= MaxYear && 1 <= m <= 12
    requires (y, m) != (MinYear, 1) && (y, m) != (MaxYear, 12)
    ensures FillCalendar(y, m, today, store).Ok?
    ensures forall i :: 0 <= i < WindowSize ==>
      var c := FillCalendar(y, m, today, store).value[i];
      && (c.shade != Disabled <==> LeadingDays(y, m) <= i < LeadingDays(y, m) + DaysInMonth(y, m))
      && (c.shade == Disabled <==> c.date.year != y || c.date.month != m)
      && (c.events.Untouched? <==> c.shade == Disabled)
      && (c.events.Shown? ==> |c.events.buttons| == |EventManager.GetEvents(store, c.date)|)
      && (c.shade == Today <==> c.shade != Disabled && c.date == today)
  {
    InnerMonthFits(y, m);
    var cells := FillCalendar(y, m, today, store).value;
    var w := Window(y, m).value;
    var lead := LeadingDays(y, m);
    var first := Date(y, m, 1);
    var last := Date(y, m, DaysInMonth(y, m));
    WindowCells(y, m);
    WindowHoldsMonth(y, m);
    assert Ordinal(last) == Ordinal(first) + DaysInMonth(y, m) - 1;
    forall i | 0 <= i < WindowSize
      ensures cells[i].shade != Disabled <==> lead <= i < lead + DaysInMonth(y, m)
    {
      BeforeIffOrdinal(w[i], first);
      BeforeIffOrdinal(last, w[i]);
    }
  }

  // ---------------------------------------------------------------------
  // Navigation

  /** The widget's anchor date and the month and year it displays. */
  datatype Nav = Nav(current: Date, month: int, year: int)

  /** `current_month` and `current_year` are those of a date Python can hold. */
  predicate NavInv(n: Nav) {
    InRange(n.current) && n.month == n.current.month && n.year == n.current.year
  }

  /** The widget starts on `datetime.date.today()`. */
  function InitNav(today: Date): (n: Nav)
    requires InRange(today)
    ensures NavInv(n) && n.current == today
  {
    Nav(today, today.month, today.year)
  }

  /** Months since January of year 0: the order in which months follow each other. */
  function MonthIndex(d: Date): int {
    12 * d.year + d.month - 1
  }

  function Min(a: int, b: int): int {
    if a <= b then a else b
  }

  /** `relativedelta(months=k)` after its normalisation: at most eleven months,
      the rest carried into years with the sign of `k`. */
  function NormalizeMonths(k: int): (r: (int, int))
    ensures -11 <= r.1 <= 11
    ensures 12 * r.0 + r.1 == k
  {
    if k > 11 || k < -11 then
      var sign := if k > 0 then 1 else -1;
      var div, mod := (k * sign) / 12, (k * sign) % 12;
      (div * sign, mod * sign)
    else
      (0, k)
  }

  /** `d + relativedelta(months=k)`: roll the month over into the year, clamp the day
      to the length of the target month, and raise if the year leaves 1..9999. */
  function AddMonths(d: Date, k: int): (r: Result<Date>)
    requires Valid(d)
    ensures r.Ok? <==> MinYear <= (MonthIndex(d) + k) / 12 <= MaxYear
    ensures r.Ok? ==> InRange(r.value) && MonthIndex(r.value) == MonthIndex(d) + k
    ensures r.Ok? ==> r.value.day == Min(d.day, DaysInMonth(r.value.year, r.value.month))
    ensures r.Err? ==> r.error == YearOutOfRange
  {
    var (years, months) := NormalizeMonths(k);
    var year := d.year + years;
    var month := d.month + months;
    var (y, m) :=
      if months == 0 then (year, d.month)
      else if month > 12 then (year + 1, month - 12)
      else if month < 1 then (year - 1, month + 12)
      else (year, month);
    assert 12 * y + m - 1 == MonthIndex(d) + k && 1 <= m <= 12;
    assert y == (MonthIndex(d) + k) / 12;
    if MinYear <= y <= MaxYear then Ok(Date(y, m, Min(DaysInMonth(y, m), d.day)))
    else Err(YearOutOfRange)
  }

  /** `d + relativedelta(years=k)`: same month, day clamped to the target month. */
  function AddYears(d: Date, k: int): (r: Result<Date>)
    requires Valid(d)
    ensures r.Ok? <==> MinYear <= d.year + k <= MaxYear
    ensures r.Ok? ==> InRange(r.value) && r.value.year == d.year + k && r.value.month == d.month
    ensures r.Ok? ==> r.value.day == if d.month == 2 && d.day == 29 && !IsLeap(d.year + k) then 28 else d.day
    ensures r.Err? ==> r.error == YearOutOfRange
  {
    var y := d.year + k;
    if MinYear <= y <= MaxYear then Ok(Date(y, d.month, Min(DaysInMonth(y, d.month), d.day)))
    else Err(YearOutOfRange)
  }

  /** Twelve months forward is one year forward. */
  lemma TwelveMonthsIsOneYear(d: Date, k: int)
    requires Valid(d)
    ensures AddMonths(d, 12 * k) == AddYears(d, k)
  {
    var r := AddMonths(d, 12 * k);
    assert (MonthIndex(d) + 12 * k) / 12 == d.year + k;
    if r.Ok? {
      assert r.value.year == d.year + k && r.value.month == d.month;
    }
  }

  /** `change_month`: move the anchor, then take the month and year from it.
      On an error the widget keeps its state, as the raised exception leaves it. */
  function ChangeMonth(n: Nav, k: int): (r: Result<Nav>)
    requires NavInv(n)
    ensures r.Ok? ==> NavInv(r.value) && MonthIndex(r.value.current) == MonthIndex(n.current) + k
    ensures r.Ok? <==> MinYear <= (MonthIndex(n.current) + k) / 12 <= MaxYear
  {
    match AddMonths(n.current, k)
    case Err(e) => Err(e)
    case Ok(d) => Ok(Nav(d, d.month, d.year))
  }

  /** `change_year`: move the anchor by whole years, keeping the month. */
  function ChangeYear(n: Nav, k: int): (r: Result<Nav>)
    requires NavInv(n)
    ensures r.Ok? ==> NavInv(r.value) && r.value.month == n.month && r.value.year == n.year + k
    ensures r.Ok? <==> MinYear <= n.year + k <= MaxYear
  {
    match AddYears(n.current, k)
    case Err(e) => Err(e)
    case Ok(d) => Ok(Nav(d, d.month, d.year))
  }

  /** Going `k` months forward and back returns to the same month; the day can
      only have been clamped down on the way. */
  lemma ChangeMonthRoundTrip(n: Nav, k: int)
    requires NavInv(n)
    requires ChangeMonth(n, k).Ok?
    ensures ChangeMonth(ChangeMonth(n, k).value, -k).Ok?
    ensures var back := ChangeMonth(ChangeMonth(n, k).value, -k).value;
      back.month == n.month && back.year == n.year && back.current.day <= n.current.day
  {
    var there := ChangeMonth(n, k).value;
    var back := ChangeMonth(there, -k);
    assert MonthIndex(there.current) - k == MonthIndex(n.current);
    assert (MonthIndex(n.current)) / 12 == n.year;
    if back.Ok? {
      var b := back.value.current;
      assert MonthIndex(b) == MonthIndex(n.current);
      assert b.year == n.year && b.month == n.month;
    }
  }
}
