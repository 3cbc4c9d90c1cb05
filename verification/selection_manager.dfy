/** Day selection on the grid (class `SelectionManager`): at most one cell carries
    the thick border, and a click on a day of the displayed month toggles it. */
module SelectionManager {
  import opened Outcomes
  import opened Dates
  import CalendarView
  import EventManager

  /** Cells are numbered 0..41 in the order `fill_calendar` lays them out. */
  type CellIndex = i: nat | i < CalendarView.WindowSize

  /** Border width of a selected cell and of every other cell. */
  const SelectedBorder: nat := 3
  const PlainBorder: nat := 0

  /** The `is_selected` flag and the configured `border_width` of every cell frame,
      and the manager's `selected_day_frame` reference. */
  datatype Tracker = Tracker(flags: seq<bool>, borders: seq<nat>, selected: Option<CellIndex>)

  /** One flag and one border per cell. */
  predicate Sized(t: Tracker) {
    |t.flags| == CalendarView.WindowSize && |t.borders| == CalendarView.WindowSize
  }

  /** The flagged cells are exactly the one the manager holds, and a frame has the
      thick border exactly when it is flagged. */
  predicate Inv(t: Tracker) {
    && Sized(t)
    && (forall i :: 0 <= i < |t.flags| ==> (t.flags[i] <==> t.selected == Some(i)))
    && (forall i :: 0 <= i < |t.borders| ==> t.borders[i] == if t.flags[i] then SelectedBorder else PlainBorder)
  }

  /** The cells whose frame says it is selected. */
  function Flagged(t: Tracker): set<nat> {
    set i | 0 <= i < |t.flags| && t.flags[i]
  }

  /** The cells whose frame is drawn with the thick border. */
  function Bordered(t: Tracker): set<nat> {
    set i | 0 <= i < |t.borders| && t.borders[i] == SelectedBorder
  }

  /** A new manager over freshly built frames: no frame reference, no frame
      flagged and no border drawn. */
  function Init(): (t: Tracker)
    ensures Inv(t)
    ensures Flagged(t) == {} && Bordered(t) == {} && t.selected == None
  {
    Tracker(seq(CalendarView.WindowSize, _ => false), seq(CalendarView.WindowSize, _ => PlainBorder), None)
  }

  /** `deselect_frame`: remove the border, unflag the frame and drop the reference
      if it is this frame. */
  function Deselect(t: Tracker, i: CellIndex): (r: Tracker)
    requires Sized(t)
    ensures Sized(r)
    ensures Flagged(r) == Flagged(t) - {i}
    ensures Bordered(r) == Bordered(t) - {i}
    ensures r.borders[i] == PlainBorder
    ensures forall j :: 0 <= j < |t.borders| && j != i ==> r.borders[j] == t.borders[j]
    ensures r.selected == if t.selected == Some(i) then None else t.selected
    ensures Inv(t) ==> Inv(r)
    ensures Inv(t) && t.selected == Some(i) ==> Flagged(r) == {} && Bordered(r) == {}
    ensures Inv(t) && t.selected != Some(i) ==> r == t
  {
    Tracker(t.flags[i := false], t.borders[i := PlainBorder], if t.selected == Some(i) then None else t.selected)
  }

  /** `clear_selection`: deselect the held frame, if any. */
  function Clear(t: Tracker): (r: Tracker)
    requires Sized(t)
    ensures Sized(r)
    ensures r.selected == None
    ensures t.selected == None ==> r == t
    ensures t.selected.Some? ==> Flagged(r) == Flagged(t) - {t.selected.value}
    ensures t.selected.Some? ==> Bordered(r) == Bordered(t) - {t.selected.value}
    ensures Inv(t) ==> Inv(r) && Flagged(r) == {} && Bordered(r) == {}
  {
    match t.selected
    case None => t
    case Some(j) => Deselect(t, j).(selected := None)
  }

  /** `select_frame`: clear the old selection, then draw the border, flag and hold
      the new frame. */
  function Select(t: Tracker, i: CellIndex): (r: Tracker)
    requires Sized(t)
    ensures Sized(r)
    ensures r.selected == Some(i)
    ensures r.flags[i] && r.borders[i] == SelectedBorder
    ensures Inv(t) ==> Inv(r) && Flagged(r) == {i} && Bordered(r) == {i}
  {
    var c := Clear(t);
    Tracker(c.flags[i := true], c.borders[i := SelectedBorder], Some(i))
  }

  /** Under the invariant the thick border marks exactly the held frame. */
  lemma BorderMarksSelection(t: Tracker)
    requires Inv(t)
    ensures Bordered(t) == Flagged(t)
    ensures Bordered(t) == if t.selected.Some? then {t.selected.value as nat} else {}
  {
  }

  /** `handle_click` on the frame of cell `i` showing `date` while month `month` of
      year `year` is displayed: returns the new state and the returned date. */
  function HandleClick(t: Tracker, i: CellIndex, date: Option<Date>, month: int, year: int): (r: (Tracker, Option<Date>))
    requires Sized(t)
    ensures date.None? ==> r == (t, None)
    ensures date.Some? && (date.value.month != month || date.value.year != year) ==> r == (t, None)
    ensures r.1.Some? <==> date.Some? && date.value.month == month && date.value.year == year && !t.flags[i]
    ensures r.1.Some? ==> r.1 == date && r.0 == Select(t, i)
    ensures Inv(t) ==> Inv(r.0)
    ensures Inv(t) && date.Some? && date.value.month == month && date.value.year == year && t.flags[i] ==>
      Flagged(r.0) == {} && Bordered(r.0) == {} && r.0.selected == None
  {
    match date
    case None => (t, None)
    case Some(d) =>
      if d.month != month || d.year != year then (t, None)
      else if t.flags[i] then (Deselect(t, i), None)
      else (Select(t, i), Some(d))
  }

  /** Selecting one cell after another leaves only the second selected. */
  lemma SelectIsExclusive(t: Tracker, i: CellIndex, j: CellIndex)
    requires Inv(t)
    ensures Inv(Select(Select(t, i), j))
    ensures Flagged(Select(Select(t, i), j)) == {j}
  {
  }

  /** A click on a day of the displayed month toggles its cell: the first click
      selects it and returns the date, the second clears it and returns nothing. */
  lemma ClickTwiceToggles(t: Tracker, i: CellIndex, d: Date, month: int, year: int)
    requires Inv(t) && !t.flags[i]
    requires d.month == month && d.year == year
    ensures var (t1, r1) := HandleClick(t, i, Some(d), month, year);
      && r1 == Some(d) && Flagged(t1) == {i} && Bordered(t1) == {i}
      && var (t2, r2) := HandleClick(t1, i, Some(d), month, year);
      r2 == None && Flagged(t2) == {} && Bordered(t2) == {} && t2.selected == None
  {
    var t1 := HandleClick(t, i, Some(d), month, year).0;
    assert t1.flags[i] by {
      assert i in Flagged(t1);
    }
  }

  /** A click on a selected cell of the displayed month clears the selection. */
  lemma ClickOnSelectedClears(t: Tracker, i: CellIndex, d: Date, month: int, year: int)
    requires Inv(t) && t.selected == Some(i)
    requires d.month == month && d.year == year
    ensures HandleClick(t, i, Some(d), month, year).1 == None
    ensures Flagged(HandleClick(t, i, Some(d), month, year).0) == {}
  {
  }

  /** The disabled cells of a filled grid ignore clicks: the state is unchanged and
      nothing is returned. */
  lemma ClickOnDisabledCellIgnored(y: int, m: int, today: Date, store: EventManager.Store, t: Tracker, i: CellIndex)
    requires MinYear <= y <= MaxYear && 1 <= m <= 12
    requires (y, m) != (MinYear, 1) && (y, m) != (MaxYear, 12)
    requires Sized(t)
    ensures CalendarView.FillCalendar(y, m, today, store).Ok?
    ensures var c := CalendarView.FillCalendar(y, m, today, store).value[i];
      c.shade == CalendarView.Disabled ==> HandleClick(t, i, Some(c.date), m, y) == (t, None)
  {
    CalendarView.FillCalendarCells(y, m, today, store);
  }
}
