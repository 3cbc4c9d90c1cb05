# CTkCalendar core in Dafny

This project models the logic of the CTkCalendar widget: a month calendar for
CustomTkinter that shows a 6 × 7 grid of day cells, attaches coloured events to
dates and lets the user select one day.

It covers three classes:

- `EventManager` (`event_manager.py`)
  - The event store: a map from a date to the ordered list of events on that date.
  - `add_event`, `add_event_range`, `remove_event` and `get_events`.
  - The decisions `render_events_in_frame` makes for one cell: whether the cell
    is left alone, cleared, or given a container. For a container it also fixes
    the height, the buttons, their colours and their tooltips.
  - The frame lookup of `render_visible_date`.
- `CalendarView` (`calendar_view.py`)
  - The 42 dates `fill_calendar` puts in the grid, and the shade and event plan
    of every cell.
  - The month and year navigation of `change_month` and `change_year`, built on
    `relativedelta`.
- `SelectionManager` (`selection_manager.py`)
  - The `is_selected` flags and the border widths of the 42 cell frames, and the
    manager's reference to the selected frame.
  - `select_frame`, `deselect_frame`, `clear_selection` and `handle_click`.

Python's `datetime.date` is modelled in module `Dates`:

- A date is `Date(year, month, day)`.
- `Ordinal` is `toordinal()`; `Weekday` is `weekday()`, with Monday as 0.
- `date + timedelta(days=k)` is `PyAddDays`. It returns `Err(DateOverflow)`
  wherever Python raises OverflowError, that is outside 0001-01-01 … 9999-12-31.

Raised exceptions become the `Err`/`Fail` cases of the `Result` and `Outcome`
types in module `Outcomes`. The widget's state is passed in and returned as
values.

## Model

| member | source | states |
|---|---|---|
| Dates.DaysInMonth | calendar_view.py:26 | a month has 28 to 31 days, and 29 exactly for February of a leap year |
| Dates.Weekday | calendar_view.py:26 | the weekday is in 0..6 |
| Dates.BeforeIffOrdinal | calendar_view.py:40 | comparing dates field by field agrees with comparing their day numbers |
| Dates.PyAddDays | calendar_view.py:31 | adding days succeeds exactly when the result's day number lies in 1..3652059; the result is a real date that many days later, and any failure is OverflowError |
| Dates.PyNextDay | event_manager.py:92 | stepping one day forward fails only from 9999-12-31; otherwise it gives the next calendar day |
| Dates.DaysFrom | calendar_view.py:34-49 | the run of n consecutive dates has length n, and its entry i is i days after the start |
| EventManager.GetEvents | event_manager.py:116-121 | a date with an entry gets that entry's list, in insertion order; a date without an entry has no events; in a store with no empty lists, a date has no events exactly when it has no entry |
| EventManager.AddEvent | event_manager.py:11-21 | an empty name is rejected first, then an empty colour; otherwise the event is appended at the end of that date's list, the key is added, no other date changes, and no empty list is created |
| EventManager.Without | event_manager.py:103 | the kept events are events of the list without the name; the list shrinks exactly when some event has the name, and is unchanged when none has |
| EventManager.WithoutKeepsOthers | event_manager.py:103 | every event without the name is kept exactly as many times as it occurred |
| EventManager.WithoutConcat | event_manager.py:103 | filtering a concatenation is concatenating the filtered parts, so the kept events keep their order |
| EventManager.RemoveEvent | event_manager.py:94-113 | a missing date gives False and no change; the result is True exactly when an event with the name was on the date; the date's list loses exactly those events; the key is deleted exactly when nothing is left; other dates are unchanged |
| EventManager.AddThenRemove | event_manager.py:94-113 | adding an event under a name not yet used on that date and then removing that name restores the original store and reports True |
| EventManager.AddEventRange | event_manager.py:79-92 | an end before the start is rejected with the store unchanged, as are an empty name or colour; otherwise the event is appended on every day from start through end inclusive and on no other day |
| EventManager.RangeLoopAsWritten | event_manager.py:89-92 | the loop as written appends the event on every day of the range and then fails with OverflowError exactly when the range ends on 9999-12-31 |
| EventManager.AddEventRangeAsWritten | event_manager.py:79-92 | the whole method as written: the same rejections as the corrected version, and on success OverflowError exactly when the end is 9999-12-31 |
| EventManager.RangeOverflowAtMaxDate | event_manager.py:89-92 | a one-day range on 9999-12-31 stores its event and still raises OverflowError |
| EventManager.TextColor | event_manager.py:69 | a button's text is white on every fill other than white, black on a white fill, and so never the colour of its fill |
| EventManager.ContainerHeight | event_manager.py:58-59 | the container is 22 pixels per event for up to three events, and exactly 74 pixels for four or more |
| EventManager.RenderEvents | event_manager.py:33-77 | a cell without a date or outside the shown month is left alone; a cell of the shown month with no events is cleared; otherwise it gets one button per event, in order, with the event's name, fill colour and tooltip `name\ndesc`, the text colour `TextColor` gives its fill, and the height `ContainerHeight` gives the number of events (22 per event up to three, 74 from four on) |
| EventManager.AddedEventIsRendered | event_manager.py:20-22 | after `add_event` on a day of the shown month, that cell shows the new event as its last button, after the ones it showed before |
| EventManager.FindFrame | event_manager.py:25-30 | the first frame holding the date is found; no frame is found exactly when none holds it |
| CalendarView.LeadingDays | calendar_view.py:30 | between 0 and 6 days of the previous month are shown before the first |
| CalendarView.WalkCells | calendar_view.py:32-49 | the cell loop succeeds exactly when its last increment stays within 9999-12-31, and then yields consecutive dates from the start |
| CalendarView.WindowIsRun | calendar_view.py:30-49 | when the grid can be filled, it is the 42 consecutive days from the checked start date |
| CalendarView.StepBackLandsOnSunday | calendar_view.py:30-31 | stepping back (weekday + 1) mod 7 days from any date lands on a Sunday |
| CalendarView.WindowStartsOnSunday | calendar_view.py:30-31 | the first cell of the grid is a Sunday |
| CalendarView.RunWeekdays | calendar_view.py:34-49 | a run that starts on a Sunday has entry i on weekday (i + 6) mod 7 |
| CalendarView.RunHoldsMonth | calendar_view.py:34-49 | a run that reaches the first of a month after `lead` days holds day d of that month at position lead + d − 1 |
| CalendarView.WindowCells | calendar_view.py:26-49 | the grid holds 42 real dates, consecutive, with the first of the month at position LeadingDays |
| CalendarView.WindowWeekdays | calendar_view.py:30-49 | every row of the grid runs from Sunday to Saturday |
| CalendarView.WindowHoldsMonth | calendar_view.py:26-49 | day d of the shown month is in cell LeadingDays + d − 1, so the whole month is visible |
| CalendarView.DayOneMonthOverflows | calendar_view.py:30-31 | a month that starts on day number 1, a Monday, needs one leading day, and stepping back to it raises OverflowError |
| CalendarView.FirstMonthOverflows | calendar_view.py:31 | for January of year 1 the step back to Sunday raises OverflowError |
| CalendarView.LastMonthOverflows | calendar_view.py:49 | for December of year 9999 the cell loop raises OverflowError |
| CalendarView.InnerMonthFits | calendar_view.py:26-49 | every other month of years 1..9999 fills its grid |
| CalendarView.WindowFailsOnlyAtRangeEnds | calendar_view.py:26-49 | `fill_calendar` raises exactly for January of year 1 and December of year 9999 |
| CalendarView.CellShade | calendar_view.py:39-46 | a cell is disabled exactly when its date is outside the shown month, and gets the today colour exactly when it is enabled and shows today |
| CalendarView.FillCalendar | calendar_view.py:26-49 | the grid is filled exactly when the window exists; it then has 42 cells, each holding the window's date at its position |
| CalendarView.FillCalendarCells | calendar_view.py:34-48 | exactly the cells at positions LeadingDays .. LeadingDays + days − 1 are enabled, which are exactly the cells of the shown month; only they are rendered, each with one button per stored event; the today colour appears only on an enabled cell showing today |
| CalendarView.InitNav | CTkCalendar.py:56-59 | the widget starts on today, showing today's month and year |
| CalendarView.NormalizeMonths | calendar_view.py:57 | the month offset splits into whole years and at most eleven months whose total is the offset |
| CalendarView.AddMonths | calendar_view.py:57 | moving k months succeeds exactly when the target year is in 1..9999; the month advances by exactly k, and the day is clamped to the length of the target month |
| CalendarView.AddYears | calendar_view.py:69 | moving k years succeeds exactly when the target year is in 1..9999; the month is kept, and the day is kept except that February 29 becomes 28 in a common year |
| CalendarView.TwelveMonthsIsOneYear | calendar_view.py:54-75 | moving 12k months lands on the same date as moving k years, or fails the same way |
| CalendarView.ChangeMonth | calendar_view.py:54-59 | after a month change the shown month and year are those of the new anchor date, which is exactly k months on; the change fails exactly when the year leaves 1..9999 |
| CalendarView.ChangeYear | calendar_view.py:66-71 | after a year change the month is kept and the year moves by k; the change fails exactly when the year leaves 1..9999 |
| CalendarView.ChangeMonthRoundTrip | calendar_view.py:54-59 | k months forward and k months back returns to the same month and year, with a day no later than before |
| SelectionManager.BorderMarksSelection | selection_manager.py:9-20 | while the invariant holds, the frames drawn with the 3-pixel border are exactly the flagged frames, which are the held frame or none |
| SelectionManager.Init | selection_manager.py:4-6 | a new manager holds no frame, and the freshly built frames are neither flagged nor bordered (their `border_width=0` and `is_selected = False` are set at CTkCalendar.py:174 and :191) |
| SelectionManager.Deselect | selection_manager.py:16-20 | the frame loses its border and its flag and no other frame's border changes; the reference is dropped only if it was this frame; deselecting an unselected frame changes nothing |
| SelectionManager.Clear | selection_manager.py:23-26 | afterwards no frame is held, flagged or bordered; with nothing held, nothing changes |
| SelectionManager.Select | selection_manager.py:9-13 | afterwards exactly the chosen frame is flagged, bordered and held |
| SelectionManager.HandleClick | selection_manager.py:29-45 | a click without a date, or on a date outside the shown month, changes nothing and returns nothing; a click on an unselected day of the month selects it and returns its date; a click on the selected day clears the selection and returns nothing |
| SelectionManager.SelectIsExclusive | selection_manager.py:9-13 | selecting one cell and then another leaves only the second selected |
| SelectionManager.ClickTwiceToggles | selection_manager.py:39-45 | two clicks on the same day of the shown month select it and return its date, then leave nothing selected and return nothing |
| SelectionManager.ClickOnSelectedClears | selection_manager.py:39-41 | a click on the selected day leaves no frame flagged |
| SelectionManager.ClickOnDisabledCellIgnored | selection_manager.py:36-37 | a click on a disabled cell of a filled grid changes nothing and returns nothing |

## Left out

- Widgets, geometry, fonts and the redraw scheduling are left out: frame creation, `grid`/`pack`, `update_idletasks`, `_suspend_redraw` and `after(35, …)`. Only the decisions they carry out are modelled.
- The button's `hover_color`, corner radius, height and `command` callback are left out. Neither the `command` nor the `print` in `handle_click` changes any state.
- The `ToolTip` class (`tooltip.py`) is left out. Only the tooltip text is modelled.
- Month names from `babel.dates.get_month_names` and the rotated weekday header in `CTkCalendar.py` are left out, because they are locale text with no effect on the dates.
- `pruebas.py`, a demo script, is left out.
- `datetime.date.today()` is a clock; `today` is a parameter of `FillCalendar` and `InitNav`.
- The `isinstance` checks that raise TypeError are left out. The model's parameters are typed, so no other kind of value can be passed.
- `EventManager.AddEventRange` requires both dates in 1..9999, as every Python `date` is.
- `handle_click` finds the clicked frame and its date through the widget hierarchy. The model receives the cell index and the `Option` date directly.
- `fill_calendar` does not clear the selection. A selected frame stays flagged after `change_month` or `change_year`, even if it now shows a day of another month. The model follows this code.
- `FillCalendar` returns a bare `Err(DateOverflow)` for December 9999. The source raises inside the cell loop at calendar_view.py:49, after the cell holding 9999-12-31. By then it has already dated, shaded and rendered the cells up to that one. The later cells keep the previous month's dates, and because `days_frame.grid()` at line 51 is never reached, the grid stays hidden from line 14. This partial state is not modelled.
- `GetEvents` returns a value, so nothing a caller does to the result can reach the store. `get_events` returns `list.copy()`, a shallow copy, so the event dicts are shared with the store and a caller who mutates a returned event changes the stored one. Events here are immutable values, so that aliasing is not modelled.
- `fill_calendar` always repaints the shown month, so the grid depends only on the month, the year, `today` and the store. This holds by construction, because `FillCalendar` is a function of exactly those values.
- `dateutil.relativedelta` is not part of this model's source files. `AddMonths` and `AddYears` follow that library's documented behaviour for a pure month or year offset: carry the months into years, then clamp the day, then fail outside years 1..9999.
- The leap-year calendar, day numbers and weekdays follow Python's `datetime` module, which is not part of this model's source files either.

## Findings

| source | as written | input that shows it | evidently intended | confidence | as-written member | corrected member |
|---|---|---|---|---|---|---|
| event_manager.py:89-92 | the loop adds the event on the current day and only then computes `current_date + timedelta(days=1)`, which overflows after 9999-12-31 | `add_event_range(date(9999, 12, 31), date(9999, 12, 31), "x", "", "red")` stores the event and then raises OverflowError | add the event on every day of the range and return normally | not executed | EventManager.RangeOverflowAtMaxDate | EventManager.AddEventRange |
