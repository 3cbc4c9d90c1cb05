/** The event store of the calendar (class `EventManager`): a map from a
    date to the ordered list of events on that date, its operations, and
    the pure decisions its rendering makes. */
module EventManager {
  import opened Outcomes
  import opened Dates

  datatype Event = Event(name: string, desc: string, color: string)

  type Store = map<Date, seq<Event>>

  /** No date key maps to an empty list. */
  ghost predicate Pruned(s: Store) {
    forall d :: d in s ==> s[d] != []
  }

  /** `get_events`: the events on `date` in insertion order (a copy; values here are immutable). */
  function GetEvents(s: Store, date: Date): (r: seq<Event>)
    ensures date in s ==> r == s[date]
    ensures date !in s ==> r == []
    ensures Pruned(s) ==> (r == [] <==> date !in s)
  {
    if date in s then s[date] else []
  }

  /** `s'` is `s` with `ev` appended to the list at `date`, and nothing else changed. */
  ghost predicate AppendedAt(s: Store, s': Store, date: Date, ev: Event) {
    && s'.Keys == s.Keys + {date}
    && GetEvents(s', date) == GetEvents(s, date) + [ev]
    && forall d :: d != date ==> GetEvents(s', d) == GetEvents(s, d)
  }

  /** `add_event`: validate the name and the colour, then append. */
  function AddEvent(s: Store, date: Date, name: string, desc: string, color: string): (r: Result<Store>)
    ensures name == [] ==> r == Err(EmptyName)
    ensures name != [] && color == [] ==> r == Err(EmptyColor)
    ensures name != [] && color != [] ==> r.Ok? && AppendedAt(s, r.value, date, Event(name, desc, color))
    ensures r.Ok? && Pruned(s) ==> Pruned(r.value)
  {
    if name == [] then Err(EmptyName)
    else if color == [] then Err(EmptyColor)
    else Ok(s[date := GetEvents(s, date) + [Event(name, desc, color)]])
  }

  // ---------------------------------------------------------------------
  // Removal

  /** The events of `evs` not named `name`, in their original order. */
  function Without(evs: seq<Event>, name: string): (r: seq<Event>)
    ensures forall e :: e in r ==> e in evs && e.name != name
    ensures |r| < |evs| <==> exists e :: e in evs && e.name == name
    ensures (forall e :: e in evs ==> e.name != name) ==> r == evs
  {
    if evs == [] then []
    else
      var rest := Without(evs[1..], name);
      assert evs == [evs[0]] + evs[1..];
      if evs[0].name == name then rest else [evs[0]] + rest
  }

  /** Every event not named `name` is kept as often as it occurred. */
  lemma {:induction false} WithoutKeepsOthers(evs: seq<Event>, name: string, e: Event)
    requires e.name != name
    ensures multiset(Without(evs, name))[e] == multiset(evs)[e]
  {
    if evs != [] {
      assert evs == [evs[0]] + evs[1..];
      WithoutKeepsOthers(evs[1..], name, e);
    }
  }

  /** Filtering distributes over concatenation, so the kept events stay in order. */
  lemma {:induction false} WithoutConcat(a: seq<Event>, b: seq<Event>, name: string)
    ensures Without(a + b, name) == Without(a, name) + Without(b, name)
  {
    if a == [] {
      assert a + b == b;
    } else {
      var ab := a + b;
      assert ab[0] == a[0];
      assert ab[1..] == a[1..] + b;
      WithoutConcat(a[1..], b, name);
    }
  }

  /** `remove_event`: drop every event named `name` on `date`, delete the key if
      its list became empty, and report whether anything was removed. */
  function RemoveEvent(s: Store, date: Date, name: string): (r: (Store, bool))
    ensures date !in s ==> r == (s, false)
    ensures r.1 <==> exists e :: e in GetEvents(s, date) && e.name == name
    ensures GetEvents(r.0, date) == Without(GetEvents(s, date), name)
    ensures forall d :: d != date ==> GetEvents(r.0, d) == GetEvents(s, d)
    ensures date in s ==> r.0.Keys == if Without(s[date], name) == [] then s.Keys - {date} else s.Keys
    ensures Pruned(s) ==> Pruned(r.0)
  {
    if date !in s then (s, false)
    else
      var before := |s[date]|;
      var kept := Without(s[date], name);
      var s' := if kept == [] then s - {date} else s[date := kept];
      (s', |kept| < before)
  }

  /** Filtering out a name no earlier event carries undoes appending an event with it. */
  lemma WithoutUndoesAppend(prior: seq<Event>, ev: Event, name: string)
    requires ev.name == name
    requires forall e :: e in prior ==> e.name != name
    ensures Without(prior + [ev], name) == prior
  {
    WithoutConcat(prior, [ev], name);
    assert Without([ev], name) == [];
  }

  /** Putting back the list a date had, or deleting the key it did not have,
      restores a store without empty lists. */
  lemma RestoreEntry(s: Store, date: Date, other: seq<Event>)
    requires Pruned(s)
    ensures GetEvents(s, date) == [] ==> s[date := other] - {date} == s
    ensures GetEvents(s, date) != [] ==> s[date := other][date := GetEvents(s, date)] == s
  {
  }

  /** Adding an event under a fresh name and removing that name restores the store. */
  lemma AddThenRemove(s: Store, date: Date, name: string, desc: string, color: string)
    requires Pruned(s)
    requires name != [] && color != []
    requires forall e :: e in GetEvents(s, date) ==> e.name != name
    ensures AddEvent(s, date, name, desc, color).Ok?
    ensures RemoveEvent(AddEvent(s, date, name, desc, color).value, date, name) == (s, true)
  {
    var ev := Event(name, desc, color);
    var prior := GetEvents(s, date);
    var s1 := s[date := prior + [ev]];
    assert AddEvent(s, date, name, desc, color) == Ok(s1);
    WithoutUndoesAppend(prior, ev, name);
    RestoreEntry(s, date, prior + [ev]);
    assert s1[date] == prior + [ev];
  }

  // ---------------------------------------------------------------------
  // Adding one event per day over a range

  /** `s'` is `s` with `ev` appended on every day from `first` through `last`. */
  ghost predicate AppendedOver(s: Store, s': Store, first: Date, last: Date, ev: Event) {
    forall d :: GetEvents(s', d) == if InSpan(d, first, last) then GetEvents(s, d) + [ev] else GetEvents(s, d)
  }

  /** `s'` is `s` with `ev` appended on the days from `first` through `last` that
      come before `current`. */
  ghost predicate AppendedBefore(s: Store, s': Store, first: Date, last: Date, current: Date, ev: Event) {
    forall d :: GetEvents(s', d) == if InSpan(d, first, last) && Before(d, current) then GetEvents(s, d) + [ev] else GetEvents(s, d)
  }

  /** Appending on `current`, a day of the range, moves the boundary one day on. */
  lemma AppendedBeforeStep(s: Store, s1: Store, s2: Store, first: Date, last: Date, current: Date, ev: Event)
    requires Valid(current) && !Before(current, first) && !Before(last, current)
    requires AppendedBefore(s, s1, first, last, current, ev)
    requires AppendedAt(s1, s2, current, ev)
    ensures AppendedBefore(s, s2, first, last, NextDay(current), ev)
  {
    forall d | Valid(d)
      ensures Before(d, NextDay(current)) <==> Before(d, current) || d == current
    {
      BeforeNextDay(d, current);
    }
  }

  /** Once `current` is past `last`, every day of the range has the event. */
  lemma AppendedBeforeDone(s: Store, s1: Store, first: Date, last: Date, current: Date, ev: Event)
    requires Valid(current) && Valid(last) && Ordinal(current) == Ordinal(last) + 1
    requires AppendedBefore(s, s1, first, last, current, ev)
    ensures AppendedOver(s, s1, first, last, ev)
  {
    forall d | InSpan(d, first, last)
      ensures Before(d, current)
    {
      BeforeIffOrdinal(d, last);
      BeforeIffOrdinal(d, current);
    }
  }

  /** `add_event_range` with the increment past `end_date` made harmless: one
      event on each day of the inclusive range, the range checked first and
      the event validated by the first `add_event`. */
  method AddEventRange(s: Store, start: Date, end: Date, name: string, desc: string, color: string)
    returns (s': Store, out: Outcome)
    requires InRange(start) && InRange(end)
    ensures Before(end, start) ==> out == Fail(InvalidRange) && s' == s
    ensures !Before(end, start) && name == [] ==> out == Fail(EmptyName) && s' == s
    ensures !Before(end, start) && name != [] && color == [] ==> out == Fail(EmptyColor) && s' == s
    ensures !Before(end, start) && name != [] && color != [] ==>
      out == Pass && AppendedOver(s, s', start, end, Event(name, desc, color))
    ensures Pruned(s) ==> Pruned(s')
  {
    if Before(end, start) {
      return s, Fail(InvalidRange);
    }
    var ev := Event(name, desc, color);
    BeforeIffOrdinal(end, start);
    s' := s;
    var current := start;
    while !Before(end, current)
      invariant Valid(current) && !Before(current, start)
      invariant Ordinal(current) <= Ordinal(end) + 1
      invariant (name == [] || color == []) ==> current == start && s' == s
      invariant Pruned(s) ==> Pruned(s')
      invariant AppendedBefore(s, s', start, end, current, ev)
      decreases Ordinal(end) + 1 - Ordinal(current)
    {
      var r := AddEvent(s', current, name, desc, color);
      if r.Err? {
        return s', Fail(r.error);
      }
      AppendedBeforeStep(s, s', r.value, start, end, current, ev);
      BeforeIffOrdinal(end, current);
      BeforeNextDay(start, current);
      s' := r.value;
      current := NextDay(current);
    }
    BeforeIffOrdinal(end, current);
    AppendedBeforeDone(s, s', start, end, current, ev);
    return s', Pass;
  }

  /** Appending on `current` and then over the days after it appends over the
      range from `current`. */
  lemma AppendedOverStep(s: Store, s1: Store, s2: Store, current: Date, end: Date, ev: Event)
    requires Valid(current) && !Before(end, current)
    requires AppendedAt(s, s1, current, ev)
    requires AppendedOver(s1, s2, NextDay(current), end, ev)
    ensures AppendedOver(s, s2, current, end, ev)
  {
    SpanStep(current, end);
    assert !InSpan(current, NextDay(current), end);
  }

  /** Appending on the last day alone appends over the one-day range. */
  lemma AppendedOverLastDay(s: Store, s1: Store, current: Date, ev: Event)
    requires Valid(current)
    requires AppendedAt(s, s1, current, ev)
    ensures AppendedOver(s, s1, current, current, ev)
  {
    SpanOfOneDay(current);
  }

  /** The step after a day of the range overflows only when that day, and so the
      range's end, is 9999-12-31. */
  lemma OverflowOnlyAtMaxDate(current: Date, end: Date)
    requires InRange(current) && InRange(end) && !Before(end, current)
    requires PyAddDays(current, 1).Err?
    ensures current == MaxDate && end == MaxDate
  {
    PyNextDay(current);
    BeforeIffOrdinal(end, current);
    InRangeIffOrdinal(end);
    OrdinalInjective(end, MaxDate);
  }

  /** The loop of `add_event_range` as written: after adding the event on
      `current` it steps with a checked `current + timedelta(days=1)`, so it
      raises OverflowError after the last day when that day is 9999-12-31. */
  function RangeLoopAsWritten(s: Store, current: Date, end: Date, name: string, desc: string, color: string): (r: (Store, Outcome))
    requires InRange(current) && InRange(end)
    requires name != [] && color != []
    ensures !Before(end, current) ==>
      && AppendedOver(s, r.0, current, end, Event(name, desc, color))
      && r.1 == if end == MaxDate then Fail(DateOverflow) else Pass
    decreases Ordinal(end) + 1 - Ordinal(current)
  {
    if Before(end, current) then (s, Pass)
    else
      var s1 := AddEvent(s, current, name, desc, color).value;
      match PyAddDays(current, 1)
      case Err(e) =>
        OverflowOnlyAtMaxDate(current, end);
        AppendedOverLastDay(s, s1, current, Event(name, desc, color));
        (s1, Fail(e))
      case Ok(next) =>
        PyNextDay(current);
        BeforeIffOrdinal(end, current);
        var r := RangeLoopAsWritten(s1, next, end, name, desc, color);
        AppendedOverStep(s, s1, r.0, current, end, Event(name, desc, color));
        r
  }

  /** `add_event_range` as written: range check, then the loop above. */
  function AddEventRangeAsWritten(s: Store, start: Date, end: Date, name: string, desc: string, color: string): (r: (Store, Outcome))
    requires InRange(start) && InRange(end)
    ensures Before(end, start) ==> r == (s, Fail(InvalidRange))
    ensures !Before(end, start) && name == [] ==> r == (s, Fail(EmptyName))
    ensures !Before(end, start) && name != [] && color == [] ==> r == (s, Fail(EmptyColor))
    ensures !Before(end, start) && name != [] && color != [] ==>
      && AppendedOver(s, r.0, start, end, Event(name, desc, color))
      && r.1 == if end == MaxDate then Fail(DateOverflow) else Pass
  {
    if Before(end, start) then (s, Fail(InvalidRange))
    else if name == [] then (s, Fail(EmptyName))
    else if color == [] then (s, Fail(EmptyColor))
    else RangeLoopAsWritten(s, start, end, name, desc, color)
  }

  /** A one-day range ending on 9999-12-31 stores its event and still raises. */
  lemma RangeOverflowAtMaxDate()
    ensures AddEventRangeAsWritten(map[], MaxDate, MaxDate, "x", "", "red")
         == (map[MaxDate := [Event("x", "", "red")]], Fail(DateOverflow))
  {
    var ev := Event("x", "", "red");
    var r := AddEventRangeAsWritten(map[], MaxDate, MaxDate, "x", "", "red");
    SpanOfOneDay(MaxDate);
    assert GetEvents(r.0, MaxDate) == [ev];
    assert r.0.Keys == {MaxDate};
  }

  // ---------------------------------------------------------------------
  // Rendering decisions

  /** Height of one event button row, in pixels. */
  const EventHeight: int := 22

  /** The events container never grows beyond three rows and a margin. */
  const MaxContainerHeight: int := 3 * EventHeight + 8

  datatype Button = Button(text: string, fill: string, textColor: string, tooltip: string)

  /** What `render_events_in_frame` does to one cell. */
  datatype RenderPlan =
    | Untouched                                 // no date, or not in the current month
    | Cleared                                   // old container removed, no events to show
    | Shown(height: int, buttons: seq<Button>)  // new container with one button per event

  /** Text colour on a button: white on every fill but white, so never the same as its fill. */
  function TextColor(fill: string): (c: string)
    ensures c != fill
    ensures c == "black" || c == "white"
    ensures fill != "white" ==> c == "white"
  {
    if fill != "white" then "white" else "black"
  }

  /** Height of the container for `n` events: room for up to three rows. */
  function ContainerHeight(n: nat): (h: int)
    requires n > 0
    ensures 0 < h <= MaxContainerHeight
    ensures n <= 3 ==> h == n * EventHeight
    ensures n > 3 ==> h == MaxContainerHeight < n * EventHeight
  {
    if n * EventHeight < MaxContainerHeight then n * EventHeight else MaxContainerHeight
  }

  function ButtonFor(e: Event): Button {
    Button(e.name, e.color, TextColor(e.color), e.name + "\n" + e.desc)
  }

  /** `render_events_in_frame` for a cell holding `cell` while (`month`, `year`) is shown. */
  function RenderEvents(s: Store, cell: Option<Date>, month: int, year: int): (p: RenderPlan)
    ensures p.Untouched? <==> cell.None? || cell.value.month != month || cell.value.year != year
    ensures p.Cleared? <==> !p.Untouched? && GetEvents(s, cell.value) == []
    ensures p.Shown? ==>
      && 0 < p.height <= MaxContainerHeight
      && |p.buttons| == |GetEvents(s, cell.value)|
      && p.height == ContainerHeight(|p.buttons|)
      && (|p.buttons| <= 3 ==> p.height == |p.buttons| * EventHeight)
      && (|p.buttons| > 3 ==> p.height == MaxContainerHeight)
      && forall i :: 0 <= i < |p.buttons| ==>
           && p.buttons[i].text == GetEvents(s, cell.value)[i].name
           && p.buttons[i].fill == GetEvents(s, cell.value)[i].color
           && p.buttons[i].textColor == TextColor(p.buttons[i].fill)
           && p.buttons[i].textColor != p.buttons[i].fill
           && p.buttons[i].tooltip == GetEvents(s, cell.value)[i].name + "\n" + GetEvents(s, cell.value)[i].desc
  {
    if cell.None? || cell.value.month != month || cell.value.year != year then Untouched
    else
      var events := GetEvents(s, cell.value);
      if events == [] then Cleared
      else Shown(ContainerHeight(|events|), seq(|events|, i requires 0 <= i < |events| => ButtonFor(events[i])))
  }

  /** After `add_event` on a day of the displayed month, that day's cell shows the
      new event as its last button, after the buttons it showed before. */
  lemma AddedEventIsRendered(s: Store, date: Date, name: string, desc: string, color: string, month: int, year: int)
    requires name != [] && color != []
    requires date.month == month && date.year == year
    ensures AddEvent(s, date, name, desc, color).Ok?
    ensures var p := RenderEvents(AddEvent(s, date, name, desc, color).value, Some(date), month, year);
      && p.Shown?
      && |p.buttons| == |GetEvents(s, date)| + 1
      && p.buttons[|GetEvents(s, date)|] == ButtonFor(Event(name, desc, color))
  {
    var s1 := AddEvent(s, date, name, desc, color).value;
    assert GetEvents(s1, date) == GetEvents(s, date) + [Event(name, desc, color)];
  }

  /** `render_visible_date`: the first frame showing `date`, if any. */
  method FindFrame(frames: seq<Option<Date>>, date: Date) returns (r: Option<nat>)
    ensures r.Some? ==> r.value < |frames| && frames[r.value] == Some(date)
    ensures r.Some? ==> forall j :: 0 <= j < r.value ==> frames[j] != Some(date)
    ensures r.None? <==> Some(date) !in frames
  {
    var i := 0;
    while i < |frames|
      invariant 0 <= i <= |frames|
      invariant forall j :: 0 <= j < i ==> frames[j] != Some(date)
    {
      if frames[i] == Some(date) {
        return Some(i);
      }
      i := i + 1;
    }
    return None;
  }
}
