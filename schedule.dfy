/** The schedule view's logic: resolving an activity id against the
    catalog, painting one grid cell, stepping between weeks, and the guard
    that refuses to show a week that does not exist. */
module Schedule {
  import opened Wrappers
  import opened Types

  /** One row of the grid: an hour and, per day name, the id of the
      activity painted there (`""` for none). */
  datatype TimeSlot = TimeSlot(hour: int, activities: map<string, string>)

  /** The grid the view reads and the handlers rebuild. */
  datatype Grid = Grid(days: seq<string>, timeSlots: seq<TimeSlot>)

  /** A week as the view receives it: its id, start date and grid. */
  datatype Week = Week(id: string, startDate: string, schedule: Grid)

  /** The cell picked by a click: an hour and a day name. */
  datatype Cell = Cell(hour: int, day: string)

  /** The arguments of one `onScheduleChange` call. */
  datatype ScheduleChange = ScheduleChange(weekId: string, schedule: Grid)

  // ----- Activity lookup -----

  /** `activities.find(a => a.id === id)`: the first activity with that id. */
  function FindInList(acts: seq<Activity>, id: string): (r: Option<Activity>)
    ensures r.None? <==> forall j :: 0 <= j < |acts| ==> acts[j].id != id
    ensures r.Some? ==> r.value.id == id && r.value in acts
  {
    if acts == [] then None
    else if acts[0].id == id then Some(acts[0])
    else FindInList(acts[1..], id)
  }

  /** `j` is the first position of `acts` holding id `id`. */
  ghost predicate FirstInListAt(acts: seq<Activity>, id: string, j: int)
  {
    && 0 <= j < |acts| && acts[j].id == id
    && forall j' :: 0 <= j' < j ==> acts[j'].id != id
  }

  /** `find` returns the activity at the first matching position. */
  lemma {:induction false} FindInListFirst(acts: seq<Activity>, id: string, j: int)
    requires FirstInListAt(acts, id, j)
    ensures FindInList(acts, id) == Some(acts[j])
  {
    if j > 0 {
      assert acts[0].id != id;
      FindInListFirst(acts[1..], id, j - 1);
    }
  }

  /** `getActivityById`: scans the pillars in order and returns the first
      activity with id `id`; `None` (the source's `undefined`) exactly when no
      pillar holds one. */
  function FindActivity(ps: seq<Pillar>, id: string): (r: Option<Activity>)
    ensures r.None? <==> !HasActivity(ps, id)
    ensures r.Some? ==> r.value.id == id && exists i :: 0 <= i < |ps| && r.value in ps[i].activities
  {
    if ps == [] then None
    else
      match FindInList(ps[0].activities, id)
      case Some(a) => Some(a)
      case None =>
        var r := FindActivity(ps[1..], id);
        assert forall i :: 1 <= i < |ps| ==> ps[i] == ps[1..][i - 1];
        assert HasActivity(ps[1..], id) ==> HasActivity(ps, id) by {
          if HasActivity(ps[1..], id) {
            var i, j :| 0 <= i < |ps[1..]| && 0 <= j < |ps[1..][i].activities| && ps[1..][i].activities[j].id == id;
            assert ps[i + 1].activities[j].id == id;
          }
        }
        r
  }

  /** `(i, j)` is the first match for `id` in pillar order, then activity
      order. */
  ghost predicate FirstMatchAt(ps: seq<Pillar>, id: string, i: int, j: int)
  {
    && 0 <= i < |ps|
    && FirstInListAt(ps[i].activities, id, j)
    && forall i', j' :: 0 <= i' < i && 0 <= j' < |ps[i'].activities| ==> ps[i'].activities[j'].id != id
  }

  /** The lookup returns the activity at the first match. */
  lemma {:induction false} FindActivityFirst(ps: seq<Pillar>, id: string, i: int, j: int)
    requires FirstMatchAt(ps, id, i, j)
    ensures FindActivity(ps, id) == Some(ps[i].activities[j])
  {
    if i == 0 {
      FindInListFirst(ps[0].activities, id, j);
    } else {
      assert FindInList(ps[0].activities, id).None?;
      assert FirstMatchAt(ps[1..], id, i - 1, j);
      FindActivityFirst(ps[1..], id, i - 1, j);
    }
  }

  /** Whatever the lookup returns is the first match. */
  lemma {:induction false} FindActivityIsFirstMatch(ps: seq<Pillar>, id: string)
    ensures FindActivity(ps, id).Some? ==>
      exists i, j :: FirstMatchAt(ps, id, i, j) && FindActivity(ps, id).value == ps[i].activities[j]
  {
    if ps != [] && FindActivity(ps, id).Some? {
      var acts := ps[0].activities;
      if FindInList(acts, id).Some? {
        var j := FirstListMatch(acts, id);
        FindInListFirst(acts, id, j);
        assert FirstMatchAt(ps, id, 0, j);
      } else {
        FindActivityIsFirstMatch(ps[1..], id);
        var i, j :| FirstMatchAt(ps[1..], id, i, j) && FindActivity(ps[1..], id).value == ps[1..][i].activities[j];
        assert FirstMatchAt(ps, id, i + 1, j);
      }
    }
  }

  /** A list that holds id `id` has a first position holding it. */
  lemma {:induction false} FirstListMatchExists(acts: seq<Activity>, id: string)
    requires exists j :: 0 <= j < |acts| && acts[j].id == id
    ensures exists j :: FirstInListAt(acts, id, j)
  {
    if acts[0].id != id {
      var j :| 0 <= j < |acts| && acts[j].id == id;
      assert acts[1..][j - 1].id == id;
      FirstListMatchExists(acts[1..], id);
      var k :| FirstInListAt(acts[1..], id, k);
      assert FirstInListAt(acts, id, k + 1);
    } else {
      assert FirstInListAt(acts, id, 0);
    }
  }

  /** The first position of `acts` holding id `id`. */
  ghost function FirstListMatch(acts: seq<Activity>, id: string): (j: int)
    requires exists j :: 0 <= j < |acts| && acts[j].id == id
    ensures FirstInListAt(acts, id, j)
  {
    FirstListMatchExists(acts, id);
    var j :| FirstInListAt(acts, id, j); j
  }

  /** With activity ids unique across the catalog, looking up the id of any
      activity returns that very activity. */
  lemma FindActivityUnambiguous(ps: seq<Pillar>, i: int, j: int)
    requires UniqueActivityIds(ps)
    requires 0 <= i < |ps| && 0 <= j < |ps[i].activities|
    ensures FindActivity(ps, ps[i].activities[j].id) == Some(ps[i].activities[j])
  {
    var id := ps[i].activities[j].id;
    assert FirstMatchAt(ps, id, i, j);
    FindActivityFirst(ps, id, i, j);
  }

  // ----- Rendering one cell -----

  /** The activity a cell shows: the id stored for `day` (a missing key reads
      as `undefined`), resolved by `getActivityById`, so it is the catalog's
      first activity with that id, and only when the id is non-empty. */
  function CellActivity(ps: seq<Pillar>, slot: TimeSlot, day: string): (r: Option<Activity>)
    ensures r.Some? ==> day in slot.activities && slot.activities[day] != "" && r.value.id == slot.activities[day]
    ensures r.Some? ==> exists i, j ::
      FirstMatchAt(ps, slot.activities[day], i, j) && r.value == ps[i].activities[j]
    ensures r.None? <==>
      day !in slot.activities || slot.activities[day] == "" || !HasActivity(ps, slot.activities[day])
  {
    if day in slot.activities && slot.activities[day] != "" then
      FindActivityIsFirstMatch(ps, slot.activities[day]);
      FindActivity(ps, slot.activities[day])
    else None
  }

  /** The cell's background, `activity?.color || 'white'`: the colour of the
      activity the cell shows, or white when the cell shows none or that
      colour is empty. */
  function CellColor(ps: seq<Pillar>, slot: TimeSlot, day: string): (r: string)
    ensures r != "white" ==> CellActivity(ps, slot, day).Some? && r == CellActivity(ps, slot, day).value.color
    ensures CellActivity(ps, slot, day).None? ==> r == "white"
    ensures CellActivity(ps, slot, day).Some? && CellActivity(ps, slot, day).value.color == "" ==> r == "white"
    ensures CellActivity(ps, slot, day).Some? && CellActivity(ps, slot, day).value.color != "" ==>
      r == CellActivity(ps, slot, day).value.color
  {
    match CellActivity(ps, slot, day)
    case Some(a) => if a.color != "" then a.color else "white"
    case None => "white"
  }

  // ----- Painting a cell -----

  /** The `timeSlots.map` of `handleActivitySelect`: in every slot whose hour
      is the cell's, the cell's day now holds `activityId`, whatever it held
      before; every other day of those slots and every other slot is
      unchanged, and no slot moves. */
  function AssignCell(slots: seq<TimeSlot>, cell: Cell, activityId: string): (r: seq<TimeSlot>)
    ensures |r| == |slots|
    ensures forall i :: 0 <= i < |slots| ==> r[i].hour == slots[i].hour
    ensures forall i :: 0 <= i < |slots| && slots[i].hour != cell.hour ==> r[i] == slots[i]
    ensures forall i :: 0 <= i < |slots| && slots[i].hour == cell.hour ==>
      && cell.day in r[i].activities && r[i].activities[cell.day] == activityId
      && r[i].activities.Keys == slots[i].activities.Keys + {cell.day}
      && forall d :: d in slots[i].activities && d != cell.day ==> r[i].activities[d] == slots[i].activities[d]
  {
    seq(|slots|, i requires 0 <= i < |slots| =>
      if slots[i].hour == cell.hour
      then slots[i].(activities := slots[i].activities[cell.day := activityId])
      else slots[i])
  }

  /** `handleActivitySelect`: with no cell selected nothing is emitted;
      otherwise the current week's id and its grid with the cell painted,
      the day list kept as it was. */
  function SelectActivity(week: Week, selected: Option<Cell>, activityId: string): (r: Option<ScheduleChange>)
    ensures r.None? <==> selected.None?
    ensures r.Some? ==>
      && r.value.weekId == week.id
      && r.value.schedule.days == week.schedule.days
      && r.value.schedule.timeSlots == AssignCell(week.schedule.timeSlots, selected.value, activityId)
  {
    match selected
    case None => None
    case Some(cell) =>
      Some(ScheduleChange(week.id, week.schedule.(timeSlots := AssignCell(week.schedule.timeSlots, cell, activityId))))
  }

  /** Painting the same cell with the same activity twice is painting it
      once. */
  lemma AssignCellIdempotent(slots: seq<TimeSlot>, cell: Cell, activityId: string)
    ensures AssignCell(AssignCell(slots, cell, activityId), cell, activityId) == AssignCell(slots, cell, activityId)
  {
    var once := AssignCell(slots, cell, activityId);
    var twice := AssignCell(once, cell, activityId);
    forall i | 0 <= i < |slots| ensures twice[i] == once[i] {
      if slots[i].hour == cell.hour {
        assert twice[i].activities == once[i].activities;
      }
    }
  }

  /** There is no occupied check: painting a cell again replaces what the
      first painting put there. */
  lemma AssignCellOverwrites(slots: seq<TimeSlot>, cell: Cell, first: string, second: string)
    ensures AssignCell(AssignCell(slots, cell, first), cell, second) == AssignCell(slots, cell, second)
  {
    var a := AssignCell(AssignCell(slots, cell, first), cell, second);
    var b := AssignCell(slots, cell, second);
    forall i | 0 <= i < |slots| ensures a[i] == b[i] {
      if slots[i].hour == cell.hour {
        assert a[i].activities == b[i].activities;
      }
    }
  }

  /** Painting two different cells gives the same grid in either order. */
  lemma AssignCellCommutes(slots: seq<TimeSlot>, c1: Cell, a1: string, c2: Cell, a2: string)
    requires c1 != c2
    ensures AssignCell(AssignCell(slots, c1, a1), c2, a2) == AssignCell(AssignCell(slots, c2, a2), c1, a1)
  {
    var x := AssignCell(AssignCell(slots, c1, a1), c2, a2);
    var y := AssignCell(AssignCell(slots, c2, a2), c1, a1);
    forall i | 0 <= i < |slots| ensures x[i] == y[i] {
      if slots[i].hour == c1.hour || slots[i].hour == c2.hour {
        assert x[i].activities == y[i].activities;
      }
    }
  }

  // ----- Week navigation and the current-week guard -----

  /** `handlePreviousWeek`: asks for index - 1 only when the index is above
      0; `None` means `onWeekChange` is not called. */
  function PreviousWeek(index: int): (r: Option<int>)
    ensures r.Some? <==> index > 0
    ensures r.Some? ==> r.value == index - 1 && r.value >= 0
  {
    if index > 0 then Some(index - 1) else None
  }

  /** `handleNextWeek`: asks for index + 1 only when the index is below the
      last one. */
  function NextWeek(index: int, weekCount: int): (r: Option<int>)
    ensures r.Some? <==> index < weekCount - 1
    ensures r.Some? ==> r.value == index + 1 && r.value < weekCount
  {
    if index < weekCount - 1 then Some(index + 1) else None
  }

  /** The index the parent holds after a navigation handler ran. */
  function IndexAfter(index: int, request: Option<int>): int
  {
    match request
    case Some(j) => j
    case None => index
  }

  /** An index in range stays in range under either button. */
  lemma NavigationStaysInRange(index: int, weekCount: int)
    requires 0 <= index < weekCount
    ensures 0 <= IndexAfter(index, PreviousWeek(index)) < weekCount
    ensures 0 <= IndexAfter(index, NextWeek(index, weekCount)) < weekCount
  {
  }

  /** "Next" and "previous" undo each other whenever the first of them
      moves. */
  lemma NavigationRoundTrip(index: int, weekCount: int)
    requires 0 <= index < weekCount
    ensures NextWeek(index, weekCount).Some? ==>
      PreviousWeek(NextWeek(index, weekCount).value) == Some(index)
    ensures PreviousWeek(index).Some? ==>
      NextWeek(PreviousWeek(index).value, weekCount) == Some(index)
  {
  }

  /** What the view shows before reading any schedule. */
  datatype WeekView = NoWeeks | InvalidWeek | ShowWeek(week: Week)

  /** The guard at the top of the view: with no weeks, or an index that does
      not name one, it shows an error instead of a schedule. */
  function CurrentWeek(weeks: seq<Week>, index: int): (r: WeekView)
    ensures r.NoWeeks? <==> |weeks| == 0
    ensures r.ShowWeek? <==> 0 <= index < |weeks|
    ensures r.ShowWeek? ==> r.week == weeks[index]
  {
    if |weeks| == 0 then NoWeeks
    else if 0 <= index < |weeks| then ShowWeek(weeks[index])
    else InvalidWeek
  }

  /** Starting from a week that is shown, either button leads to a week that
      is shown. */
  lemma NavigationKeepsWeekShown(weeks: seq<Week>, index: int)
    requires CurrentWeek(weeks, index).ShowWeek?
    ensures CurrentWeek(weeks, IndexAfter(index, PreviousWeek(index))).ShowWeek?
    ensures CurrentWeek(weeks, IndexAfter(index, NextWeek(index, |weeks|))).ShowWeek?
  {
    NavigationStaysInRange(index, |weeks|);
  }
}
