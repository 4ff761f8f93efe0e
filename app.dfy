/** The application's starting state, used when nothing is saved: the
    seeded catalog and the empty 24-hour by 7-day grid; and what the two
    components' operations mean together, since the application hands the
    same catalog to both. */
module App {
  import opened Wrappers
  import opened Text
  import opened Types
  import opened PillarManager
  import opened Schedule

  /** The seeded catalog: four pillars with ten activities. */
  const DefaultPillars: seq<Pillar> := [
    Pillar("1", "Social", [
      Activity("1", "Friends meeting with me", "#FF6B6B", "1"),
      Activity("2", "Me meeting with friends", "#4ECDC4", "1")]),
    Pillar("2", "Meals", [
      Activity("3", "Breakfast", "#FFD93D", "2"),
      Activity("4", "Lunch", "#FF9F1C", "2"),
      Activity("5", "Dinner", "#FF6B6B", "2")]),
    Pillar("3", "Work", [
      Activity("6", "Admin work", "#6C5CE7", "3"),
      Activity("7", "Deep work", "#A8E6CF", "3"),
      Activity("8", "Shallow work", "#FFD3B6", "3")]),
    Pillar("4", "Distractions", [
      Activity("9", "Procrastination", "#FF8B94", "4"),
      Activity("10", "Limbo", "#B8B8B8", "4")])
  ]

  /** The day columns of the seeded grid. */
  const DefaultDays: seq<string> := ["Mon", "Tue", "Wed", "Thu", "Fri", "Sat", "Sun"]

  /** `Object.fromEntries(days.map(day => [day, '']))`: one key per day, each
      holding the empty id. */
  function EmptyDayMap(days: seq<string>): (m: map<string, string>)
    ensures forall d :: d in m <==> d in days
    ensures forall d :: d in m ==> m[d] == ""
  {
    map d | d in days :: ""
  }

  /** The seeded grid: 24 slots, slot `i` is hour `i`, its days are Mon to
      Sun in that order, and every slot has an empty entry for each day and
      nothing else. */
  function DefaultSchedule(): (g: Grid)
    ensures g.days == ["Mon", "Tue", "Wed", "Thu", "Fri", "Sat", "Sun"]
    ensures |g.timeSlots| == 24
    ensures forall i :: 0 <= i < 24 ==>
      && g.timeSlots[i].hour == i
      && (forall d :: d in g.timeSlots[i].activities <==> d in DefaultDays)
      && (forall d :: d in g.timeSlots[i].activities ==> g.timeSlots[i].activities[d] == "")
  {
    Grid(DefaultDays, seq(24, i => TimeSlot(i, EmptyDayMap(DefaultDays))))
  }

  /** The seeded catalog is valid: back-references match, and pillar ids and
      activity ids are unique, so first-match lookup is unambiguous. */
  lemma DefaultCatalogValid()
    ensures ValidCatalog(DefaultPillars)
  {
    DefaultBackRefs();
    DefaultPillarIdsUnique();
    DefaultActivityIdsUnique();
  }

  lemma DefaultBackRefs()
    ensures BackRefsHold(DefaultPillars)
  {
  }

  lemma DefaultPillarIdsUnique()
    ensures UniquePillarIds(DefaultPillars)
  {
  }

  lemma DefaultActivityIdsUnique()
    ensures UniqueActivityIds(DefaultPillars)
  {
    var ps := DefaultPillars;
    forall i, j | 0 <= i < |ps| && 0 <= j < |ps[i].activities|
      ensures SeededOffset(i) + j < 10 && ps[i].activities[j].id == SeededId(SeededOffset(i) + j)
    {
      SeededIdsInOrder(i, j);
    }
    forall i, j, k, l |
      && 0 <= i < |ps| && 0 <= j < |ps[i].activities|
      && 0 <= k < |ps| && 0 <= l < |ps[k].activities|
      && (i, j) != (k, l)
      ensures ps[i].activities[j].id != ps[k].activities[l].id
    {
      SeededOffsetsDistinct(i, j, k, l);
      SeededIdInjective(SeededOffset(i) + j, SeededOffset(k) + l);
    }
  }

  lemma SeededOffsetsDistinct(i: int, j: int, k: int, l: int)
    requires 0 <= i < |DefaultPillars| && 0 <= j < |DefaultPillars[i].activities|
    requires 0 <= k < |DefaultPillars| && 0 <= l < |DefaultPillars[k].activities|
    requires (i, j) != (k, l)
    ensures SeededOffset(i) + j != SeededOffset(k) + l
  {
  }

  /** How many activities the seeded pillars before pillar `i` hold. */
  function SeededOffset(i: int): int
    requires 0 <= i < 4
  {
    [0, 2, 5, 8][i]
  }

  /** The seeded catalog numbers its activities "1" to "10" in order; this
      is the id of the one with 0-based number `n`. */
  function SeededId(n: int): string
    requires 0 <= n < 10
  {
    if n == 9 then "10" else [('1' as int + n) as char]
  }

  lemma SeededIdsInOrder(i: int, j: int)
    requires 0 <= i < |DefaultPillars| && 0 <= j < |DefaultPillars[i].activities|
    ensures SeededOffset(i) + j < 10
    ensures DefaultPillars[i].activities[j].id == SeededId(SeededOffset(i) + j)
  {
  }

  lemma SeededIdInjective(m: int, n: int)
    requires 0 <= m < 10 && 0 <= n < 10 && m != n
    ensures SeededId(m) != SeededId(n)
  {
    if m != 9 && n != 9 {
      assert SeededId(m)[0] != SeededId(n)[0];
    }
  }

  /** Every seeded activity is what the lookup returns for its id. */
  lemma DefaultLookupResolvesSeededIds()
    ensures forall i, j :: 0 <= i < |DefaultPillars| && 0 <= j < |DefaultPillars[i].activities| ==>
      FindActivity(DefaultPillars, DefaultPillars[i].activities[j].id) == Some(DefaultPillars[i].activities[j])
  {
    DefaultActivityIdsUnique();
    forall i, j | 0 <= i < |DefaultPillars| && 0 <= j < |DefaultPillars[i].activities|
      ensures FindActivity(DefaultPillars, DefaultPillars[i].activities[j].id) == Some(DefaultPillars[i].activities[j])
    {
      FindActivityUnambiguous(DefaultPillars, i, j);
    }
  }

  /** Painting a cell of the seeded grid changes exactly that cell. */
  lemma PaintSeededGrid(h: int, d: string, activityId: string)
    requires 0 <= h < 24 && d in DefaultDays
    ensures var before := DefaultSchedule().timeSlots;
      var after := AssignCell(before, Cell(h, d), activityId);
      && after[h].activities[d] == activityId
      && (forall d' :: d' in DefaultDays && d' != d ==> after[h].activities[d'] == "")
      && (forall i :: 0 <= i < 24 && i != h ==> after[i] == before[i])
  {
  }

  /** An activity just added under an unused id to an existing pillar is what
      the lookup finds for that id. */
  lemma AddedActivityIsFound(ps: seq<Pillar>, pillarId: string, name: string, color: string, newId: string)
    requires !IsBlank(name) && !HasActivity(ps, newId) && HasPillar(ps, pillarId)
    ensures FindActivity(AddActivity(ps, pillarId, name, color, newId).value, newId)
      == Some(NewActivity(pillarId, name, color, newId))
  {
    var r := AddActivity(ps, pillarId, name, color, newId).value;
    var added := NewActivity(pillarId, name, color, newId);
    var i :| 0 <= i < |ps| && ps[i].id == pillarId;
    assert r[i].activities[|ps[i].activities|] == added;
    var found := FindActivity(r, newId);
    assert found.Some?;
    var k :| 0 <= k < |r| && found.value in r[k].activities;
    var l :| 0 <= l < |r[k].activities| && r[k].activities[l] == found.value;
    AddActivitySource(ps, pillarId, name, color, newId, k, l);
    if l < |ps[k].activities| {
      assert false;
    }
    assert r[k].activities[l] == added;
  }

  /** Deleting a pillar leaves the grid as it was, so a cell can still hold
      the id of an activity that lived only in that pillar; the lookup now
      finds nothing and the cell renders white. */
  lemma DeletedPillarCellRendersWhite(ps: seq<Pillar>, pillarId: string, slot: TimeSlot, day: string)
    requires day in slot.activities
    requires forall i, j ::
      && 0 <= i < |ps| && 0 <= j < |ps[i].activities|
      && ps[i].activities[j].id == slot.activities[day]
      ==> ps[i].id == pillarId
    ensures !HasActivity(DeletePillar(ps, pillarId), slot.activities[day])
    ensures CellColor(DeletePillar(ps, pillarId), slot, day) == "white"
  {
    var r := DeletePillar(ps, pillarId);
    forall k, l | 0 <= k < |r| && 0 <= l < |r[k].activities|
      ensures r[k].activities[l].id != slot.activities[day]
    {
      DeletePillarMembers(ps, pillarId, r[k]);
      var i :| 0 <= i < |ps| && ps[i] == r[k];
    }
  }

  /** Deleting an activity leaves the grid as it was; a cell still holding
      its id, when no other pillar has an activity with that id, renders
      white. */
  lemma DeletedActivityCellRendersWhite(ps: seq<Pillar>, pillarId: string, activityId: string,
                                        slot: TimeSlot, day: string)
    requires day in slot.activities && slot.activities[day] == activityId
    requires forall i, j ::
      && 0 <= i < |ps| && 0 <= j < |ps[i].activities|
      && ps[i].activities[j].id == activityId
      ==> ps[i].id == pillarId
    ensures !HasActivity(DeleteActivity(ps, pillarId, activityId), activityId)
    ensures CellColor(DeleteActivity(ps, pillarId, activityId), slot, day) == "white"
  {
  }
}
