/** The catalog entities: a pillar (a life category) owns an ordered list of
    coloured activities, and each activity points back at its pillar. */
module Types {

  datatype Activity = Activity(id: string, name: string, color: string, pillarId: string)

  datatype Pillar = Pillar(id: string, name: string, activities: seq<Activity>)

  /** Every activity's `pillarId` is the id of the pillar that holds it. */
  ghost predicate BackRefsHold(ps: seq<Pillar>)
  {
    forall i, j :: 0 <= i < |ps| && 0 <= j < |ps[i].activities| ==>
      ps[i].activities[j].pillarId == ps[i].id
  }

  /** No two pillars share an id. */
  ghost predicate UniquePillarIds(ps: seq<Pillar>)
  {
    forall i, k :: 0 <= i < k < |ps| ==> ps[i].id != ps[k].id
  }

  /** No two activities anywhere in the catalog share an id. */
  ghost predicate UniqueActivityIds(ps: seq<Pillar>)
  {
    forall i, j, k, l ::
      && 0 <= i < |ps| && 0 <= j < |ps[i].activities|
      && 0 <= k < |ps| && 0 <= l < |ps[k].activities|
      && (i, j) != (k, l)
      ==> ps[i].activities[j].id != ps[k].activities[l].id
  }

  /** The invariants the seeded catalog has and the catalog handlers keep. */
  ghost predicate ValidCatalog(ps: seq<Pillar>)
  {
    BackRefsHold(ps) && UniquePillarIds(ps) && UniqueActivityIds(ps)
  }

  /** Some pillar holds an activity with id `id`. */
  ghost predicate HasActivity(ps: seq<Pillar>, id: string)
  {
    exists i, j :: 0 <= i < |ps| && 0 <= j < |ps[i].activities| && ps[i].activities[j].id == id
  }

  /** Some pillar has id `id`. */
  ghost predicate HasPillar(ps: seq<Pillar>, id: string)
  {
    exists i :: 0 <= i < |ps| && ps[i].id == id
  }
}
