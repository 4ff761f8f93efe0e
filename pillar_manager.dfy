/** The catalog-editing handlers of the pillar manager. Each one takes the
    current pillar list and gives the list it hands to `onPillarsChange`;
    `None` means the handler returns without calling it. The text-field
    contents, the colour picked and the id the source takes from the clock
    are parameters. */
module PillarManager {
  import opened Wrappers
  import opened Seqs
  import opened Text
  import opened Types

  /** `handleAddPillar`: a blank name is ignored; otherwise one pillar with
      the trimmed name and no activities is appended after all the others. */
  function AddPillar(ps: seq<Pillar>, name: string, newId: string): (r: Option<seq<Pillar>>)
    ensures r.None? <==> IsBlank(name)
    ensures r.Some? ==> |r.value| == |ps| + 1 && r.value[..|ps|] == ps
    ensures r.Some? ==> r.value[|ps|] == Pillar(newId, Trim(name), [])
  {
    var trimmed := Trim(name);
    if trimmed == "" then None else Some(ps + [Pillar(newId, trimmed, [])])
  }

  /** The activity `handleAddActivity` creates: the new id, the typed name
      trimmed, the colour picked and a back-reference to its pillar. Its name
      is empty exactly when the typed name is blank, and is already trimmed. */
  function NewActivity(pillarId: string, name: string, color: string, newId: string): (a: Activity)
    ensures a.id == newId && a.color == color && a.pillarId == pillarId
    ensures a.name == Trim(name)
    ensures a.name == "" <==> IsBlank(name)
    ensures Trim(a.name) == a.name
  {
    TrimIdempotent(name);
    Activity(newId, Trim(name), color, pillarId)
  }

  /** `handleAddActivity(pillarId)`: a blank name is ignored; otherwise every
      pillar whose id is `pillarId` gets the new activity at the end of its
      list and every other pillar stays as it was. */
  function AddActivity(ps: seq<Pillar>, pillarId: string, name: string, color: string, newId: string)
    : (r: Option<seq<Pillar>>)
    ensures r.None? <==> IsBlank(name)
    ensures r.Some? ==> |r.value| == |ps|
    ensures r.Some? ==> forall i :: 0 <= i < |ps| && ps[i].id != pillarId ==> r.value[i] == ps[i]
    ensures r.Some? ==> forall i :: 0 <= i < |ps| && ps[i].id == pillarId ==>
      && r.value[i].id == ps[i].id
      && r.value[i].name == ps[i].name
      && r.value[i].activities == ps[i].activities + [Activity(newId, Trim(name), color, pillarId)]
  {
    if Trim(name) == "" then None
    else
      var added := NewActivity(pillarId, name, color, newId);
      Some(seq(|ps|, i requires 0 <= i < |ps| =>
        if ps[i].id == pillarId then ps[i].(activities := ps[i].activities + [added]) else ps[i]))
  }

  /** The `filter` callback of `handleDeletePillar`. */
  function NotPillar(id: string): Pillar -> bool
  {
    (q: Pillar) => q.id != id
  }

  /** The `filter` callback of `handleDeleteActivity`. */
  function NotActivity(id: string): Activity -> bool
  {
    (x: Activity) => x.id != id
  }

  /** `handleDeletePillar(pillarId)`: drops every pillar with that id, with
      its activities. */
  function DeletePillar(ps: seq<Pillar>, pillarId: string): (r: seq<Pillar>)
    ensures |r| <= |ps|
    ensures forall i :: 0 <= i < |r| ==> r[i].id != pillarId
    ensures !HasPillar(ps, pillarId) ==> r == ps
  {
    Filter(ps, NotPillar(pillarId))
  }

  /** `handleDeleteActivity(pillarId, activityId)`: inside the pillars with
      id `pillarId` drops the activities with id `activityId`; every pillar
      keeps its place, id and name, and the other pillars are untouched. */
  function DeleteActivity(ps: seq<Pillar>, pillarId: string, activityId: string): (r: seq<Pillar>)
    ensures |r| == |ps|
    ensures forall i :: 0 <= i < |ps| ==> r[i].id == ps[i].id && r[i].name == ps[i].name
    ensures forall i :: 0 <= i < |ps| && ps[i].id != pillarId ==> r[i] == ps[i]
    ensures forall i :: 0 <= i < |ps| && ps[i].id == pillarId ==>
      && |r[i].activities| <= |ps[i].activities|
      && forall j :: 0 <= j < |r[i].activities| ==> r[i].activities[j].id != activityId
  {
    seq(|ps|, i requires 0 <= i < |ps| =>
      if ps[i].id == pillarId
      then ps[i].(activities := Filter(ps[i].activities, NotActivity(activityId)))
      else ps[i])
  }

  // ----- What the deleted list still holds, and in which order -----

  /** A pillar survives `DeletePillar` exactly when its id is another one. */
  lemma DeletePillarMembers(ps: seq<Pillar>, pillarId: string, q: Pillar)
    ensures q in DeletePillar(ps, pillarId) <==> q in ps && q.id != pillarId
  {
    FilterMembers(ps, NotPillar(pillarId), q);
  }

  /** The surviving pillars are exactly those at the positions whose id is
      another one, in their original relative order. */
  lemma DeletePillarKeepsOrder(ps: seq<Pillar>, pillarId: string)
    ensures exists idx ::
      && SelectsPositions(ps, idx, DeletePillar(ps, pillarId))
      && forall i :: 0 <= i < |ps| ==> (ps[i].id != pillarId <==> i in idx)
  {
    var keep := NotPillar(pillarId);
    FilterKeepsOrder(ps, keep);
    var idx := KeptIndices(ps, keep);
    assert forall i :: 0 <= i < |ps| ==> (ps[i].id != pillarId <==> i in idx) by {
      forall i | 0 <= i < |ps| ensures ps[i].id != pillarId <==> i in idx {
        assert keep(ps[i]) == (ps[i].id != pillarId);
      }
    }
    assert SelectsPositions(ps, idx, DeletePillar(ps, pillarId));
  }

  /** Inside a pillar the deletion targets, an activity survives exactly
      when its id is another one, and survivors keep their relative order
      (so same-id activities elsewhere are not touched, by the contract). */
  lemma DeleteActivityKeepsOrder(ps: seq<Pillar>, pillarId: string, activityId: string, i: int)
    requires 0 <= i < |ps| && ps[i].id == pillarId
    ensures var acts := ps[i].activities;
      exists idx ::
        && SelectsPositions(acts, idx, DeleteActivity(ps, pillarId, activityId)[i].activities)
        && forall j :: 0 <= j < |acts| ==> (acts[j].id != activityId <==> j in idx)
  {
    var keep := NotActivity(activityId);
    var acts := ps[i].activities;
    FilterKeepsOrder(acts, keep);
    var idx := KeptIndices(acts, keep);
    assert DeleteActivity(ps, pillarId, activityId)[i].activities == Filter(acts, keep);
    assert forall j :: 0 <= j < |acts| ==> (acts[j].id != activityId <==> j in idx) by {
      forall j | 0 <= j < |acts| ensures acts[j].id != activityId <==> j in idx {
        assert keep(acts[j]) == (acts[j].id != activityId);
      }
    }
  }

  // ----- Edge cases that leave the catalog as it was -----

  /** Adding an activity to a pillar id no pillar has changes nothing:
      either the name is blank and nothing is emitted, or the same list is. */
  lemma AddActivityToMissingPillar(ps: seq<Pillar>, pillarId: string, name: string, color: string, newId: string)
    requires !HasPillar(ps, pillarId)
    ensures AddActivity(ps, pillarId, name, color, newId).Some? ==>
      AddActivity(ps, pillarId, name, color, newId).value == ps
  {
  }

  /** Deleting a pillar twice is deleting it once. */
  lemma DeletePillarIdempotent(ps: seq<Pillar>, pillarId: string)
    ensures DeletePillar(DeletePillar(ps, pillarId), pillarId) == DeletePillar(ps, pillarId)
  {
    var r := DeletePillar(ps, pillarId);
    assert !HasPillar(r, pillarId);
  }

  /** Deleting an activity twice is deleting it once. */
  lemma DeleteActivityIdempotent(ps: seq<Pillar>, pillarId: string, activityId: string)
    ensures DeleteActivity(DeleteActivity(ps, pillarId, activityId), pillarId, activityId)
      == DeleteActivity(ps, pillarId, activityId)
  {
    var r := DeleteActivity(ps, pillarId, activityId);
    var keep := NotActivity(activityId);
    forall i | 0 <= i < |r| && r[i].id == pillarId
      ensures Filter(r[i].activities, keep) == r[i].activities
    {
      assert forall j :: 0 <= j < |r[i].activities| ==> keep(r[i].activities[j]);
    }
  }

  // ----- Deleting what was just added gives back the old catalog -----

  /** Deleting the pillar just added, under an id no pillar had, restores
      the old list. */
  lemma AddThenDeletePillar(ps: seq<Pillar>, name: string, newId: string)
    requires !IsBlank(name) && !HasPillar(ps, newId)
    ensures DeletePillar(AddPillar(ps, name, newId).value, newId) == ps
  {
    var newcomer := Pillar(newId, Trim(name), []);
    assert AddPillar(ps, name, newId).value == ps + [newcomer];
    FilterAppend(ps, newcomer, NotPillar(newId));
  }

  /** Deleting the activity just added, under an id no activity had, from
      the pillar it was added to restores the old catalog. */
  lemma AddThenDeleteActivity(ps: seq<Pillar>, pillarId: string, name: string, color: string, newId: string)
    requires !IsBlank(name) && !HasActivity(ps, newId)
    ensures DeleteActivity(AddActivity(ps, pillarId, name, color, newId).value, pillarId, newId) == ps
  {
    var added := AddActivity(ps, pillarId, name, color, newId).value;
    var r := DeleteActivity(added, pillarId, newId);
    var keep := NotActivity(newId);
    forall i | 0 <= i < |ps| ensures r[i] == ps[i] {
      if ps[i].id == pillarId {
        var acts := ps[i].activities;
        var newcomer := Activity(newId, Trim(name), color, pillarId);
        FilterAppend(acts, newcomer, keep);
        assert forall j :: 0 <= j < |acts| ==> keep(acts[j]);
        assert r[i].activities == Filter(acts, keep) == acts;
      }
    }
  }

  // ----- The catalog invariants survive every handler -----

  /** Appending a pillar under an unused id keeps the catalog valid. */
  lemma AddPillarKeepsCatalogValid(ps: seq<Pillar>, name: string, newId: string)
    requires ValidCatalog(ps) && !HasPillar(ps, newId)
    ensures AddPillar(ps, name, newId).Some? ==> ValidCatalog(AddPillar(ps, name, newId).value)
  {
    if !IsBlank(name) {
      var r := AddPillar(ps, name, newId).value;
      assert forall i :: 0 <= i < |ps| ==> r[i] == ps[i];
      assert r[|ps|].activities == [];
    }
  }

  /** Where activity `j` of pillar `i` comes from after `AddActivity`: the
      old activity at the same place, or else the new activity appended to a
      pillar with the target id. */
  lemma AddActivitySource(ps: seq<Pillar>, pillarId: string, name: string, color: string, newId: string,
                          i: int, j: int)
    requires !IsBlank(name)
    requires 0 <= i < |ps| && 0 <= j < |AddActivity(ps, pillarId, name, color, newId).value[i].activities|
    ensures var r := AddActivity(ps, pillarId, name, color, newId).value;
      if j < |ps[i].activities| then r[i].activities[j] == ps[i].activities[j]
      else ps[i].id == pillarId && r[i].activities[j] == NewActivity(pillarId, name, color, newId)
  {
  }

  /** Adding an activity under an id no activity has keeps the catalog
      valid: the new activity points back at its pillar, and since pillar
      ids are unique it lands in at most one pillar. */
  lemma AddActivityKeepsCatalogValid(ps: seq<Pillar>, pillarId: string, name: string, color: string, newId: string)
    requires ValidCatalog(ps) && !HasActivity(ps, newId)
    ensures AddActivity(ps, pillarId, name, color, newId).Some? ==>
      ValidCatalog(AddActivity(ps, pillarId, name, color, newId).value)
  {
    if !IsBlank(name) {
      var r := AddActivity(ps, pillarId, name, color, newId).value;
      forall i, j | 0 <= i < |r| && 0 <= j < |r[i].activities|
        ensures r[i].activities[j].pillarId == r[i].id
      {
        AddActivitySource(ps, pillarId, name, color, newId, i, j);
      }
      forall i, j, k, l |
        && 0 <= i < |r| && 0 <= j < |r[i].activities|
        && 0 <= k < |r| && 0 <= l < |r[k].activities|
        && (i, j) != (k, l)
        ensures r[i].activities[j].id != r[k].activities[l].id
      {
        AddActivitySource(ps, pillarId, name, color, newId, i, j);
        AddActivitySource(ps, pillarId, name, color, newId, k, l);
        var oldI, oldK := j < |ps[i].activities|, l < |ps[k].activities|;
        if oldI && !oldK {
          assert r[i].activities[j].id == ps[i].activities[j].id != newId;
        } else if !oldI && oldK {
          assert r[k].activities[l].id == ps[k].activities[l].id != newId;
        } else if !oldI && !oldK {
          // Both would be the new activity, in two pillars sharing an id.
          assert false;
        }
      }
    }
  }

  /** Deleting pillars keeps pillar ids unique. */
  lemma DeletePillarKeepsPillarIdsUnique(ps: seq<Pillar>, pillarId: string)
    requires UniquePillarIds(ps)
    ensures UniquePillarIds(DeletePillar(ps, pillarId))
  {
    var r := DeletePillar(ps, pillarId);
    FilterKeepsOrder(ps, NotPillar(pillarId));
    var idx := KeptIndices(ps, NotPillar(pillarId));
    forall i, k | 0 <= i < k < |r| ensures r[i].id != r[k].id {
      assert r[i] == ps[idx[i]] && r[k] == ps[idx[k]] && idx[i] < idx[k];
    }
  }

  /** Two distinct activity positions left by `DeletePillar` hold distinct
      ids, because they come from distinct old positions. */
  lemma DeletePillarSurvivorsDistinct(ps: seq<Pillar>, pillarId: string, i: int, j: int, k: int, l: int)
    requires UniqueActivityIds(ps)
    requires var r := DeletePillar(ps, pillarId);
      && 0 <= i < |r| && 0 <= j < |r[i].activities|
      && 0 <= k < |r| && 0 <= l < |r[k].activities|
    requires (i, j) != (k, l)
    ensures var r := DeletePillar(ps, pillarId);
      r[i].activities[j].id != r[k].activities[l].id
  {
    var r := DeletePillar(ps, pillarId);
    FilterKeepsOrder(ps, NotPillar(pillarId));
    var idx := KeptIndices(ps, NotPillar(pillarId));
    assert r[i] == ps[idx[i]] && r[k] == ps[idx[k]];
    assert (idx[i], j) != (idx[k], l) by {
      if i < k { assert idx[i] < idx[k]; } else if k < i { assert idx[k] < idx[i]; }
    }
  }

  /** Deleting pillars keeps activity ids unique. */
  lemma DeletePillarKeepsActivityIdsUnique(ps: seq<Pillar>, pillarId: string)
    requires UniqueActivityIds(ps)
    ensures UniqueActivityIds(DeletePillar(ps, pillarId))
  {
    var r := DeletePillar(ps, pillarId);
    forall i, j, k, l |
      && 0 <= i < |r| && 0 <= j < |r[i].activities|
      && 0 <= k < |r| && 0 <= l < |r[k].activities|
      && (i, j) != (k, l)
      ensures r[i].activities[j].id != r[k].activities[l].id
    {
      DeletePillarSurvivorsDistinct(ps, pillarId, i, j, k, l);
    }
  }

  /** Deleting pillars keeps every back-reference: the surviving pillars are
      old pillars, unchanged. */
  lemma DeletePillarKeepsBackRefs(ps: seq<Pillar>, pillarId: string)
    requires BackRefsHold(ps)
    ensures BackRefsHold(DeletePillar(ps, pillarId))
  {
    var r := DeletePillar(ps, pillarId);
    FilterKeepsOrder(ps, NotPillar(pillarId));
    var idx := KeptIndices(ps, NotPillar(pillarId));
    forall i, j | 0 <= i < |r| && 0 <= j < |r[i].activities|
      ensures r[i].activities[j].pillarId == r[i].id
    {
      assert r[i] == ps[idx[i]];
    }
  }

  /** Deleting pillars keeps the catalog valid. */
  lemma DeletePillarKeepsCatalogValid(ps: seq<Pillar>, pillarId: string)
    requires ValidCatalog(ps)
    ensures ValidCatalog(DeletePillar(ps, pillarId))
  {
    DeletePillarKeepsPillarIdsUnique(ps, pillarId);
    DeletePillarKeepsActivityIdsUnique(ps, pillarId);
    DeletePillarKeepsBackRefs(ps, pillarId);
  }

  /** The position in the old pillar `i` of activity `j` of pillar `i` after
      `DeleteActivity`. */
  ghost function SourcePosition(ps: seq<Pillar>, pillarId: string, activityId: string, i: int, j: int): int
    requires 0 <= i < |ps|
  {
    if ps[i].id == pillarId then
      var kept := KeptIndices(ps[i].activities, NotActivity(activityId));
      if 0 <= j < |kept| then kept[j] else j
    else j
  }

  /** Every activity left by `DeleteActivity` is the old activity at its
      source position, and distinct positions come from distinct ones. */
  lemma DeleteActivitySources(ps: seq<Pillar>, pillarId: string, activityId: string, i: int)
    requires 0 <= i < |ps|
    ensures var r := DeleteActivity(ps, pillarId, activityId);
      && (forall j :: 0 <= j < |r[i].activities| ==>
            && 0 <= SourcePosition(ps, pillarId, activityId, i, j) < |ps[i].activities|
            && r[i].activities[j] == ps[i].activities[SourcePosition(ps, pillarId, activityId, i, j)])
      && (forall j, l :: 0 <= j < l < |r[i].activities| ==>
            SourcePosition(ps, pillarId, activityId, i, j) < SourcePosition(ps, pillarId, activityId, i, l))
  {
    if ps[i].id == pillarId {
      FilterKeepsOrder(ps[i].activities, NotActivity(activityId));
    }
  }

  /** Two distinct activity positions left by `DeleteActivity` hold
      distinct ids, because they come from distinct old positions. */
  lemma DeleteActivitySurvivorsDistinct(ps: seq<Pillar>, pillarId: string, activityId: string,
                                        i: int, j: int, k: int, l: int)
    requires UniqueActivityIds(ps)
    requires var r := DeleteActivity(ps, pillarId, activityId);
      && 0 <= i < |r| && 0 <= j < |r[i].activities|
      && 0 <= k < |r| && 0 <= l < |r[k].activities|
    requires (i, j) != (k, l)
    ensures var r := DeleteActivity(ps, pillarId, activityId);
      r[i].activities[j].id != r[k].activities[l].id
  {
    var r := DeleteActivity(ps, pillarId, activityId);
    DeleteActivitySources(ps, pillarId, activityId, i);
    DeleteActivitySources(ps, pillarId, activityId, k);
    var j', l' := SourcePosition(ps, pillarId, activityId, i, j), SourcePosition(ps, pillarId, activityId, k, l);
    assert (i, j') != (k, l') by {
      if i == k {
        if j < l { assert j' < l'; } else { assert l' < j'; }
      }
    }
    assert r[i].activities[j] == ps[i].activities[j'];
    assert r[k].activities[l] == ps[k].activities[l'];
  }

  /** Deleting activities keeps activity ids unique. */
  lemma DeleteActivityKeepsIdsUnique(ps: seq<Pillar>, pillarId: string, activityId: string)
    requires UniqueActivityIds(ps)
    ensures UniqueActivityIds(DeleteActivity(ps, pillarId, activityId))
  {
    var r := DeleteActivity(ps, pillarId, activityId);
    forall i, j, k, l |
      && 0 <= i < |r| && 0 <= j < |r[i].activities|
      && 0 <= k < |r| && 0 <= l < |r[k].activities|
      && (i, j) != (k, l)
      ensures r[i].activities[j].id != r[k].activities[l].id
    {
      DeleteActivitySurvivorsDistinct(ps, pillarId, activityId, i, j, k, l);
    }
  }

  /** Deleting activities keeps every back-reference: survivors stay in the
      pillar they came from. */
  lemma DeleteActivityKeepsBackRefs(ps: seq<Pillar>, pillarId: string, activityId: string)
    requires BackRefsHold(ps)
    ensures BackRefsHold(DeleteActivity(ps, pillarId, activityId))
  {
    var r := DeleteActivity(ps, pillarId, activityId);
    forall i, j | 0 <= i < |r| && 0 <= j < |r[i].activities|
      ensures r[i].activities[j].pillarId == r[i].id
    {
      DeleteActivitySources(ps, pillarId, activityId, i);
      assert r[i].activities[j] == ps[i].activities[SourcePosition(ps, pillarId, activityId, i, j)];
    }
  }

  /** Deleting activities keeps the catalog valid. */
  lemma DeleteActivityKeepsCatalogValid(ps: seq<Pillar>, pillarId: string, activityId: string)
    requires ValidCatalog(ps)
    ensures ValidCatalog(DeleteActivity(ps, pillarId, activityId))
  {
    DeleteActivityKeepsIdsUnique(ps, pillarId, activityId);
    DeleteActivityKeepsBackRefs(ps, pillarId, activityId);
  }
}
