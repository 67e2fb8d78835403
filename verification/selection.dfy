/** Selected-particle lookup: from requested particle ids to positions in the
    local particle arrays, and the gather of one field at those positions. */
module Selection {
  import opened Wrappers
  import opened Search
  import opened Particles

  /** The requested ids that occur among the local ids, in request order, one
      entry per request (a repeated request stays repeated). */
  function PresentIds(selIds: seq<nat>, localIds: seq<nat>): (r: seq<nat>)
    ensures |r| <= |selIds|
    ensures |r| == |selIds| <==> forall j :: 0 <= j < |selIds| ==> selIds[j] in localIds
    ensures forall x :: x in r <==> x in selIds && x in localIds
  {
    if |selIds| == 0 then []
    else
      var n := |selIds| - 1;
      assert selIds == selIds[..n] + [selIds[n]];
      PresentIds(selIds[..n], localIds) + (if selIds[n] in localIds then [selIds[n]] else [])
  }

  /** The positions the lookup pushes back: for each requested id in turn, the
      position `std::find` gives for it, kept only when it lies before the end. */
  function SelectedPositions(selIds: seq<nat>, localIds: seq<nat>): (r: seq<nat>)
    ensures |r| <= |selIds|
    ensures forall k :: 0 <= k < |r| ==> r[k] < |localIds|
  {
    if |selIds| == 0 then []
    else
      var n := |selIds| - 1;
      var p := Find(localIds, selIds[n]);
      SelectedPositions(selIds[..n], localIds) + (if p < |localIds| then [p] else [])
  }

  /** The k-th position holds the k-th present id, and is the first local
      position holding it. */
  lemma {:induction false} SelectedPositionsAreFirstMatches(selIds: seq<nat>, localIds: seq<nat>)
    ensures |SelectedPositions(selIds, localIds)| == |PresentIds(selIds, localIds)|
    ensures forall k :: 0 <= k < |SelectedPositions(selIds, localIds)| ==>
      && localIds[SelectedPositions(selIds, localIds)[k]] == PresentIds(selIds, localIds)[k]
      && forall j :: 0 <= j < SelectedPositions(selIds, localIds)[k] ==>
           localIds[j] != PresentIds(selIds, localIds)[k]
  {
    if |selIds| > 0 {
      var n := |selIds| - 1;
      SelectedPositionsAreFirstMatches(selIds[..n], localIds);
    }
  }

  /** One position per requested id exactly when every requested id is local. */
  lemma SelectedCountExact(selIds: seq<nat>, localIds: seq<nat>)
    ensures |SelectedPositions(selIds, localIds)| == |selIds|
        <==> forall j :: 0 <= j < |selIds| ==> selIds[j] in localIds
  {
    SelectedPositionsAreFirstMatches(selIds, localIds);
  }

  /** The values of `field` at `positions`, in order, failing at the first
      position past the end as `std::vector::at` throws there. */
  function Gather<T>(field: seq<T>, positions: seq<nat>): (r: Result<seq<T>, Error>)
    ensures r.Success? <==> forall k :: 0 <= k < |positions| ==> positions[k] < |field|
    ensures r.Success? ==> |r.value| == |positions|
    ensures r.Success? ==> forall k :: 0 <= k < |positions| ==> r.value[k] == field[positions[k]]
    ensures r.Failure? ==> exists k ::
              && 0 <= k < |positions|
              && positions[k] >= |field|
              && r.error == OutOfRange(positions[k], |field|)
              && forall j :: 0 <= j < k ==> positions[j] < |field|
  {
    if |positions| == 0 then Success([])
    else
      var n := |positions| - 1;
      assert forall k :: 0 <= k < n ==> positions[..n][k] == positions[k];
      match Gather(field, positions[..n])
      case Failure(e) => Failure(e)
      case Success(prefix) =>
        if positions[n] < |field| then Success(prefix + [field[positions[n]]])
        else Failure(OutOfRange(positions[n], |field|))
  }

  /** Gathering the id array itself at the selected positions gives back the
      requested ids that are present, in request order. */
  lemma GatherSelectedIds(selIds: seq<nat>, localIds: seq<nat>)
    ensures Gather(localIds, SelectedPositions(selIds, localIds)) == Success(PresentIds(selIds, localIds))
  {
    SelectedPositionsAreFirstMatches(selIds, localIds);
    var g := Gather(localIds, SelectedPositions(selIds, localIds));
    assert g.value == PresentIds(selIds, localIds);
  }

  /** Gather over whichever array type the field variant holds; the result
      holds the same array type. */
  function GatherField(f: FieldData, positions: seq<nat>): (r: Result<FieldData, Error>)
    ensures r.Success? <==> forall k :: 0 <= k < |positions| ==> positions[k] < Size(f)
    ensures r.Success? ==> Size(r.value) == |positions|
    ensures r.Success? && f.Reals? ==>
              && r.value.Reals?
              && forall k :: 0 <= k < |positions| ==> r.value.reals[k] == f.reals[positions[k]]
    ensures r.Success? && f.Ints? ==>
              && r.value.Ints?
              && forall k :: 0 <= k < |positions| ==> r.value.ints[k] == f.ints[positions[k]]
    ensures r.Success? && f.Ids? ==>
              && r.value.Ids?
              && forall k :: 0 <= k < |positions| ==> r.value.ids[k] == f.ids[positions[k]]
  {
    match f
    case Reals(v) =>
      (match Gather(v, positions) case Success(g) => Success(Reals(g)) case Failure(e) => Failure(e))
    case Ints(v) =>
      (match Gather(v, positions) case Success(g) => Success(Ints(g)) case Failure(e) => Failure(e))
    case Ids(v) =>
      (match Gather(v, positions) case Success(g) => Success(Ids(g)) case Failure(e) => Failure(e))
  }

  /** The selection entry point: read the local ids from the "id" column, then
      look every requested id up in turn. */
  method GetSelectedParticleIndexes(selIds: seq<nat>, d: Dataset) returns (r: Result<seq<nat>, Error>)
    requires Valid(d) && "id" in d.outputFieldNames
    ensures r.Success? <==> LocalIds(d).Success?
    ensures r.Failure? ==> r.error == BadVariantAccess
    ensures r.Success? ==> r.value == SelectedPositions(selIds, LocalIds(d).value)
  {
    var ids := LocalIds(d);
    if ids.Failure? {
      return Failure(ids.error);
    }
    var localIds := ids.value;
    var positions: seq<nat> := [];
    for i := 0 to |selIds|
      invariant positions == SelectedPositions(selIds[..i], localIds)
    {
      var p := FindIndex(localIds, selIds[i]);
      if p < |localIds| {
        positions := positions + [p];
      }
      assert selIds[..i + 1][..i] == selIds[..i];
    }
    assert selIds[..|selIds|] == selIds;
    r := Success(positions);
  }
}
