/** Writing the output fields of a dataset: the backward walk over the output
    field list that writes every allocated field and erases it from a working
    copy, leaving the unallocated ones behind. The writer is modelled by the
    calls it receives. */
module FieldOutput {
  import opened Wrappers
  import opened Search
  import opened Particles
  import opened Selection

  /** One `writeField(key, data, column)` call received by the writer. */
  datatype WriteCall = WriteCall(key: string, column: nat, data: FieldData)

  /** What is handed to the writer for one field: the whole array, or, when
      particles are selected, only their values. */
  function Payload(f: FieldData, selection: Option<seq<nat>>): Result<FieldData, Error>
  {
    match selection
    case None => Success(f)
    case Some(positions) => GatherField(f, positions)
  }

  /** The call made for the output field at position `p` of the output lists:
      keyed by the output name at `p`, in the column where the field index
      first occurs in `outputFieldIndices`. */
  function Call(d: Dataset, selection: Option<seq<nat>>, p: nat): (r: Result<WriteCall, Error>)
    requires Valid(d) && p < |d.outputFieldIndices|
  {
    var fidx := d.outputFieldIndices[p];
    match Payload(d.fields[fidx], selection)
    case Failure(e) => Failure(e)
    case Success(data) => Success(WriteCall(d.outputFieldNames[p], Find(d.outputFieldIndices, fidx), data))
  }

  /** Positions at or above `lo` whose output field is allocated, highest first:
      the order in which the backward walk writes them. */
  function Slots(d: Dataset, lo: nat): (r: seq<nat>)
    requires Valid(d) && lo <= |d.outputFieldIndices|
    ensures forall k :: 0 <= k < |r| ==> lo <= r[k] < |d.outputFieldIndices|
    decreases |d.outputFieldIndices| - lo
  {
    if lo == |d.outputFieldIndices| then []
    else Slots(d, lo + 1) + (if IsAllocated(d, d.outputFieldIndices[lo]) then [lo] else [])
  }

  /** Every allocated output position at or above `lo` is a slot, and no other;
      slots strictly decrease, so each position is written at most once. */
  lemma {:induction false} SlotsAreAllocatedPositions(d: Dataset, lo: nat)
    requires Valid(d) && lo <= |d.outputFieldIndices|
    ensures forall p :: p in Slots(d, lo) <==>
      lo <= p < |d.outputFieldIndices| && IsAllocated(d, d.outputFieldIndices[p])
    ensures forall a, b :: 0 <= a < b < |Slots(d, lo)| ==> Slots(d, lo)[a] > Slots(d, lo)[b]
    decreases |d.outputFieldIndices| - lo
  {
    if lo < |d.outputFieldIndices| {
      SlotsAreAllocatedPositions(d, lo + 1);
    }
  }

  /** Walking down further only appends: the slots above `hi` come first among
      the slots above `lo`. */
  lemma {:induction false} SlotsPrefix(d: Dataset, lo: nat, hi: nat)
    requires Valid(d) && lo <= hi <= |d.outputFieldIndices|
    ensures Slots(d, hi) <= Slots(d, lo)
    decreases hi - lo
  {
    if lo < hi {
      SlotsPrefix(d, lo + 1, hi);
    }
  }

  /** Output field indices at or above position `lo` whose field is not
      allocated, in their original order. */
  function UnusedFrom(d: Dataset, lo: nat): (r: seq<nat>)
    requires Valid(d) && lo <= |d.outputFieldIndices|
    ensures forall k :: 0 <= k < |r| ==> r[k] < |d.fields|
    decreases |d.outputFieldIndices| - lo
  {
    if lo == |d.outputFieldIndices| then []
    else
      var fidx := d.outputFieldIndices[lo];
      (if IsAllocated(d, fidx) then [] else [fidx]) + UnusedFrom(d, lo + 1)
  }

  /** The output names paired with `UnusedFrom(d, lo)`, pruned in step with it. */
  function UnusedNamesFrom(d: Dataset, lo: nat): seq<string>
    requires Valid(d) && lo <= |d.outputFieldIndices|
    decreases |d.outputFieldIndices| - lo
  {
    if lo == |d.outputFieldIndices| then []
    else
      var fidx := d.outputFieldIndices[lo];
      (if IsAllocated(d, fidx) then [] else [d.outputFieldNames[lo]]) + UnusedNamesFrom(d, lo + 1)
  }

  /** The written slots and the unused fields split the output positions at or
      above `lo` between them; an index is left unused exactly when some output
      position holds it and its field is not allocated; the name list keeps one
      name per unused index. */
  lemma {:induction false} UnusedPartition(d: Dataset, lo: nat)
    requires Valid(d) && lo <= |d.outputFieldIndices|
    ensures |UnusedFrom(d, lo)| + |Slots(d, lo)| == |d.outputFieldIndices| - lo
    ensures |UnusedNamesFrom(d, lo)| == |UnusedFrom(d, lo)|
    ensures forall x :: x in UnusedFrom(d, lo) <==> exists p ::
      && lo <= p < |d.outputFieldIndices|
      && d.outputFieldIndices[p] == x
      && !IsAllocated(d, x)
    decreases |d.outputFieldIndices| - lo
  {
    if lo < |d.outputFieldIndices| {
      UnusedPartition(d, lo + 1);
    }
  }

  /** The shared loop: walk the output list from the back, write each allocated
      field and erase it from the working copies of both output lists. On a
      failed payload the walk stops with the calls made so far. */
  method WriteAllocatedFields(d: Dataset, selection: Option<seq<nat>>)
    returns (writes: seq<WriteCall>, unused: seq<nat>, unusedNames: seq<string>, failure: Option<Error>)
    requires Valid(d)
    ensures |writes| <= |Slots(d, 0)|
    ensures forall k :: 0 <= k < |writes| ==> Call(d, selection, Slots(d, 0)[k]) == Success(writes[k])
    ensures failure.None? ==> |writes| == |Slots(d, 0)|
    ensures failure.None? ==> unused == UnusedFrom(d, 0) && unusedNames == UnusedNamesFrom(d, 0)
    ensures failure.Some? ==>
              && |writes| < |Slots(d, 0)|
              && Call(d, selection, Slots(d, 0)[|writes|]) == Failure(failure.value)
  {
    var indicesDone := d.outputFieldIndices;
    var namesDone := d.outputFieldNames;
    writes := [];
    var i: int := |indicesDone| - 1;
    while i >= 0
      invariant -1 <= i < |d.outputFieldIndices|
      invariant indicesDone == d.outputFieldIndices[..i + 1] + UnusedFrom(d, i + 1)
      invariant namesDone == d.outputFieldNames[..i + 1] + UnusedNamesFrom(d, i + 1)
      invariant |writes| == |Slots(d, i + 1)|
      invariant forall k :: 0 <= k < |writes| ==> Call(d, selection, Slots(d, i + 1)[k]) == Success(writes[k])
      decreases i
    {
      EraseBelowKeepsPrefix(indicesDone, d.outputFieldIndices, UnusedFrom(d, i + 1), i);
      EraseBelowKeepsPrefix(namesDone, d.outputFieldNames, UnusedNamesFrom(d, i + 1), i);
      var fidx := indicesDone[i];
      if IsAllocated(d, fidx) {
        var column := Find(d.outputFieldIndices, fidx);
        var data := Payload(d.fields[fidx], selection);
        assert Slots(d, i) == Slots(d, i + 1) + [i];
        if data.Failure? {
          SlotsPrefix(d, 0, i);
          return writes, indicesDone, namesDone, Some(data.error);
        }
        var call := WriteCall(namesDone[i], column, data.value);
        assert Call(d, selection, i) == Success(call);
        writes := writes + [call];
        indicesDone := indicesDone[..i] + indicesDone[i + 1..];
        namesDone := namesDone[..i] + namesDone[i + 1..];
      } else {
        assert Slots(d, i) == Slots(d, i + 1);
      }
      i := i - 1;
    }
    unused, unusedNames, failure := indicesDone, namesDone, None;
  }

  /** Erasing the element at `i` from a list whose first `i + 1` elements are
      still those of `a` leaves the elements below `i` in place: the ones the
      backward walk has yet to visit. */
  lemma EraseBelowKeepsPrefix<T>(w: seq<T>, a: seq<T>, tail: seq<T>, i: nat)
    requires i < |a| && w == a[..i + 1] + tail
    ensures w[i] == a[i]
    ensures w[..i] + w[i + 1..] == a[..i] + tail
    ensures w == a[..i] + ([a[i]] + tail)
  {
    assert a[..i + 1] == a[..i] + [a[i]];
  }

  /** What the call for position `p` carries: it fails exactly when the payload
      does; its key is the output name at `p`; its column is the first output
      position holding the same field index, which is `p` itself when the
      output indices are distinct. */
  lemma CallContents(d: Dataset, selection: Option<seq<nat>>, p: nat)
    requires Valid(d) && p < |d.outputFieldIndices|
    ensures Call(d, selection, p).Success? <==> Payload(d.fields[d.outputFieldIndices[p]], selection).Success?
    ensures selection.None? ==> Call(d, selection, p).Success?
    ensures Call(d, selection, p).Success? ==>
              && Call(d, selection, p).value.key == d.outputFieldNames[p]
              && Call(d, selection, p).value.column <= p
              && d.outputFieldIndices[Call(d, selection, p).value.column] == d.outputFieldIndices[p]
              && forall j :: 0 <= j < Call(d, selection, p).value.column ==>
                   d.outputFieldIndices[j] != d.outputFieldIndices[p]
    ensures Call(d, selection, p).Success? && Distinct(d.outputFieldIndices) ==>
              Call(d, selection, p).value.column == p
  {
  }

  /** No field index occurs twice. */
  predicate Distinct(s: seq<nat>)
  {
    forall a, b :: 0 <= a < b < |s| ==> s[a] != s[b]
  }

  /** Writing all allocated fields of the hydro and then of the chemistry
      dataset, each followed by the warning about the fields left unused, in
      its corrected form (see `WarningAsWritten` for the printed one). */
  method OutputAllocatedFields(hydro: Dataset, chem: Dataset, rank: int)
    returns (writes: seq<WriteCall>, hydroWarning: Option<seq<string>>, chemWarning: Option<seq<string>>)
    requires Valid(hydro) && Valid(chem)
    ensures |writes| == |Slots(hydro, 0)| + |Slots(chem, 0)|
    ensures forall k :: 0 <= k < |Slots(hydro, 0)| ==>
      Call(hydro, None, Slots(hydro, 0)[k]) == Success(writes[k])
    ensures forall k :: 0 <= k < |Slots(chem, 0)| ==>
      Call(chem, None, Slots(chem, 0)[k]) == Success(writes[|Slots(hydro, 0)| + k])
    ensures hydroWarning == UnusedFieldWarning(hydro, rank)
    ensures chemWarning == UnusedFieldWarning(chem, rank)
  {
    var hydroWrites, hydroUnused, _, hydroFailure := WriteAllocatedFields(hydro, None);
    assert hydroUnused == UnusedFrom(hydro, 0);
    hydroWarning := UnusedFieldWarning(hydro, rank);
    var chemWrites, chemUnused, _, chemFailure := WriteAllocatedFields(chem, None);
    assert chemUnused == UnusedFrom(chem, 0);
    chemWarning := UnusedFieldWarning(chem, rank);
    writes := hydroWrites + chemWrites;
  }

  /** Writing the allocated fields of the hydro dataset restricted to the
      selected particles; stops at the first field too short for a selected
      position. */
  method OutputSelParticlesAllocatedFields(d: Dataset, positions: seq<nat>)
    returns (writes: seq<WriteCall>, failure: Option<Error>)
    requires Valid(d)
    ensures |writes| <= |Slots(d, 0)|
    ensures forall k :: 0 <= k < |writes| ==> Call(d, Some(positions), Slots(d, 0)[k]) == Success(writes[k])
    ensures failure.None? <==> |writes| == |Slots(d, 0)|
    ensures failure.Some? ==> Call(d, Some(positions), Slots(d, 0)[|writes|]) == Failure(failure.value)
  {
    var w, _, _, f := WriteAllocatedFields(d, Some(positions));
    writes, failure := w, f;
  }

  /** The field names at the given field indices. */
  function FieldNamesOf(fieldNames: seq<string>, fidxs: seq<nat>): (r: seq<string>)
    requires forall k :: 0 <= k < |fidxs| ==> fidxs[k] < |fieldNames|
    ensures |r| == |fidxs|
    ensures forall k :: 0 <= k < |fidxs| ==> r[k] == fieldNames[fidxs[k]]
  {
    seq(|fidxs|, k requires 0 <= k < |fidxs| => fieldNames[fidxs[k]])
  }

  /** The warning printed on rank 0 for the working list a completed walk
      leaves, naming the field of each unused index (the corrected form of the
      warning loop). */
  function UnusedFieldWarning(d: Dataset, rank: int): Option<seq<string>>
    requires Valid(d)
  {
    var unused := UnusedFrom(d, 0);
    if unused != [] && rank == 0 then Some(FieldNamesOf(d.fieldNames, unused)) else None
  }

  /** The warning is printed on rank 0 exactly when some output field is not
      allocated, and then names the fields of the unused indices in order;
      when output names agree with field names these are the names the walk
      left in its working name list. */
  lemma WarningListsUnusedFields(d: Dataset, rank: int)
    requires Valid(d)
    ensures UnusedFieldWarning(d, rank).Some? <==>
      rank == 0 && exists p :: 0 <= p < |d.outputFieldIndices| && !IsAllocated(d, d.outputFieldIndices[p])
    ensures UnusedFieldWarning(d, rank).Some? ==>
              && |UnusedFieldWarning(d, rank).value| == |UnusedFrom(d, 0)|
              && forall k :: 0 <= k < |UnusedFrom(d, 0)| ==>
                   UnusedFieldWarning(d, rank).value[k] == d.fieldNames[UnusedFrom(d, 0)[k]]
    ensures UnusedFieldWarning(d, rank).Some? && NamesAgree(d) ==>
      UnusedFieldWarning(d, rank).value == UnusedNamesFrom(d, 0)
  {
    UnusedPartition(d, 0);
    var unused := UnusedFrom(d, 0);
    if exists p :: 0 <= p < |d.outputFieldIndices| && !IsAllocated(d, d.outputFieldIndices[p]) {
      var p :| 0 <= p < |d.outputFieldIndices| && !IsAllocated(d, d.outputFieldIndices[p]);
      assert d.outputFieldIndices[p] in unused;
    }
    if unused != [] {
      assert unused[0] in unused;
    }
    if NamesAgree(d) {
      UnusedNamesAgree(d, 0);
    }
  }

  /** With output names agreeing with field names, the pruned name list is the
      list of names of the pruned index list. */
  lemma {:induction false} UnusedNamesAgree(d: Dataset, lo: nat)
    requires Valid(d) && NamesAgree(d) && lo <= |d.outputFieldIndices|
    ensures UnusedNamesFrom(d, lo) == FieldNamesOf(d.fieldNames, UnusedFrom(d, lo))
    decreases |d.outputFieldIndices| - lo
  {
    if lo < |d.outputFieldIndices| {
      UnusedNamesAgree(d, lo + 1);
      UnusedPartition(d, lo + 1);
    }
  }

  /** The warning as the output code prints it: for every unused index but the
      last it prints the name of the field whose index is the loop counter, and
      only for the last the name of the unused field itself. */
  function WarningAsWritten(d: Dataset, rank: int): (r: Option<seq<string>>)
    requires Valid(d) && |UnusedFrom(d, 0)| <= |d.fieldNames| + 1
    ensures r.Some? <==> UnusedFieldWarning(d, rank).Some?
    ensures r.Some? ==> |r.value| == |UnusedFrom(d, 0)|
    ensures r.Some? ==> forall k :: 0 <= k < |r.value| - 1 ==> r.value[k] == d.fieldNames[k]
    ensures r.Some? ==>
      r.value[|r.value| - 1] == d.fieldNames[UnusedFrom(d, 0)[|UnusedFrom(d, 0)| - 1]]
  {
    var unused := UnusedFrom(d, 0);
    if unused != [] && rank == 0 then
      var n := |unused| - 1;
      Some(d.fieldNames[..n] + [d.fieldNames[unused[n]]])
    else None
  }

  /** Three fields "x", "y", "z", none allocated, "y" and "z" selected for
      output: the printed warning names "x", which is not an output field,
      instead of "y". */
  lemma WarningAsWrittenMisnames()
    ensures var d := Dataset(["x", "y", "z"], [Reals([]), Reals([]), Reals([])],
                             [false, false, false], [1, 2], ["y", "z"]);
            && Valid(d) && NamesAgree(d)
            && UnusedFrom(d, 0) == [1, 2]
            && WarningAsWritten(d, 0) == Some(["x", "z"])
            && UnusedFieldWarning(d, 0) == Some(["y", "z"])
            && "x" !in d.outputFieldNames
  {
    var d := Dataset(["x", "y", "z"], [Reals([]), Reals([]), Reals([])],
                     [false, false, false], [1, 2], ["y", "z"]);
    assert UnusedFrom(d, 2) == [];
    assert UnusedFrom(d, 1) == [2];
    assert UnusedFrom(d, 0) == [1, 2];
    assert d.fieldNames[..1] == ["x"];
    assert d.fieldNames[..1] + [d.fieldNames[2]] == ["x", "z"];
    assert FieldNamesOf(d.fieldNames, [1, 2]) == ["y", "z"];
  }

  /** Positions produced by the lookup never make the selected output fail
      while every allocated output field holds at least as many particles as
      the local id array. */
  lemma SelectedOutputSucceeds(d: Dataset, selIds: seq<nat>, localIds: seq<nat>, p: nat)
    requires Valid(d) && p < |d.outputFieldIndices|
    requires Size(d.fields[d.outputFieldIndices[p]]) >= |localIds|
    ensures Call(d, Some(SelectedPositions(selIds, localIds)), p).Success?
  {
  }

  /** Writing the id column for the selected particles writes back exactly the
      requested ids that are present locally, in request order. */
  lemma SelectedIdColumnRoundTrip(d: Dataset, selIds: seq<nat>, p: nat)
    requires Valid(d) && "id" in d.outputFieldNames && LocalIds(d).Success?
    requires p < |d.outputFieldIndices| && d.outputFieldIndices[p] == IdColumn(d)
    ensures Call(d, Some(SelectedPositions(selIds, LocalIds(d).value)), p).Success?
    ensures Call(d, Some(SelectedPositions(selIds, LocalIds(d).value)), p).value.data
         == Ids(PresentIds(selIds, LocalIds(d).value))
  {
    var ids := LocalIds(d).value;
    GatherSelectedIds(selIds, ids);
  }
}
