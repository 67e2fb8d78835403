/** The parts of a particle dataset (hydro or chemistry data) that the field
    output and the particle selection read. */
module Particles {
  import opened Wrappers
  import opened Search

  /** What can go wrong: `std::vector::at` with a position past the end, or
      `std::get` on a field variant holding another array type. */
  datatype Error = OutOfRange(position: nat, size: nat) | BadVariantAccess

  /** One particle field array, as the field variant points to it. Floating
      point fields are `Reals`, integer fields `Ints`, and 64-bit unsigned
      arrays (particle ids) `Ids`. */
  datatype FieldData = Reals(reals: seq<real>) | Ints(ints: seq<int>) | Ids(ids: seq<nat>)

  /** Number of particles a field array holds. */
  function Size(f: FieldData): nat
  {
    match f
    case Reals(v) => |v|
    case Ints(v) => |v|
    case Ids(v) => |v|
  }

  /** A dataset: every field by index (`fieldNames`, `data()`, the allocation
      state), and the fields selected for output as the parallel lists
      `outputFieldIndices` / `outputFieldNames`. */
  datatype Dataset = Dataset(
    fieldNames: seq<string>,
    fields: seq<FieldData>,
    allocation: seq<bool>,
    outputFieldIndices: seq<nat>,
    outputFieldNames: seq<string>)

  /** The shape the output code relies on: one name and one allocation flag per
      field, parallel output lists, and every output index naming a field. */
  predicate Valid(d: Dataset)
  {
    && |d.fields| == |d.fieldNames| == |d.allocation|
    && |d.outputFieldNames| == |d.outputFieldIndices|
    && forall k :: 0 <= k < |d.outputFieldIndices| ==> d.outputFieldIndices[k] < |d.fields|
  }

  /** Every output name is the name of the field its output index points to. */
  predicate NamesAgree(d: Dataset)
    requires Valid(d)
  {
    forall k :: 0 <= k < |d.outputFieldIndices| ==>
      d.outputFieldNames[k] == d.fieldNames[d.outputFieldIndices[k]]
  }

  predicate IsAllocated(d: Dataset, fidx: nat)
    requires fidx < |d.allocation|
  {
    d.allocation[fidx]
  }

  /** The field index of the "id" column: the output index paired with the
      first output name equal to "id". */
  function IdColumn(d: Dataset): (c: nat)
    requires Valid(d) && "id" in d.outputFieldNames
    ensures c < |d.fields|
    ensures exists p ::
              && 0 <= p < |d.outputFieldNames|
              && d.outputFieldNames[p] == "id"
              && d.outputFieldIndices[p] == c
              && forall q :: 0 <= q < p ==> d.outputFieldNames[q] != "id"
  {
    var p := Find(d.outputFieldNames, "id");
    d.outputFieldIndices[p]
  }

  /** When output names agree with field names, the id column is a field named "id". */
  lemma IdColumnIsIdField(d: Dataset)
    requires Valid(d) && "id" in d.outputFieldNames && NamesAgree(d)
    ensures d.fieldNames[IdColumn(d)] == "id"
  {
    var p := Find(d.outputFieldNames, "id");
    assert d.outputFieldNames[p] == d.fieldNames[d.outputFieldIndices[p]];
  }

  /** The local particle ids: the id column read as a 64-bit unsigned array,
      failing the way `std::get` does when it holds another array type. */
  function LocalIds(d: Dataset): (r: Result<seq<nat>, Error>)
    requires Valid(d) && "id" in d.outputFieldNames
    ensures r.Success? <==> d.fields[IdColumn(d)].Ids?
    ensures r.Success? ==> r.value == d.fields[IdColumn(d)].ids
    ensures r.Failure? ==> r.error == BadVariantAccess
  {
    match d.fields[IdColumn(d)]
    case Ids(ids) => Success(ids)
    case _ => Failure(BadVariantAccess)
  }
}
