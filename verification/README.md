# SPH-EXA propagator: selected-particle lookup and field output

This project models the field-output and particle-selection logic of the SPH-EXA
propagator base class (`Propagator` in `main/src/propagator/ipropagator.hpp`).
It proves properties of that model:

- **Selected-particle lookup** (`getSelectedParticleIndexes`). It finds the "id"
  output column. Then, for every requested particle id in request order, it finds
  the first local position holding that id with `std::find`. It keeps the position
  only when the id is present.
- **Gather.** The values of one field at the selected positions, read with
  `std::vector::at`, which throws past the end.
- **Backward output walk** (`outputAllocatedFields` and
  `outputSelParticlesAllocatedFields`). It walks copies of the parallel lists
  `outputFieldIndices` / `outputFieldNames` from the back. It writes every allocated
  field under its output name, in the column where its index first occurs, and erases
  it from both copies. What is left is the list of unused fields, which
  `outputAllocatedFields` reports in a warning on rank 0.

The writer is modelled by the `writeField(key, data, column)` calls it receives
(`FieldOutput.WriteCall`). Allocation state is given as one flag per field. The
error paths become `Result` values: `std::get` on a non-`uint64_t` id column
(`BadVariantAccess`) and `at()` past the end (`OutOfRange`).

Modules: `Wrappers` (Option/Result), `Search` (`std::find`), `Particles` (the
dataset and its id column), `Selection` (lookup and gather), `FieldOutput` (the
backward walk, the two output entry points and the warning).

The space-filling-curve / octree / halo engine that the rest of SPH-EXA relies on
(`cstone/...`) is not part of this model: none of its sources are among the files
modelled here.

## Model

| member | source | states |
|---|---|---|
| Search.Find | main/src/propagator/ipropagator.hpp:162 | the result is at most the length; it is below the length exactly when the value occurs; then it holds the value and no earlier position does |
| Search.FindIndex | main/src/propagator/ipropagator.hpp:162 | the loop form of `std::find` stops at the first match or at the end, agreeing with `Find` |
| Particles.IdColumn | main/src/propagator/ipropagator.hpp:155-157 | the id column is a valid field index, namely the output index paired with the first output name "id" |
| Particles.IdColumnIsIdField | main/src/propagator/ipropagator.hpp:155-157 | when output names agree with field names, the id column is a field named "id" |
| Particles.LocalIds | main/src/propagator/ipropagator.hpp:160 | reading the id column succeeds exactly when it holds a 64-bit unsigned array, and then returns that array; otherwise it fails with a bad variant access |
| Selection.PresentIds | main/src/propagator/ipropagator.hpp:161-166 | the ids the lookup keeps are exactly the requested ids that are local; there are at most as many as requested, and exactly as many iff every requested id is local |
| Selection.SelectedPositions | main/src/propagator/ipropagator.hpp:161-166 | there is at most one position per request, and every position is below the size of the local id array |
| Selection.SelectedPositionsAreFirstMatches | main/src/propagator/ipropagator.hpp:161-164 | the k-th position holds the k-th present requested id (request order, absent ids skipped), and no earlier local position holds that id |
| Selection.SelectedCountExact | main/src/propagator/ipropagator.hpp:161-166 | there is one position per requested id exactly when every requested id is local |
| Selection.GetSelectedParticleIndexes | main/src/propagator/ipropagator.hpp:149-169 | the lookup fails only on a non-`uint64_t` id column, and otherwise returns the positions pushed back for the requests in order |
| Selection.Gather | main/src/propagator/ipropagator.hpp:251-254 | it succeeds iff every position is in range; then the k-th value is the field at the k-th position, with one value per position; otherwise it fails at the first out-of-range position |
| Selection.GatherSelectedIds | main/src/propagator/ipropagator.hpp:251-254 | gathering the id array at the looked-up positions returns exactly the present requested ids in request order |
| Selection.GatherField | main/src/propagator/ipropagator.hpp:246-254 | the gather over the field variant keeps the array type, and otherwise has the same success condition, length and contents as `Gather` |
| FieldOutput.CallContents | main/src/propagator/ipropagator.hpp:235-255 | a write fails exactly when its payload does, and never fails for the full output; its key is the output name at its own position; its column is the first position holding the same field index, which is its own position when the indices are distinct |
| FieldOutput.Slots | main/src/propagator/ipropagator.hpp:230-233 | the visited allocated positions all lie in the walked range |
| FieldOutput.SlotsAreAllocatedPositions | main/src/propagator/ipropagator.hpp:230-233 | the written positions are exactly the positions whose field is allocated, in strictly decreasing order, so each is written once |
| FieldOutput.SlotsPrefix | main/src/propagator/ipropagator.hpp:230-262 | walking further down only appends writes after the ones already made |
| FieldOutput.UnusedFrom | main/src/propagator/ipropagator.hpp:181-195 | every field index left in the working list names a field |
| FieldOutput.UnusedPartition | main/src/propagator/ipropagator.hpp:181-195 | written and unused output positions together account for every output position; an index is left unused iff some output position holds it and its field is not allocated; the name list keeps one name per unused index |
| FieldOutput.EraseBelowKeepsPrefix | main/src/propagator/ipropagator.hpp:259-260 | erasing at position i leaves every position below i (those not yet visited) untouched |
| FieldOutput.WriteAllocatedFields | main/src/propagator/ipropagator.hpp:230-262 | the k-th write is the call for the k-th allocated position from the top; without a failure, all of them are made and the working lists end as the unused indices and their names in original order; on a failure, the writes stop just before the failing position |
| FieldOutput.OutputAllocatedFields | main/src/propagator/ipropagator.hpp:173-210 | it writes every allocated hydro field from the top down, then every allocated chemistry field, never fails, and issues the corrected unused-field warning for each dataset (see Findings) |
| FieldOutput.OutputSelParticlesAllocatedFields | main/src/propagator/ipropagator.hpp:213-263 | the selected-particle output writes allocated fields from the top down with gathered data, and stops exactly at the first field whose gather fails |
| FieldOutput.WarningListsUnusedFields | main/src/propagator/ipropagator.hpp:197-205 | the corrected warning appears on rank 0 exactly when some output field is not allocated, and names each unused field in order; with agreeing names these are the names left in the working name list |
| FieldOutput.UnusedNamesAgree | main/src/propagator/ipropagator.hpp:192-193 | with agreeing names, the pruned name list is the list of names of the pruned index list |
| FieldOutput.WarningAsWritten | main/src/propagator/ipropagator.hpp:197-205 | the printed warning has one name per unused field; the names before the last are those of fields 0, 1, ... by loop counter, and the last is the name of the last unused field |
| FieldOutput.WarningAsWrittenMisnames | main/src/propagator/ipropagator.hpp:200-204 | for fields x, y, z with y and z unused outputs, the printed warning is "x, z" while the unused fields are "y, z" |
| FieldOutput.SelectedOutputSucceeds | main/src/propagator/ipropagator.hpp:251-254 | positions from the lookup never make a field's gather fail when the field is at least as long as the local id array |
| FieldOutput.SelectedIdColumnRoundTrip | main/src/propagator/ipropagator.hpp:251-255 | the selected output of the id column carries exactly the present requested ids, in request order |

## Findings

| source | as written | input that shows it | evidently intended | confidence | as-written member | corrected member |
|---|---|---|---|---|---|---|
| main/src/propagator/ipropagator.hpp:200-204 | the warning prints `fieldNames[fidx]` for the loop counter `fidx` for every unused field but the last | fields "x", "y", "z", none allocated, output fields "y", "z": prints "x,z" | print `fieldNames[indicesDone[fidx]]`, giving "y,z" | high, not executed | FieldOutput.WarningAsWritten, FieldOutput.WarningAsWrittenMisnames | FieldOutput.UnusedFieldWarning, FieldOutput.WarningListsUnusedFields |

`FieldOutput.OutputAllocatedFields` reports the corrected warning.

## Left out

- The "id" lookup is a precondition (`"id" in outputFieldNames`). Without it the code indexes past the end of `outputFieldIndices`, which is undefined behaviour and not a handled error.
- Timers, `printIterationTimings`, `writeMetrics`, performance counters, `stepElapsed` and `saveSelParticlesFields`'s timer step are instrumentation and print output only.
- `transferToHost` (device-to-host copy) is left out. The model reads host data directly, so the `first` / `last` arguments, which only feed that transfer, are dropped.
- `writer->writeField` is unseen I/O. It is recorded as a `WriteCall`, and `writer->rank()` becomes the `rank` parameter.
- The field variant is collapsed to three array kinds (real, signed integer, 64-bit unsigned). Floating point values are modelled as `real`. The dispatch over the variant keeps the array kind.
- The body of `isAllocated` and the construction of `outputFieldIndices` from field names are in `particles_data.hpp`, which is not part of this model. Allocation is given as one flag per field.
- Particle ids and positions are unbounded naturals. Positions never exceed the id array's length, so the `uint64_t` / `ptrdiff_t` widths never wrap on these paths.
- The pure-virtual members `conservedFields`, `activateFields`, `sync`, `computeForces` and `integrate` have no body in this class.
- The defaulted hooks `saveFields`, `saveExtra`, `save` and `load` have empty bodies, and `isSynced` returns `true`. None of them has logic to state.
- FieldOutput.OutputAllocatedFields: reports the corrected unused-field warning (`UnusedFieldWarning`), not the one the source prints. The printed warning names fields by loop counter; it is modelled separately as `WarningAsWritten` and recorded under Findings.
- FieldOutput.OutputSelParticlesAllocatedFields: states nothing about its working lists, because the source discards them without a warning.
- FieldOutput.WarningAsWritten: requires the loop counter to stay inside `fieldNames`, because a longer unused list makes the source index past the end of the name array.
- The Kelvin-Helmholtz initial conditions, the square-patch file writer and the Grackle propagator factory are floating point set-up, MPI-ordered file I/O and a factory. None of them has logic of its own to state.
