# Kalendario booking core in Dafny

Kalendario is an appointment-booking service. Its core has two halves, and this project models both.

**Client.** The Angular client keeps its customers in a normalized NgRx store. The store is an entity collection: an ordered list of keys `ids` plus a key-to-record dictionary `entities`, kept by the entity adapter. This half models:
- `createEntityAdapter` with its unsorted and sorted variants;
- every collection operation: add, set, remove, update, upsert and map, one or many at a time;
- the wrapper that commits a draft back into the state according to its `DidMutate` verdict (`None`, `EntitiesOnly` or `Both`);
- the `selectAll`/`selectTotal` projections;
- the customers feature reducer and its selectors, plus `getColor` and `dateClass`.

**Server.** The Django server computes free time and guards bookings. This half models:
- the three generations of availability code (`customers/models.py`, `backend/customers/models.py`, `scheduling/availability.py`) and the single-day `scheduling/utility.py`. Each builds one slot per shift frame, subtracts booked appointments and breaks what is left into service-length pieces;
- the weekly schedule and the employee availability checks in `scheduling/models.py`;
- the appointment, customer and request managers of both generations.

**How the state-changing code is written.** The JavaScript adapter's helpers and the Python loops change state step by step. Each such step is a method: a class `Draft` for the copied NgRx state, classes for the Django managers, and `while` loops for the slot sweeps. Each method is proved equal to a specification function on values. The properties the source promises are lemmas about those functions:
- `DidMutate` agrees with what changed;
- ids stay unique and match the stored keys;
- sorted collections stay sorted, and a merge is a permutation of its inputs;
- errors are raised exactly when the source raises them;
- the availability result has pieces of the service length in start order;
- the test suites' expected counts (14, 13, 12, 17 pieces; 0 without a shift) follow.

**How values are represented.**
- Times are whole seconds, and time 0 is a Monday midnight. `Date`, `TimeOf` and `Weekday` are derived from that.
- Python slicing is `Take`/`Drop`.
- A JavaScript object is a map from property names to `Val`.
- `today` and `now` are parameters.
- ORM querysets are sequences of records.

The `staticfiles/ang` bundles are minified onto one line, so every client row cites line 1.

## Model

| member | source | states |
|---|---|---|
| JsValues.Assign | staticfiles/ang/common-es5.js:1 | `Object.assign` overlay: keys are the union; a changed key takes the new value, every other key keeps the old one |
| EntityState.Draft.constructor | staticfiles/ang/common-es5.js:1 | the copy made by the wrapper (ids spread, entities assigned) holds exactly the state's collection |
| EntityState.KeepIn | staticfiles/ang/common-es5.js:1 | the `ids.filter` after removal: exactly the ids kept, never longer than before |
| EntityState.Rename | staticfiles/ang/common-es5.js:1 | re-keying an id in place keeps the length of `ids` |
| EntityState.RecordsOf | staticfiles/ang/common-es5.js:1 | `ids.map(id => entities[id])` has one entry per id |
| EntityState.KeysOf | staticfiles/ang/common-es5.js:1 | `selectId` mapped over a batch has one key per record |
| EntityState.CommitHoldsDraft | staticfiles/ang/common-es5.js:1 | the wrapper returns the original object for `None`, replaces only `entities` for `EntitiesOnly`, always carries the non-entity fields over, and the committed collection is the draft |
| EntityState.Combine | staticfiles/ang/common-es5.js:1 | an upsert's verdict is `None` iff both parts are `None` and `Both` iff either part is `Both` |
| EntityState.KeepInUnique | staticfiles/ang/common-es5.js:1 | filtering ids keeps them free of duplicates |
| EntityState.KeepInAll | staticfiles/ang/common-es5.js:1 | filtering by a set that keeps every id changes nothing |
| UnsortedAdapter.AddOne | staticfiles/ang/common-es5.js:1 | addOne on the draft leaves exactly the state and verdict of the add specification |
| UnsortedAdapter.AddMany | staticfiles/ang/common-es5.js:1 | the addMany loop over the batch leaves exactly the specified state and verdict |
| UnsortedAdapter.SetAll | staticfiles/ang/common-es5.js:1 | setAll clears ids and entities, then adds the batch |
| UnsortedAdapter.SetOne | staticfiles/ang/common-es5.js:1 | setOne replaces a stored record in place or appends a new key |
| UnsortedAdapter.Matching | staticfiles/ang/common-es5.js:1 | removal by predicate selects only ids that are in the collection |
| UnsortedAdapter.RemoveMany | staticfiles/ang/common-es5.js:1 | removeMany deletes the targets from the draft exactly as specified |
| UnsortedAdapter.LiveUpdates | staticfiles/ang/common-es5.js:1 | updates naming an absent id are dropped; exactly those naming a stored id remain |
| UnsortedAdapter.ApplyUpdatesStep | staticfiles/ang/common-es5.js:1 | applying a prefix of the updates and then one more is applying the longer prefix |
| UnsortedAdapter.UpdateMany | staticfiles/ang/common-es5.js:1 | the updateMany loop (merge, re-key, rename in ids) leaves exactly the specified state and verdict |
| UnsortedAdapter.SplitUpserts | staticfiles/ang/common-es5.js:1 | an upsert batch splits into updates of stored keys and adds of unstored keys, with nothing lost |
| UnsortedAdapter.UpsertMany | staticfiles/ang/common-es5.js:1 | upsertMany applies the updates, then the adds, as specified |
| UnsortedAdapter.MapUpdates | staticfiles/ang/common-es5.js:1 | `map` turns only stored ids into updates |
| UnsortedAdapter.Map | staticfiles/ang/common-es5.js:1 | `map` on the draft equals updateMany over the changed records |
| UnsortedAdapter.NewKeys | staticfiles/ang/common-es5.js:1 | the keys addMany appends: each batch key not already stored, once |
| UnsortedAdapter.AddManyShape | staticfiles/ang/common-es5.js:1 | after addMany, ids are the old ids followed by the new keys in batch order; the stored keys are the old ones plus the batch keys; the verdict is `None` iff no key is new |
| UnsortedAdapter.AddManyKeepsStored | staticfiles/ang/common-es5.js:1 | addMany never overwrites a stored record |
| UnsortedAdapter.AddManyFirstWins | staticfiles/ang/common-es5.js:1 | within a batch, the first record with a new key is the one stored; later duplicates are ignored |
| UnsortedAdapter.AddManyLast | staticfiles/ang/common-es5.js:1 | the last record of a batch is stored iff its key was not already present |
| UnsortedAdapter.AddManyFacts | staticfiles/ang/common-es5.js:1 | addMany returns `None` iff the collection is unchanged, never `EntitiesOnly`, and its verdict agrees with the change |
| UnsortedAdapter.NewKeysOfDistinct | staticfiles/ang/common-es5.js:1 | into an empty collection, a batch of distinct keys contributes all its keys in order |
| UnsortedAdapter.AddManyValid | staticfiles/ang/common-es5.js:1 | addMany keeps ids unique and equal to the stored keys |
| UnsortedAdapter.SetAllRoundTrip | staticfiles/ang/common-es5.js:1 | after setAll with distinct keys, the verdict is `Both`, ids are the batch keys in order, and selecting them back gives the batch |
| UnsortedAdapter.RemoveManyFacts | staticfiles/ang/common-es5.js:1 | removeMany deletes exactly the targets; the verdict is `None` iff no target was stored, never `EntitiesOnly` |
| UnsortedAdapter.RemoveManyValid | staticfiles/ang/common-es5.js:1 | after removal, ids are the old ids filtered to the survivors in their relative order |
| UnsortedAdapter.StoredTargets | staticfiles/ang/common-es5.js:1 | filtering the targets to stored keys first deletes the same records, and leaves nothing iff no target was stored |
| UnsortedAdapter.ApplyUpdatesKeepsKeys | staticfiles/ang/common-es5.js:1 | updates that re-key nothing keep the set of stored keys |
| UnsortedAdapter.UpdateManyFacts | staticfiles/ang/common-es5.js:1 | updateMany returns `None` iff no update names a stored id; `EntitiesOnly` keeps the keys; the verdict agrees with the change |
| UnsortedAdapter.UpdateOneFacts | staticfiles/ang/common-es5.js:1 | an update stores the old record overlaid with the changes; if the merged key is unchanged it is `EntitiesOnly`; otherwise the old key is deleted, the new key takes its slot in ids, and the verdict is `Both` |
| UnsortedAdapter.RenameKeepsValid | staticfiles/ang/common-es5.js:1 | renaming a stored key to a fresh truthy key keeps ids unique and equal to the stored keys |
| UnsortedAdapter.FalsyRekeyKeepsOldId | staticfiles/ang/common-es5.js:1 | a re-key to a falsy id (`0`) moves the record but leaves the old id in ids, so ids and entities disagree |
| UnsortedAdapter.ApplyUpdatesNoRekey | staticfiles/ang/common-es5.js:1 | updates that repeat their own `id` never re-key |
| UnsortedAdapter.UpsertManyAgrees | staticfiles/ang/common-es5.js:1 | the combined upsert verdict agrees with the change |
| UnsortedAdapter.UpsertUpdatesKeepKeys | staticfiles/ang/common-es5.js:1 | the update half of an upsert keyed by `id` keeps the stored keys |
| UnsortedAdapter.UpsertManyValid | staticfiles/ang/common-es5.js:1 | upsertMany keyed by `id` keeps ids unique, and every upserted key is stored afterwards |
| UnsortedAdapter.SplitHasAdd | staticfiles/ang/common-es5.js:1 | a batch record with an unstored key lands in the add half |
| UnsortedAdapter.UpsertBatchExample | staticfiles/ang/common-es5.js:1 | upserting {1 renamed, 2 new} into {1} updates 1, appends 2 and returns `Both` |
| UnsortedAdapter.RekeyExample | staticfiles/ang/common-es5.js:1 | updating record 5 with `id: 9` renames it to 9 in both ids and entities and returns `Both` |
| UnsortedAdapter.AddManyKeyed | staticfiles/ang/common-es5.js:1 | addMany stores each record under its own key |
| UnsortedAdapter.ApplyUpdatesKeyed | staticfiles/ang/common-es5.js:1 | updates keep every record stored under its own key |
| UnsortedAdapter.KeyedKept | staticfiles/ang/common-es5.js:1 | updateMany, upsertMany and setAll keep every record stored under its own key |
| UnsortedAdapter.UpdateManyKeyed | staticfiles/ang/common-es5.js:1 | updateMany keeps every record stored under its own key |
| SortedAdapter.Insert | staticfiles/ang/common-es5.js:1 | inserting into a sorted run adds exactly the one record |
| SortedAdapter.InsertLast | staticfiles/ang/common-es5.js:1 | after an insertion the last element is either the inserted record or the old last one |
| SortedAdapter.SortBy | staticfiles/ang/common-es5.js:1 | sorting the incoming models is a permutation |
| SortedAdapter.MergeIds | staticfiles/ang/common-es5.js:1 | the two-cursor merge `h` emits every model key and every existing id once |
| SortedAdapter.MergeIdsElems | staticfiles/ang/common-es5.js:1 | the merged ids are exactly the old ids plus the model keys |
| SortedAdapter.PutAll | staticfiles/ang/common-es5.js:1 | the merge stores every model, adding exactly the model keys |
| SortedAdapter.MergeLoop | staticfiles/ang/common-es5.js:1 | the `while` loop of `h` computes the merged id list |
| SortedAdapter.Merge | staticfiles/ang/common-es5.js:1 | `h` on the draft leaves exactly the specified merged state |
| SortedAdapter.MergeRecs | staticfiles/ang/common-es5.js:1 | the record-level merge is a permutation of both inputs |
| SortedAdapter.MergeRecsSorted | staticfiles/ang/common-es5.js:1 | merging two sorted runs by the comparer, taking the model when `cmp <= 0`, gives a sorted run |
| SortedAdapter.InsertSorted | staticfiles/ang/common-es5.js:1 | inserting into a sorted run keeps it sorted |
| SortedAdapter.SortBySorted | staticfiles/ang/common-es5.js:1 | with a total comparer, the models are sorted after `sort` |
| SortedAdapter.InsertDistinct | staticfiles/ang/common-es5.js:1 | inserting a record with a fresh key keeps the keys distinct |
| SortedAdapter.SortByKeys | staticfiles/ang/common-es5.js:1 | sorting keeps the set of keys and their distinctness |
| SortedAdapter.PutAllGet | staticfiles/ang/common-es5.js:1 | after the merge, each distinct-keyed model is stored under its key |
| SortedAdapter.PutAllStored | staticfiles/ang/common-es5.js:1 | each model with a distinct key is what its key reads back |
| SortedAdapter.PutAllOthers | staticfiles/ang/common-es5.js:1 | keys not in the batch read back unchanged |
| SortedAdapter.MergeIdsRecords | staticfiles/ang/common-es5.js:1 | reading the merged ids back gives the merge of the models with the existing records |
| SortedAdapter.MergeIdsUnique | staticfiles/ang/common-es5.js:1 | merging distinct fresh keys into unique ids keeps them unique |
| SortedAdapter.MergeFacts | staticfiles/ang/common-es5.js:1 | the merge keeps ids unique, is a permutation of models plus existing records, keeps ids sorted when they were, and keeps ids equal to the stored keys |
| SortedAdapter.FreshModels | staticfiles/ang/common-es5.js:1 | sorted addMany keeps exactly the batch records whose key is not stored |
| SortedAdapter.SAddMany | staticfiles/ang/common-es5.js:1 | sorted addMany on the draft leaves exactly the specified state and verdict |
| SortedAdapter.SAddOne | staticfiles/ang/common-es5.js:1 | sorted addOne is addMany of one record |
| SortedAdapter.SSetAll | staticfiles/ang/common-es5.js:1 | sorted setAll clears and merges the batch as specified |
| SortedAdapter.Without | staticfiles/ang/common-es5.js:1 | dropping an id keeps every other id and their uniqueness |
| SortedAdapter.SSetOne | staticfiles/ang/common-es5.js:1 | sorted setOne drops an existing id and re-merges the record |
| SortedAdapter.SApplyUpdates | staticfiles/ang/common-es5.js:1 | sorted updates only delete stored keys; with nothing to re-merge, entities are unchanged |
| SortedAdapter.Vacated | staticfiles/ang/common-es5.js:1 | the vacated indices are exactly the positions of ids whose record was taken out |
| SortedAdapter.KeepInSnoc | staticfiles/ang/common-es5.js:1 | filtering ids extended by one id extends the filtered ids by that id iff it is kept |
| SortedAdapter.VacatedSnoc | staticfiles/ang/common-es5.js:1 | the vacated positions grow by the new index iff the new id is dropped |
| SortedAdapter.FilterIds | staticfiles/ang/common-es5.js:1 | the ids filter loop of sorted updateMany returns the survivors and the vacated indices |
| SortedAdapter.SUpdateMany | staticfiles/ang/common-es5.js:1 | sorted updateMany on the draft leaves exactly the specified state and verdict |
| SortedAdapter.SUpdateOne | staticfiles/ang/common-es5.js:1 | sorted updateOne is updateMany of one update |
| SortedAdapter.SUpsertMany | staticfiles/ang/common-es5.js:1 | sorted upsertMany applies the updates, then the adds, as specified |
| SortedAdapter.SMap | staticfiles/ang/common-es5.js:1 | sorted `map` equals sorted updateMany over the changed records |
| SortedAdapter.FreshDistinct | staticfiles/ang/common-es5.js:1 | the fresh part of a distinct batch is distinct |
| SortedAdapter.SAddManyFacts | staticfiles/ang/common-es5.js:1 | sorted addMany returns `None` iff every key was stored, never `EntitiesOnly`; with distinct batch keys it keeps ids valid and sorted, and adds exactly the fresh records |
| SortedAdapter.SAddManyNone | staticfiles/ang/common-es5.js:1 | sorted addMany returns `None` iff every batch key was stored, and then leaves the collection unchanged |
| SortedAdapter.SAddManyValid | staticfiles/ang/common-es5.js:1 | with distinct batch keys, sorted addMany keeps ids unique, keeps ids sorted, and adds exactly the fresh records |
| SortedAdapter.SSetAllFacts | staticfiles/ang/common-es5.js:1 | sorted setAll with distinct keys holds exactly the batch, sorted |
| SortedAdapter.FreshAll | staticfiles/ang/common-es5.js:1 | when no batch key is stored, every record is fresh |
| SortedAdapter.MergeInsertExample | staticfiles/ang/common-es5.js:1 | adding 4 and 2 to the sorted ids 1, 3, 5 gives 1, 2, 3, 4, 5 and `Both` |
| SortedAdapter.ExampleMergeIds | staticfiles/ang/common-es5.js:1 | the two-cursor merge of 2, 4 into 1, 3, 5 interleaves them |
| SortedAdapter.SortedBatchDuplicate | staticfiles/ang/common-es5.js:1 | a sorted addMany batch with a repeated key lists the key twice and keeps the last record, while the unsorted adapter keeps the first |
| SortedAdapter.SApplyUpdatesNone | staticfiles/ang/common-es5.js:1 | sorted updates take nothing out iff no update names a stored id |
| SortedAdapter.SApplyUpdatesNoRekey | staticfiles/ang/common-es5.js:1 | without a re-key, the records taken out have distinct keys and are exactly the deleted ones |
| SortedAdapter.KeepInSorted | staticfiles/ang/common-es5.js:1 | filtering sorted ids keeps them sorted |
| SortedAdapter.CountMatch | staticfiles/ang/common-es5.js:1 | a re-merge of as many records as were vacated fills the vacated positions |
| SortedAdapter.MergeBackInPlace | staticfiles/ang/common-es5.js:1 | when the merged ids hold the same id at every vacated index, they equal the old ids |
| SortedAdapter.MergeBackKept | staticfiles/ang/common-es5.js:1 | re-merging without moving any vacated id puts each id back in its place |
| SortedAdapter.MergeBackVacated | staticfiles/ang/common-es5.js:1 | the re-merged records land at exactly the vacated positions |
| SortedAdapter.SUpdateManyNone | staticfiles/ang/common-es5.js:1 | sorted updateMany returns `None` iff no update names a stored id |
| SortedAdapter.SUpdateManyAgrees | staticfiles/ang/common-es5.js:1 | sorted updateMany returns `EntitiesOnly` only when ids are unchanged (every vacated index holds the same id after the merge) |
| SortedAdapter.MergeUnique | staticfiles/ang/common-es5.js:1 | merging fresh distinct keys keeps the ids valid |
| SortedAdapter.SUpdateManyValid | staticfiles/ang/common-es5.js:1 | sorted updateMany without re-keys keeps ids unique and equal to the stored keys |
| SortedAdapter.SUpdateManySorted | staticfiles/ang/common-es5.js:1 | sorted updateMany without re-keys keeps ids sorted |
| SortedAdapter.SSetOneFacts | staticfiles/ang/common-es5.js:1 | sorted setOne always returns `Both`, stores the record under its key, and keeps ids valid and sorted |
| SortedAdapter.SUpsertManyAgrees | staticfiles/ang/common-es5.js:1 | the sorted upsert verdict agrees with the change |
| EntityAdapter.CreateEntityAdapter | staticfiles/ang/common-es5.js:1 | `selectId` defaults to the record's `id` and is kept when given; the comparer is kept, and its absence selects the unsorted adapter |
| EntityAdapter.Apply | staticfiles/ang/common-es5.js:1 | wrapper `a`: copy, run the operation on the draft, commit by the verdict, as specified |
| EntityAdapter.RunUnsorted | staticfiles/ang/common-es5.js:1 | dispatch of each operation to the unsorted helpers |
| EntityAdapter.RunSorted | staticfiles/ang/common-es5.js:1 | dispatch of each operation to the sorted helpers, reusing the unsorted removals |
| EntityAdapter.UnsortedAgrees | staticfiles/ang/common-es5.js:1 | every unsorted operation's verdict agrees with the change it made |
| EntityAdapter.UnsortedAddsAgree | staticfiles/ang/common-es5.js:1 | the verdicts of the unsorted adds and sets agree with their change |
| EntityAdapter.UnsortedUpdatesAgree | staticfiles/ang/common-es5.js:1 | the unsorted updateMany verdict agrees with its change |
| EntityAdapter.UnsortedUpsertsAgree | staticfiles/ang/common-es5.js:1 | the unsorted upsertMany verdict agrees with its change |
| EntityAdapter.UnsortedRemovalAgrees | staticfiles/ang/common-es5.js:1 | the removal verdict agrees with its change |
| EntityAdapter.SortedAddsAgree | staticfiles/ang/common-es5.js:1 | the verdicts of the sorted adds and sets agree with their change |
| EntityAdapter.SortedAddManyAgrees | staticfiles/ang/common-es5.js:1 | the sorted addMany verdict agrees with its change |
| EntityAdapter.SortedUpdatesAgree | staticfiles/ang/common-es5.js:1 | the verdicts of sorted updateOne, updateMany and map agree with their change |
| EntityAdapter.SortedAgrees | staticfiles/ang/common-es5.js:1 | every sorted operation's verdict agrees with its change |
| EntityAdapter.ApplyCommits | staticfiles/ang/common-es5.js:1 | the wrapper's result holds the operation's collection and keeps the other state fields; it is the same state for `None`, and keeps ids for `EntitiesOnly` |
| EntityAdapter.AddExistingIsNoop | staticfiles/ang/common-es5.js:1 | addOne of a stored key returns the state unchanged |
| EntityAdapter.RemoveAbsentIsNoop | staticfiles/ang/common-es5.js:1 | removeOne of an absent key returns the state unchanged |
| EntityAdapter.UpdateAbsentIsNoop | staticfiles/ang/common-es5.js:1 | updates naming only absent ids return the state unchanged |
| EntityAdapter.GetInitialState | staticfiles/ang/common-es5.js:1 | the initial state is empty and valid and carries the extra fields |
| EntityAdapter.RemoveAll | staticfiles/ang/common-es5.js:1 | removeAll empties ids and entities and keeps every other field |
| EntityAdapter.SelectAll | staticfiles/ang/common-es5.js:1 | `selectAll` maps ids through entities in ids order, one entry per id |
| EntityAdapter.SelectTotalCounts | staticfiles/ang/common-es5.js:1 | `selectTotal` is the number of stored records in a valid state |
| EntityAdapter.SelectAllLists | staticfiles/ang/common-es5.js:1 | in a valid state `selectAll` lists every stored record, and only those |
| EntityAdapter.SelectAllSorted | staticfiles/ang/common-es5.js:1 | in a sorted state `selectAll` is in comparer order |
| CustomersStore.Customers | staticfiles/ang/9-es5.js:1 | the customers adapter is unsorted and keyed by `id` |
| CustomersStore.InitialState | staticfiles/ang/9-es5.js:1 | the initial state is empty with `selectedRequestId` and `apiError` null |
| CustomersStore.ReduceKeepsInvariants | staticfiles/ang/9-es5.js:1 | every reducer case keeps ids valid and records under their own id; "Set Error" and "Set Selected Id" each change only their own field |
| CustomersStore.SetAllKeeps | staticfiles/ang/9-es5.js:1 | "Set All" keeps the invariants and the non-entity fields |
| CustomersStore.UpsertKeeps | staticfiles/ang/9-es5.js:1 | "Upsert Many" keeps the invariants and the non-entity fields |
| CustomersStore.AddOneKeeps | staticfiles/ang/9-es5.js:1 | "Add One" keeps the invariants and the non-entity fields |
| CustomersStore.Find | staticfiles/ang/9-es5.js:1 | `find` returns a listed record with the wanted id; with no holes in the list it never throws, and it finds nothing iff no record has that id |
| CustomersStore.SelectedIsStored | staticfiles/ang/9-es5.js:1 | selector `V` returns the stored record of `selectedRequestId`, or nothing when it is not stored |
| CustomersStore.AllListed | staticfiles/ang/9-es5.js:1 | the customers selector lists every stored customer in ids order |
| CustomersStore.AddThenSelect | staticfiles/ang/9-es5.js:1 | adding a new customer and selecting its id makes `V` return it |
| CustomersStore.SetAllThenSelect | staticfiles/ang/9-es5.js:1 | after "Set All" with distinct ids the customers selector returns the batch in order |
| CustomersStore.JsRem | staticfiles/ang/9-es5.js:1 | JavaScript `%` truncates toward zero: the remainder is smaller than the divisor and agrees with the mathematical one for non-negative numbers |
| CustomersStore.GetColorCycles | staticfiles/ang/9-es5.js:1 | `getColor(i)` is a palette colour, repeats every 11, and is `palette[i]` below 11 |
| CustomersStore.GetColorNegative | staticfiles/ang/9-es5.js:1 | a negative index that is not a multiple of 11 gives `undefined` |
| CustomersStore.Prefix10 | staticfiles/ang/9-es5.js:1 | the ISO date prefix is the first 10 characters, or the whole string if shorter |
| CustomersStore.AnyScheduledOn | staticfiles/ang/9-es5.js:1 | true iff some request's `scheduledDate` is that day |
| CustomersStore.DateClass | staticfiles/ang/9-es5.js:1 | `dateClass` is `"special-date"` iff some request is scheduled on the date's ISO day, else `""` |
| DateTimes.Weekday | scheduling/models.py:34 | `weekday()` is in 0..6 |
| DateTimes.Midnight | backend/customers/models.py:49 | `replace(hour=0, ...)` is the same date at time 0, not after the instant |
| DateTimes.TruncateMinute | customers/models.py:10 | dropping seconds gives the whole minute at or before the instant |
| DateTimes.HoursMinutes | scheduling/models.py:145 | a timedelta of the duration's hours and minutes drops its seconds |
| DateTimes.ReplaceHourMinute | customers/models.py:33 | `replace(hour, minute)` keeps the date and the seconds and sets the wall-clock minute |
| DateTimes.TruncateSameDate | customers/models.py:10 | truncating to the minute keeps the date |
| DateTimes.DateMonotone | customers/models.py:43 | a later instant is never on an earlier date |
| DateTimes.NextDay | customers/models.py:51 | adding a day advances the date and the weekday by one and keeps the time |
| DateTimes.WeekdayPeriodic | scheduling/models.py:34 | the weekday repeats every seven days |
| PyLists.Take | customers/models.py:61 | `xs[:i]` has `min(i, len)` elements and is a prefix |
| PyLists.Drop | customers/models.py:61 | `xs[i:]` completes the prefix to the whole list |
| PyLists.SortedInts | customers/models.py:82 | `sorted` over distinct starts lists each exactly once, strictly ascending |
| PyLists.Least | customers/models.py:82 | the least start is in the set and below every other |
| SchedulingModels.Week | scheduling/models.py:25-31 | a schedule has seven optional shifts |
| SchedulingModels.ShiftOn | scheduling/models.py:33-48 | weekday 0..5 picks mon..sat; any other value falls to sun |
| SchedulingModels.ScheduleAvailability | scheduling/models.py:33-53 | a day without a shift has no frames; otherwise its shift's frames |
| SchedulingModels.ScheduleWeekly | scheduling/models.py:33-53 | the frames of a date repeat every week |
| SchedulingModels.End | scheduling/models.py:144-145 | the end is the start plus the duration's whole minutes, within a minute of `duration_delta` |
| SchedulingModels.EndIsDurationDelta | scheduling/models.py:63-64 | for a whole-minute duration, the end is the start plus `duration_delta` |
| SchedulingModels.FitsSomeFrame | scheduling/models.py:98-103 | true iff some frame has `frame.start <= start.time()` and `end.time() <= frame.end` |
| SchedulingModels.SameDay | scheduling/models.py:107-110 | exactly the employee's appointments starting on the start's date |
| SchedulingModels.AnyClash | scheduling/models.py:111-116 | true iff some appointment has `a.start <= start < a.end()` or `a.start < end <= a.end()` |
| SchedulingModels.IsAvailable | scheduling/models.py:94-95 | fits a frame and clashes with no same-day appointment of the employee |
| SchedulingModels.MidnightSameFrames | scheduling/models.py:99 | `start.date()` gives the same frames as the instant itself |
| SchedulingModels.DisjointNotOverlapping | scheduling/models.py:106-116 | a range disjoint from every same-day appointment is not overlapping |
| SchedulingModels.OverlapShares | scheduling/models.py:106-116 | a reported overlap shares time with some appointment |
| SchedulingModels.SameStartOverlaps | scheduling/models.py:112-113 | booking the same start as an existing appointment overlaps |
| SchedulingModels.StartInsideOverlaps | scheduling/models.py:112-113 | a start inside an existing appointment overlaps |
| SchedulingModels.EnclosingBookingMissed | scheduling/models.py:111-116 | a 9:00–11:00 range around a 10:00 half-hour appointment is not reported, though they share time |
| SchedulingModels.TuesdayShiftExample | scheduling/models.py:50-53 | a Monday without a shift has no frames; a Tuesday with two frames gives both |
| SchedulingManagers.CreateSpec | scheduling/managers.py:10-25 | the checks run in order date, service, availability, and the first failure wins; creation happens iff all pass, with the start truncated to the minute and the end at start plus duration; a created appointment clashes with no same-day booking |
| SchedulingManagers.AppointmentManager.constructor | scheduling/managers.py:9 | the table starts empty |
| SchedulingManagers.AppointmentManager.Create | scheduling/managers.py:10-25 | returns the specified outcome and appends the row iff it succeeds |
| SchedulingManagers.DoubleBookingRejected | scheduling/managers.py:22-23 | booking the same start twice fails with "no time available" |
| SchedulingManagers.BackToBackAccepted | scheduling/managers.py:22-25 | a booking starting at the end of the previous one is accepted |
| SchedulingManagers.MinuteBeforeEndRejected | scheduling/managers.py:22-23 | a 9:29 booking after a 9:00 half-hour one fails |
| SchedulingManagers.NineTwentyNine | scheduling/managers.py:13 | 9:00 and 9:29 on a whole day are already whole minutes on that date |
| SchedulingManagers.OverlapRejected | scheduling/managers.py:22-23 | any overlap with a booked appointment rejects creation |
| SchedulingManagers.AllCustomers | scheduling/managers.py:30-31 | exactly the users who are neither staff nor superuser |
| SchedulingManagers.AllCustomersIdempotent | scheduling/managers.py:30-31 | filtering customers twice is filtering once |
| BackendSchedulingManagers.CreateSpec | backend/scheduling/managers.py:9-18 | fails iff the truncated start is not after now; otherwise saves the fields with the truncated start |
| BackendSchedulingManagers.SameMinuteRejected | backend/scheduling/managers.py:10-13 | a start later in the current minute is rejected, because truncation moves it to or before now |
| BackendSchedulingManagers.AppointmentManager.constructor | backend/scheduling/managers.py:8 | the table starts empty |
| BackendSchedulingManagers.AppointmentManager.Create | backend/scheduling/managers.py:9-18 | returns the specified outcome and saves the row iff it succeeds |
| BackendSchedulingManagers.Accepted | backend/scheduling/managers.py:20-21 | exactly the rows with status 'A' |
| BackendSchedulingManagers.Requests | backend/scheduling/managers.py:23-24 | exactly the rows with status 'P' |
| BackendSchedulingManagers.Active | backend/scheduling/managers.py:26-27 | exactly the rows with status other than 'R' |
| BackendSchedulingManagers.StatusPartition | backend/scheduling/managers.py:20-27 | accepted and requests are disjoint and both active; with only A/P/R statuses, active is their sum |
| BackendSchedulingManagers.Overlapping | backend/scheduling/managers.py:29-41 | exactly the active rows meeting one of the three clauses, not excluded, and passing the extra filters |
| BackendSchedulingManagers.ClausesMeanShared | backend/scheduling/managers.py:36-38 | for proper intervals, the three clauses hold iff the appointment and the range share time |
| BackendSchedulingManagers.OverlappingShared | backend/scheduling/managers.py:30-38 | an active appointment is overlapping iff it shares time; touching intervals are not overlaps |
| BackendSchedulingManagers.ExcludeId | backend/scheduling/managers.py:39-40 | `exclude_id` drops that appointment and nothing else; a falsy id excludes nothing |
| BackendSchedulingManagers.FirstIncomplete | backend/scheduling/managers.py:49 | `.first()` finds the earliest incomplete request of that owner and user, or none iff there is none |
| BackendSchedulingManagers.GetCurrentSpec | backend/scheduling/managers.py:45-51 | when the owner and user have an incomplete request, returns the first one in table order and leaves the table unchanged; otherwise creates one dated today, appends it and returns it |
| BackendSchedulingManagers.GetCurrentIdempotent | backend/scheduling/managers.py:45-51 | a second `get_current` returns the same request and creates nothing |
| BackendSchedulingManagers.RequestManager.constructor | backend/scheduling/managers.py:44 | the table starts empty |
| BackendSchedulingManagers.RequestManager.GetCurrent | backend/scheduling/managers.py:45-51 | returns the specified request, and the id counter advances iff a row was created |
| BackendSchedulingManagers.GetIdle | backend/scheduling/managers.py:56-58 | exactly the incomplete requests last updated at least 20 minutes ago |
| BackendSchedulingManagers.IdleStaysIdle | backend/scheduling/managers.py:56-58 | an idle request is still idle later; one updated within the window is not idle |
| CustomersAvailability.NewSlot | customers/models.py:9-11 | the constructor drops seconds from both ends |
| CustomersAvailability.Breakdown | customers/models.py:20-29 | every piece is keyed by its start, lies inside the slot, and is minute-aligned |
| CustomersAvailability.BreakdownUnfold | customers/models.py:21-26 | a slot longer than the duration is its first piece updated with the breakdown of the rest |
| CustomersAvailability.BreakdownKeys | customers/models.py:20-29 | the keys are exactly `start + k*d` with the whole piece inside the slot |
| CustomersAvailability.BreakdownPieces | customers/models.py:20-29 | every piece is exactly `[k, k + d)` |
| CustomersAvailability.BreakdownCount | customers/models.py:20-29 | there are `len / d` pieces (the remainder is dropped), none for a negative slot |
| CustomersAvailability.BreakdownExact | customers/models.py:20-29 | keys, pieces and count together |
| CustomersAvailability.CreateSlot | customers/models.py:31-33 | the slot runs from the frame's start to its end on that date, to the minute |
| CustomersAvailability.DaySlotsAligned | customers/models.py:46-51 | the slots built day by day are minute-aligned |
| CustomersAvailability.PassUnfold | customers/models.py:59-64 | one turn of the enumerate loop followed by the rest is the whole pass |
| CustomersAvailability.PassAligned | customers/models.py:58-64 | removals and splits keep slots minute-aligned |
| CustomersAvailability.SubtractAligned | customers/models.py:58-64 | subtracting every appointment keeps slots minute-aligned |
| CustomersAvailability.GetAvailabilitySpec | customers/models.py:42-65 | raises iff start's date is today or earlier; otherwise slots are minute-aligned |
| CustomersAvailability.BuildSlots | customers/models.py:46-51 | the day loop builds one slot per frame for each day before end |
| CustomersAvailability.CutOut | customers/models.py:58-64 | the appointment loop subtracts each appointment in turn |
| CustomersAvailability.Sweep | customers/models.py:59-64 | the enumerate loop over the snapshot computes one pass |
| CustomersAvailability.GetAvailability | customers/models.py:42-65 | the method returns exactly the specified outcome |
| CustomersAvailability.PassSkips | customers/models.py:59-64 | slots neither covered nor containing the appointment are left alone |
| CustomersAvailability.PassOneHit | customers/models.py:59-64 | when one slot is hit, the pass is that one step |
| CustomersAvailability.StepOutcomes | customers/models.py:60-64 | a covered slot is dropped; a slot holding the appointment splits into before and after; a partial overlap changes nothing; an exact match drops the slot then splits its neighbour |
| CustomersAvailability.CoveredNeighbourSurvives | customers/models.py:59-61 | removing by enumerate index skips the next slot: of two covered neighbours, the second survives |
| CustomersAvailability.SortedByStart | customers/models.py:82 | `sorted(values)` has one piece per start |
| CustomersAvailability.Gather | customers/models.py:75-81 | the dict-update loop computes the collected pieces |
| CustomersAvailability.GetAvailabilityForService | customers/models.py:68-82 | the method returns exactly the specified outcome |
| CustomersAvailability.CollectKeys | customers/models.py:73-81 | a start is collected iff it was there or some slot breaks down to it |
| CustomersAvailability.CollectKeyed | customers/models.py:73-81 | every collected piece is stored under its start |
| CustomersAvailability.CollectExact | customers/models.py:73-81 | every collected piece has the service duration |
| CustomersAvailability.CollectStaffFacts | customers/models.py:78-81 | over all employees: raises iff some employee is asked about a past date; otherwise a start is collected iff some employee offers it |
| CustomersAvailability.OfferedStep | customers/models.py:78-81 | offered by some of the staff iff by the first or by the rest |
| CustomersAvailability.SortedByStartOrder | customers/models.py:82 | the sorted result is strictly ascending and holds the stored pieces |
| CustomersAvailability.SortedByStartAt | customers/models.py:82 | position i holds the piece of the i-th smallest start |
| CustomersAvailability.ForServiceErrors | customers/models.py:68-82 | "not provided" iff a named employee lacks the service; "past date" iff not refused, the date is past, and someone is asked |
| CustomersAvailability.ForServiceSorted | customers/models.py:82 | the result is strictly ascending by start, and every piece has the service duration |
| CustomersAvailability.ForServiceMerges | customers/models.py:77-82 | with no employee named, a start is offered iff some employee offers it |
| CustomersAvailability.TuesdaySlots | customers/models.py:46-51 | a Tuesday with frames 9–13 and 14–17 gives those two slots |
| CustomersAvailability.HalfHours | customers/models.py:20-29 | half-hour pieces of a slot number its length over 30 minutes and lie inside it |
| CustomersAvailability.CollectTwo | customers/models.py:75-76 | collecting two slots is the union of their breakdowns |
| CustomersAvailability.CollectThree | customers/models.py:75-76 | collecting three slots is the union of their breakdowns |
| CustomersAvailability.OneEmployeeCount | customers/models.py:74-82 | for one employee the result has one piece per collected start |
| CustomersAvailability.TwoPieces | customers/models.py:75-76 | disjoint ordered slots contribute their piece counts added |
| CustomersAvailability.ThreePieces | customers/models.py:75-76 | three disjoint ordered slots contribute their piece counts added |
| CustomersAvailability.TuesdayPieces | customers/models.py:75-76 | 9–13 and 14–17 give 14 half-hour pieces |
| CustomersAvailability.FreeTuesday | customers/tests/test_availability.py:26-31 | a free Tuesday offers 14 half-hour pieces |
| CustomersAvailability.MorningSplit | customers/models.py:62-64 | a booking inside the morning splits it into before and after |
| CustomersAvailability.MorningCount | customers/models.py:62-64 | the pieces of the split morning and the afternoon, counted |
| CustomersAvailability.MorningBooking | customers/models.py:58-82 | a morning booking leaves the pieces before it, after it, and six in the afternoon |
| CustomersAvailability.QuarterPastNineBooking | customers/tests/test_availability.py:51-59 | a 9:15 half-hour booking leaves 12 pieces |
| CustomersAvailability.HalfPastNineBooking | customers/tests/test_availability.py:41-49 | a 9:30 half-hour booking leaves 13 pieces |
| CustomersAvailability.NoShiftNoPieces | customers/tests/test_availability.py:61-63 | a day without a shift offers nothing |
| BackendCustomersAvailability.Breakdown | backend/customers/models.py:20-29 | every piece is keyed by its start and lies inside the span, without truncation |
| BackendCustomersAvailability.BreakdownKeys | backend/customers/models.py:20-29 | the keys are exactly `start + k*d` with the whole piece inside |
| BackendCustomersAvailability.BreakdownPieces | backend/customers/models.py:20-29 | every piece is exactly `[k, k + d)` |
| BackendCustomersAvailability.BreakdownCount | backend/customers/models.py:20-29 | there are `len / d` pieces, none for a negative span |
| BackendCustomersAvailability.BreakdownExact | backend/customers/models.py:20-29 | keys, pieces and count together |
| BackendCustomersAvailability.CreateSlot | backend/customers/models.py:31-33 | on a midnight date, the slot runs from the frame's start to its end, to the minute |
| BackendCustomersAvailability.FrameSlots | backend/customers/models.py:52 | one slot per frame, each a distinct new object |
| BackendCustomersAvailability.Later | backend/customers/models.py:53 | exactly the slots starting strictly after the clamped start |
| BackendCustomersAvailability.DayKept | backend/customers/models.py:52-53 | one day's kept slots are distinct objects, after the start, and new |
| BackendCustomersAvailability.DaysFresh | backend/customers/models.py:49-54 | the day loop keeps slots distinct objects, all after the start |
| BackendCustomersAvailability.Without | backend/customers/models.py:64 | removal by identity keeps every other object |
| BackendCustomersAvailability.WithoutUnique | backend/customers/models.py:64 | removal by identity keeps objects distinct |
| BackendCustomersAvailability.WithoutAt | backend/customers/models.py:64 | removing a present object drops exactly its position |
| BackendCustomersAvailability.WithoutAbsent | backend/customers/models.py:64 | removing an object already gone changes nothing |
| BackendCustomersAvailability.StepKeeps | backend/customers/models.py:63-67 | one turn keeps objects distinct and all after the start |
| BackendCustomersAvailability.PassKeeps | backend/customers/models.py:62-67 | one pass keeps objects distinct and all after the start |
| BackendCustomersAvailability.SubtractKeeps | backend/customers/models.py:61-67 | subtracting every appointment keeps objects distinct and all after the start |
| BackendCustomersAvailability.StepOutcomes | backend/customers/models.py:63-67 | a covered slot is removed; a slot holding the appointment splits at index i; a partial overlap changes nothing; an exact match removes then splits the neighbour |
| BackendCustomersAvailability.CoveredGoneIsNoop | backend/customers/models.py:63-64 | a covered slot already removed is not removed twice |
| BackendCustomersAvailability.CoveredNeighboursRemoved | backend/customers/models.py:62-64 | removal by identity removes both of two covered neighbours |
| BackendCustomersAvailability.Clamp | backend/customers/models.py:43-44 | the start becomes the later of start and now |
| BackendCustomersAvailability.GetAvailabilitySpec | backend/customers/models.py:42-68 | raises iff end's date is today or earlier; otherwise slots are distinct objects starting after the clamped start |
| BackendCustomersAvailability.BuildSlots | backend/customers/models.py:49-54 | the midnight day loop builds the kept frame slots |
| BackendCustomersAvailability.CutOut | backend/customers/models.py:61-67 | the appointment loop subtracts each appointment in turn |
| BackendCustomersAvailability.Sweep | backend/customers/models.py:62-67 | the enumerate loop over the snapshot computes one pass |
| BackendCustomersAvailability.Turn | backend/customers/models.py:63-67 | one turn's removal then split |
| BackendCustomersAvailability.GetAvailability | backend/customers/models.py:42-68 | the method returns exactly the specified outcome |
| BackendCustomersAvailability.SortedByStart | backend/customers/models.py:85 | `sorted(values)` has one piece per start |
| BackendCustomersAvailability.GetAvailabilityForService | backend/customers/models.py:71-85 | the method returns exactly the specified outcome |
| BackendCustomersAvailability.CollectExact | backend/customers/models.py:76-84 | every collected piece has the service duration |
| BackendCustomersAvailability.CollectStaffFacts | backend/customers/models.py:81-84 | over all employees: raises iff some employee is asked about a past end date; pieces have the service duration |
| BackendCustomersAvailability.ForServiceErrors | backend/customers/models.py:71-85 | "not provided" iff a named employee lacks the service; "past date" iff not refused, end's date is past, and someone is asked |
| BackendCustomersAvailability.ForServiceSorted | backend/customers/models.py:85 | the result is strictly ascending by start with service-length pieces |
| BackendCustomersAvailability.SortedPieces | backend/customers/models.py:85 | sorting service-length pieces by start gives strictly ascending pieces |
| SchedulingAvailability.NewSlot | scheduling/availability.py:9-11 | the constructor drops seconds from both ends |
| SchedulingAvailability.Breakdown | scheduling/availability.py:16-22 | the pieces are minute-aligned |
| SchedulingAvailability.BreakdownUnfold | scheduling/availability.py:17-19 | a slot longer than the duration is its first piece followed by the breakdown of the rest |
| SchedulingAvailability.BreakdownPieces | scheduling/availability.py:16-22 | contiguous pieces of length d in start order, `len / d` of them, remainder dropped |
| SchedulingAvailability.SeventeenHalfHours | scheduling/tests/test_availability.py:22-28 | 9:00–17:30 gives 17 half-hour pieces |
| SchedulingAvailability.CreateSlot | scheduling/availability.py:24-26 | the slot runs from the frame's start to its end on that date, to the minute |
| SchedulingAvailability.FrameSlots | scheduling/availability.py:43 | one aligned slot per frame |
| SchedulingAvailability.DaysAligned | scheduling/availability.py:39-44 | the day loop builds minute-aligned slots |
| SchedulingAvailability.Step | scheduling/availability.py:50-53 | one index step never shortens the list |
| SchedulingAvailability.Pass | scheduling/availability.py:49-53 | a pass never shortens the list |
| SchedulingAvailability.PassAligned | scheduling/availability.py:49-53 | splits keep slots minute-aligned |
| SchedulingAvailability.SubtractAligned | scheduling/availability.py:48-53 | subtracting every appointment keeps slots minute-aligned |
| SchedulingAvailability.StepOutcomes | scheduling/availability.py:51-53 | only an appointment inside the slot splits it; anything else leaves the list alone |
| SchedulingAvailability.SplitSingle | scheduling/availability.py:51-53 | a single slot holding the appointment becomes before and after |
| SchedulingAvailability.CoveringKeeps | scheduling/availability.py:51 | a covering appointment leaves the slot unchanged |
| SchedulingAvailability.FixedBoundSkipsLast | scheduling/availability.py:49-53 | the loop bound is fixed before the splits, so the last of two equal slots is never examined |
| SchedulingAvailability.GetAvailabilitySpec | scheduling/availability.py:35-54 | raises iff start's date is today or earlier; otherwise slots are minute-aligned |
| SchedulingAvailability.BuildSlots | scheduling/availability.py:39-44 | the day loop builds one slot per frame for each day before end |
| SchedulingAvailability.CutOut | scheduling/availability.py:48-53 | the appointment loop subtracts each appointment in turn |
| SchedulingAvailability.GetAvailability | scheduling/availability.py:35-54 | the method returns exactly the specified outcome |
| SchedulingAvailability.ForServiceSpec | scheduling/availability.py:57-65 | "not provided" iff the service is not offered; "past date" iff offered and start's date is past; otherwise aligned pieces |
| SchedulingAvailability.PiecesAligned | scheduling/availability.py:62-65 | the concatenated pieces are minute-aligned |
| SchedulingAvailability.GetAvailabilityForService | scheduling/availability.py:57-65 | the method returns exactly the specified outcome |
| SchedulingAvailability.PiecesExact | scheduling/availability.py:62-65 | every piece has the service length, and their number is the sum of the per-slot counts |
| SchedulingAvailability.ForServicePieces | scheduling/availability.py:57-65 | the result counts the pieces of every free slot, each of the service length |
| SchedulingAvailability.HalfTimeOffset | scheduling/availability.py:48-65 | a 9:15–9:45 booking in 9:00–17:30 leaves 15 half-hour pieces |
| SchedulingUtility.Step | scheduling/utility.py:51-55 | one index step never shortens the list |
| SchedulingUtility.Pass | scheduling/utility.py:50-55 | a pass never shortens the list |
| SchedulingUtility.StepAligned | scheduling/utility.py:51-55 | a split keeps slots minute-aligned |
| SchedulingUtility.PassAligned | scheduling/utility.py:50-55 | a pass keeps slots minute-aligned |
| SchedulingUtility.SubtractAligned | scheduling/utility.py:49-55 | subtracting every appointment keeps slots minute-aligned |
| SchedulingUtility.StepOutcomes | scheduling/utility.py:53-55 | any slot starting at or before the appointment is split at its start and end, with no check against the slot end; a later slot is left alone |
| SchedulingUtility.BreakShiftQuirk | scheduling/utility.py:50-55 | with frames 9–13 and 14–17, a 15:30 booking splits the morning slot into 9:00–15:30 and a piece 16:00–13:00 that ends before it starts, and leaves the afternoon slot it falls in untouched |
| SchedulingUtility.GetAvailabilitySpec | scheduling/utility.py:35-56 | raises iff the date is today or earlier; otherwise slots are minute-aligned |
| SchedulingUtility.GetAvailability | scheduling/utility.py:35-56 | the method returns exactly the specified outcome |
| SchedulingUtility.ForServiceSpec | scheduling/utility.py:59-67 | "not provided" iff the service is not offered; "past date" iff offered and the date is past; otherwise aligned pieces |
| SchedulingUtility.GetAvailabilityForService | scheduling/utility.py:59-67 | the method returns exactly the specified outcome |
| SchedulingUtility.ForServiceExact | scheduling/utility.py:59-67 | every piece has the service length |
| SchedulingUtility.FreeDaySeventeen | scheduling/tests.py:260-267 | a free day with frame 9:00–17:30 offers 17 half-hour pieces |

## Left out

- JavaScript property keys are not coerced to strings: a key is a `Val`, so `1` and `"1"` are different keys.
- `createSelector` memoization and the reuse of selector results are not modelled; only the projections are. The module that defines `createSelector` is not part of this model.
- The dev-mode warning for a `selectId` that returns `undefined` is not modelled; the operation simply proceeds.
- The composition of `getSelectors` with a parent selector is not modelled; the selectors take the entity state directly.
- The `getInitialState` merge of extra fields is a parameter of type `X`; JavaScript objects that override `ids` or `entities` are not modelled.
- `Array.prototype.sort` is modelled as a stable insertion sort. A comparer that is not total or transitive gives whatever order the insertion sort gives.
- A lookup of an id missing from entities reads as an empty record `{}`, in place of `undefined`. This affects the sorted helpers and also `UnsortedAdapter.Matching` and `UnsortedAdapter.MapUpdates`, which hand that record to the caller's predicate or mapper; such a lookup is reachable once a falsy re-key has left an id without a record, as `UnsortedAdapter.FalsyRekeyKeepsOldId` shows.
- JavaScript numbers are modelled as integers (`Num(int)` in `JsValues.Val`): fractions, `NaN`, `Infinity` and `-0` are not modelled, whether they come from a `selectId` result, an index passed to `getColor` or the operands of `%`.
- The JavaScript `in` operator is modelled as an own-key lookup in the entities map. On a plain object `in` also finds the names inherited from `Object.prototype`, so in the source `addOne` of a record keyed `"toString"` on an empty state reports no change, while the model adds it.
- Angular I/O, components, NgRx effects, HTTP calls, calendar painting and logging are outside the model.
- The `appointmentStatus` display pipe is not modelled.
- Microseconds are folded into whole seconds.
- Python `datetime` ranges and time zones are not modelled; times are unbounded integers of seconds.
- Breakdown with a duration shorter than a minute is excluded by `requires d >= MINUTE` in the three truncating modules, because the truncating `Slot` constructor would make it loop forever.
- Breakdown in the backend module requires a positive duration, because a zero duration recurses without end.
- Database queries, `confirmed_appointments`, `provides_service` and `employee_set` are inputs: sequences of bookings, a boolean per employee and service, and a list of staff.
- An employee without a schedule (`schedule` is `None`, which raises `AttributeError` in the source) is not modelled; every employee has a schedule.
- The backend `Appointment.save` validations (availability, overlap) are not part of this model; `AppointmentManager.Create` only appends the row.
- Soft deletion by `SafeDeleteManager` is not modelled; every row is live.
- `.first()` without an `order_by` is read as the first row in table order.
- `Slot.id` (the ISO string of the start) is modelled as the start time itself, since only its uniqueness per start matters to the dict.
- Backend breakdown pieces carry no object identity, since they are only collected into a dict.
- Several loop bodies are split into helper methods (`BackendCustomersAvailability.Turn`, `EntityAdapter.RunUnsortedAdds`, `EntityAdapter.RunSortedAdds`, `EntityAdapter.RunSortedUpdates`, `SortedAdapter.FilterIds`) so that each proof stays small. They follow the source's steps in the same order.
- The `Service` model that `customers/models.py` and `backend/customers/models.py` read is not part of this model. There a service is an id and an integer duration in seconds.
- `datetime.date.today()` and `datetime.datetime.now()` are the parameters `today` and `now`.
- `RequestManager.get_by_payment_intent_id` and `CompanyManager` are Stripe and company lookups by key, with no logic beyond the query, and are not modelled.
- SortedAdapter.SUpdateManyValid: proved only for updates that re-key nothing. The sorted helper re-merges re-keyed records without checking them against the keys still stored, so no validity is claimed for re-keys.
- SortedAdapter.SUpdateManySorted: sortedness is proved only for updates that re-key nothing, for the same reason as SortedAdapter.SUpdateManyValid.
