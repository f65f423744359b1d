# batch: a verified model of the in-memory batch and fragment builder

The Go package `batch` collects records column by column and turns them into
bitmap fragments keyed by (shard, field). Each record has an id and one value per
column.

`Add` does three things for each record:

- it appends the record id to `ids`;
- it translates each value to a row id through a `Translator`;
- it appends that row id to the value's slot in `rowIDs`, after padding the slot
  with the nil sentinel `^uint64(0)` up to the record's position.

`Build` runs `makeFragments` and then gives the batch a fresh, empty store.
`makeFragments` makes three passes over the records:

- The existence pass sets bit `id % W` in the fragment `(id / W, Exists)`.
- The single-value pass runs once per slot with row ids. For each record whose
  entry exists and is not the sentinel, it sets bit `row*W + id%W` in
  `(id / W, columns[slot])`.
- The multi-value pass runs once per field with sets. It sets one such bit per row
  id in each record's set.

Each pass caches the bitmap of the current shard. The cache starts at the
impossible shard `^uint64(0)`, and on every shard change the pass calls
`GetOrCreate`, even when the shard then gets no bit. `Fragments` is a map from
(shard, field) to a map from view name to bitmap:

- `GetOrCreate` creates entries on first access.
- `GetViewMap` deletes empty views while reading.
- `DeleteView` removes one view after that pruning.

The translator used with the batch is the dictionary in `batch_test.go`. It hands
out `len+1` to each (column, value) pair the first time it sees the pair.

The design text expects lazy creation: a (shard, field) fragment only where a bit is
set. The code does otherwise, and the model follows the code. Every pass calls
`GetOrCreate` on each shard change before looking at the record's value
(batch.go:109-113, 134-137). A shard whose records carry no value for a field
therefore still gets a fragment of that field, with an empty bitmap, which only
`GetViewMap` prunes later. `BuildProperties.BuiltKeys` states this for every batch,
and `BuildProperties.SceneFragments` shows it on a two-record example.

The model has these modules:

- `Words`: `uint64` as a subset of `int`, plus the constants `nilSentinel` and `Exists`.
- `Encoding`: shard, offset and bit position. The bit position wraps modulo 2^64
  the way Go's `uint64` multiplication does.
- `FragmentStore`: the `Fragments` class.
  - Its one field is the whole store as a value: a map from `FragmentKey` to a map
    from view to a set of bits.
  - A bitmap pointer is the place `BitmapRef(key, view)` it points to.
  - `GetOrCreate`, `GetViewMap` and `DeleteView` are methods proved against value
    functions.
- `Layers`: what a pass adds to the store, record by record.
  - `PassRun` is the store after the first n records of a pass.
  - `PassRunIsMerge` proves that this equals merging a layer, a set of bits per key,
    into the store.
  - `UnionPassesAdd` proves that the union of the layers of a set of passes does not
    depend on the order the passes ran in. The source iterates Go maps, whose order
    is unspecified.
- `TestTranslators`: the dictionary translator as a class. The invariant `Dense`
  says the ids are exactly 1..len.
- `Batches`: the `Batch` class.
  - `Add` is proved against the specification functions `Translations` and
    `AddedRows`.
  - `Build` is proved against `Built`, the store all passes produce together.
  - The loops of `makeFragments` are methods whose invariants track `PassRun`.
- `BuildProperties`: what `Built` contains. It covers the keys, the only view, and
  the existence, single-value and multi-value bits, in both directions.

## Model

| member | source | states |
|---|---|---|
| Encoding.ShardOf | batch.go:86-87 | the shard col / W of a record position: the one s with s*W <= col < s*W + W |
| Encoding.InShard | batch.go:90 | the offset col % W of a record position inside its shard (below W and rebuilding the position with the shard, see ColumnDecomposes) |
| Encoding.BitPos | batch.go:115 | the bit row*W + col%W of a row id at a record position, computed modulo 2^64 as Go's uint64 arithmetic does (decoded by BitPosRoundTrip below the wrap bound) |
| Encoding.ShardNeverSentinel | batch.go:84 | with W >= 2 no record position has shard ^uint64(0), so the cache's starting shard never matches a real one |
| Encoding.ColumnDecomposes | batch.go:86-90 | a record position is shard*W + offset with offset < W |
| Encoding.BitPosRoundTrip | batch.go:115 | when row*W does not wrap, the bit row*W + col%W divided by W is the row and modulo W is the offset |
| Encoding.BitPosInjective | batch.go:115 | distinct (row, offset) pairs below the wrap bound set distinct bits |
| FragmentStore.GetOrCreateFrame | batch.go:160-173 | GetOrCreate adds at most the key and the view, the new view is empty, and every other key and every existing view is unchanged |
| FragmentStore.GetOrCreateIdempotent | batch.go:160-173 | a second GetOrCreate of the same (shard, field, view) changes nothing |
| FragmentStore.Fragments.constructor | batch.go:153 | make(Fragments) is the empty store |
| FragmentStore.Fragments.GetOrCreate | batch.go:160-173 | returns the bitmap at (shard, field, view), which then exists, and the store becomes GetOrCreateSpec of the old one |
| FragmentStore.Fragments.DirectAdd | batch.go:90 | adding bit x to a bitmap the store holds adds x at that place only |
| FragmentStore.PrunedKeepsNonEmpty | batch.go:185-189 | pruning keeps exactly the views with a bit set, with their bits, and is idempotent |
| FragmentStore.Fragments.GetViewMap | batch.go:175-191 | an absent key gives nil and leaves the store alone; otherwise the key's empty views are deleted in place and the pruned view map is returned |
| FragmentStore.Fragments.DeleteView | batch.go:193-199 | the key's views are pruned and the named view is removed; an absent key is a no-op |
| FragmentStore.DeleteThenRead | batch.go:193-199 | after DeleteView a read of the key shows neither the deleted view nor any empty view, and every other non-empty view is kept with its bits |
| Layers.GetOrCreateIsPut | batch.go:88 | a GetOrCreate of the standard view is a Put of no bits |
| Layers.PutNothingPresent | batch.go:86-89 | on a cache hit the view exists, so skipping GetOrCreate leaves the store as a repeated GetOrCreate would |
| Layers.AddBitIsPut | batch.go:90 | DirectAdd on the cached standard bitmap is a Put of one bit |
| Layers.PassRun | batch.go:85-91 | the store after the first n records of a pass: for each record, a GetOrCreate of the standard view of (shard of the record, field) followed by its bits; the same loop shape is at batch.go:99-117 and 132-144 (related to the layer form by PassRunIsMerge) |
| Layers.PassLayerStep | batch.go:85-91 | the layer of the first n+1 records extends the layer of the first n by record n's key and bits |
| Layers.PassRunIsMerge | batch.go:85-91 | running a pass record by record is merging its layer into the store |
| Layers.UnionPassesAdd | batch.go:93-145 | adding a pass to a set of passes adds its whole layer: the result does not depend on the order the map iteration picks |
| Layers.RunAfter | batch.go:93-145 | a pass run after a set of passes gives the store of the set with the pass added |
| TestTranslators.Translated | batch_test.go:40-47 | the key ends up mapped to the returned id; a known key returns its id and leaves the map; a new key gets len+1, which is added |
| TestTranslators.TranslatedKeeps | batch_test.go:42-46 | every old key keeps its id, the keys gain only the translated one, and a new key grows the map by exactly one |
| TestTranslators.TranslateAgain | batch_test.go:42-43 | translating the same (column, value) again returns the same id and leaves the map unchanged |
| TestTranslators.TranslatedDense | batch_test.go:44-45 | translation keeps the ids exactly 1..len, so the id returned is at least 1 and never nilSentinel |
| TestTranslators.DenseInjective | batch_test.go:44-45 | in a dictionary whose ids are 1..len, two keys never share an id |
| TestTranslators.DistinctKeysDistinctIds | batch_test.go:41-45 | two different (column, value) pairs, including the same bytes under two columns, get two different ids |
| TestTranslators.DenseValues | batch_test.go:44-45 | the ids of the dictionary are exactly the set 1..len |
| TestTranslators.TestTranslator.constructor | batch_test.go:38 | a new dictionary is empty and satisfies the invariant |
| TestTranslators.TestTranslator.Translate | batch_test.go:40-49 | updates the map in place as Translated says, keeps the invariant, and returns an id that is neither 0 nor nilSentinel |
| Batches.Padded | batch.go:64-66 | padding keeps the slot as a prefix, reaches the record position, and fills the gap with nilSentinel |
| Batches.Translations | batch.go:63-70 | the row ids of a record's values in order; the map gains at most one key per value and keeps the invariant |
| Batches.TranslationsKeep | batch.go:68 | the translations of a record keep every old key with its id |
| Batches.TranslationsFind | batch.go:68 | after a record, the map sends each of its (column, value) pairs to that value's row id |
| Batches.TranslationsIds | batch.go:68 | every row id a record gets is at least 1, at most the map's size, and not nilSentinel |
| Batches.AddedRowsKeys | batch.go:63-70 | Add creates exactly the slots 0..len(values)-1 that did not exist |
| Batches.AddedRowsKeep | batch.go:63-70 | slots at or past len(values) are unchanged |
| Batches.AddedRowsSlot | batch.go:64-69 | slot i is its old contents, padded with nilSentinel to the record's position, then the translated row id |
| Batches.AddedRowsLengths | batch.go:62-69 | every written slot ends one longer than the record position, and no slot is longer than ids |
| Batches.AppendAt | batch.go:64-69 | one value of Add on the slot map: slot i padded with nilSentinel to the record position, then the row id appended (proved about by AddedRowsSlot) |
| Batches.AddedRows | batch.go:63-70 | the slot map after all values of a record, one AppendAt per value in order (its keys, untouched slots, slot contents and lengths are AddedRowsKeys, AddedRowsKeep, AddedRowsSlot and AddedRowsLengths) |
| Batches.ExistencePass | batch.go:85-91 | the existence pass: record j contributes the bit of its offset id%W in the Exists field |
| Batches.RowIDsPass | batch.go:99-116 | the pass of one single-value slot: record j contributes the bit row*W + id%W of its entry, or nothing when the entry is nilSentinel or past the slot's end (RowIDsPassAt) |
| Batches.RowIDSetsPass | batch.go:132-143 | the pass of one multi-value field: record j contributes one bit per row id of its set, nothing past the end of the list (RowIDSetsPassAt) |
| Batches.Built | batch.go:79-147 | the fragments makeFragments produces from an empty store: the union of the layers of the existence pass, every non-empty slot's pass and every non-empty field's pass (its contents are the BuildProperties lemmas) |
| Batches.Resliced | batch.go:123-129 | the re-sliced list of sets has one entry per record, with the empty set at the positions it gains |
| Batches.AfterSlot | batch.go:93-118 | one more slot seen in the map iteration adds its pass when it has row ids and nothing when it is empty |
| Batches.AfterField | batch.go:120-145 | one more field seen adds its pass when it has sets and nothing when it is empty |
| Batches.Batch.constructor | batch.go:33-39 | New gives empty ids, slots, columns and sets, no translator, and a fresh empty store |
| Batches.Batch.Reset | batch.go:41-48 | empties ids, rowIDs, rowIDSets, columns and frags, and sets the translator to nil |
| Batches.Batch.WithTranslator | batch.go:50-53 | sets the translator, returns the batch itself, and changes nothing else |
| Batches.Batch.WithColumns | batch.go:55-58 | replaces the columns with a copy of cols, returns the batch itself, and changes nothing else |
| Batches.Batch.Add | batch.go:60-71 | ids grows by exactly the record id; a record with values turns the translator map and rowIDs into Translations and AddedRows of the old state, while a record without values needs no translator and leaves rowIDs and the map alone; columns, rowIDSets and frags are unchanged; no slot becomes longer than ids |
| Batches.Batch.AddValues | batch.go:63-70 | the loop over the values leaves the translator and the slots as Translations and AddedRows say; with no values it calls no translator and changes nothing |
| Batches.Batch.AddValue | batch.go:64-69 | one value pads slot i, translates, and appends the row id |
| Batches.Batch.PadSlot | batch.go:64-66 | the padding loop turns slot i into Padded of its old contents and touches no other slot |
| Batches.Batch.Build | batch.go:73-77 | returns the old store, now holding Built of the current state, and gives the batch a fresh empty store; ids, rowIDs, columns, rowIDSets and the translator are unchanged |
| Batches.Batch.MakeFragments | batch.go:79-147 | the store becomes the old store merged with the union of the existence pass, every single-value pass and every multi-value pass |
| Batches.Batch.FillAllRowIDs | batch.go:93-118 | the single-value passes, in whatever order the keys are taken, add the union of their layers |
| Batches.Batch.FillAllRowIDSets | batch.go:120-145 | the multi-value passes, in whatever order the fields are taken, add the union of their layers |
| Batches.Batch.Lookup | batch.go:86-89 | the shard cache: the cached bitmap is the standard view of the record's shard and field, and the store is as after a GetOrCreate of it |
| Batches.Batch.FillExistence | batch.go:83-91 | the existence loop leaves the store as PassRun of the existence pass over every record |
| Batches.Batch.FillRowIDs | batch.go:97-117 | the loop over the records of one slot runs its pass; a missing entry is treated as nilSentinel |
| Batches.Batch.AddRowID | batch.go:114-116 | a row other than nilSentinel sets its bit in the cached bitmap, and the sentinel sets nothing |
| Batches.Batch.FillRowIDSets | batch.go:123-144 | the loop over the records of one field, after the re-slice, runs its pass |
| Batches.Batch.AddRowSet | batch.go:138-143 | every row id of a record's set sets its bit in the cached bitmap; an empty set sets nothing |
| BuildProperties.BuiltAt | batch.go:88 | every built fragment has exactly the standard view "" |
| BuildProperties.BuiltKeys | batch.go:85-89 | a fragment exists exactly for each shard holding a record and each field some pass writes, even when the pass sets no bit in it |
| BuildProperties.NoRecordsNoFragments | batch.go:85 | without records no fragment is created |
| BuildProperties.BuiltBitSource | batch.go:79-147 | every bit was set by a record of the fragment's shard: as its offset in the existence field, as row*W + id%W of a non-sentinel entry of a slot of that column, or of a row id in the record's set of that field; sentinel entries and records past a slot's end set nothing |
| BuildProperties.RowIDBitSet | batch.go:99-116 | every non-sentinel entry j of slot i sets rowIDs[i][j]*W + ids[j]%W in (ids[j]/W, columns[i]) |
| BuildProperties.RowSetBitSet | batch.go:132-143 | every row id in record j's set of field f sets row*W + ids[j]%W in (ids[j]/W, f) |
| BuildProperties.ExistenceFragment | batch.go:83-91 | (s, Exists) exists exactly when a record lies in shard s; with no column equal to Exists, its bitmap is exactly {id%W : id in ids, id/W == s} |
| BuildProperties.SingleValueBitDecodes | batch.go:115 | below the wrap bound, every bit of a single-value fragment decodes to a record of the shard: divided by W it is the record's row id, modulo W the record's offset |
| BuildProperties.SceneKey | batch.go:86-89 | in a two-record batch over shards 0 and 1, every (shard, field) pair of the two fields gets a fragment |
| BuildProperties.SceneFragments | batch.go:79-147 | the two-record batch (ids 12 and 19, W = 16) builds bits 92 and 147 for the single-value column, bits 19 and 35 in shard 1 for the multi-value field, and an empty fragment of that field in shard 0 |
| BuildProperties.ExistenceCount | batch.go:90 | the existence bitmap of a shard has as many bits as there are distinct record ids in the shard |
| BuildProperties.SingleValueFragment | batch.go:93-118 | a fragment of a column written by one slot only holds exactly the bits of its non-sentinel entries of records in the shard |
| BuildProperties.MultiValueFragment | batch.go:120-145 | a fragment of a field written by its sets only holds exactly the bits row*W + id%W of the row ids in the sets of the records of the shard (as a set: two row ids can share a bit once row*W wraps, and records with equal ids share bits) |

## Left out

- Roaring bitmaps belong to an external library. A bitmap is a set of 64-bit
  values, `DirectAdd` inserts into it, and `Count() == 0` tests whether it is empty.
- A `*roaring.Bitmap` pointer is modelled as the place it refers to in the store.
  Two pointers to one bitmap are therefore not tracked as aliases. Nothing in the
  package keeps one across a deletion.
- `shardWidth()` returns the external constant `shardwidth.ShardWidth`. The model
  makes it the batch's constant `W`, any power of two that is at least 2.
- `fmt.Sprintf("%d:%x", column, key)` is modelled as the pair (column, value). That
  format is injective, so two keys are equal exactly when their pairs are.
- The Go `Translator` interface is modelled by its one implementation, the
  dictionary translator of `batch_test.go`.
- `TestBatch` is left out. It calls an `Add` and a `Build` whose signatures
  `batch.go` does not have, and it reads a golden file.
- FragmentStore.Fragments.GetViewMap: Go returns the store's own inner map, so a
  caller's later `delete` on it changes the store. The model returns a copy of the
  pruned view map; DeleteView writes its deletion back into the store, which has the
  same effect, but a caller that keeps the returned map does not see later changes.
- Go map iteration order is not modelled. Each loop over `rowIDs` or `rowIDSets`
  takes its keys in any order, and the result is proved the same for every order.
- The re-slice `rowIDSets[:len(b.ids)]` relies on the slice's capacity and exposes
  whatever the backing array holds past the length. The model assumes those hidden
  elements are empty sets and pads with them. A re-slice beyond capacity panics in
  Go and is not modelled.
- Batches.Batch.Add: requires at least as many columns as values, and a non-nil
  translator when the record has values. The source would panic otherwise; a
  record without values is accepted with no translator, as in the source.
- Batches.Batch.Add: for a record with values, requires the translator's map to
  stay below 2^63-1 entries, the largest `len()` of a Go map.
- Batches.Batch.Build: requires `columns` to cover every slot with row ids. The
  source indexes `b.columns[i]` and would panic otherwise.
- BuildProperties.ExistenceFragment: the exact-contents half assumes that no column
  and no multi-value field equals `Exists`. The source does not check this, and
  such a field's bits would land in the existence bitmaps.
- No method of the package ever fills `rowIDSets`. The model builds from whatever
  the field holds.
- Bit positions wrap modulo 2^64 as in Go. BitPosRoundTrip and BitPosInjective hold
  only below the wrap bound, row < 2^64 / W.
- TranslationsStep, AddedRowsStep, RunStep, AfterSlot and AfterField are proof
  steps that unfold a specification function by one element for a loop's
  invariant; they state no property of their own and have no row.
- Several methods only factor a loop or a loop body of the source into a method of
  its own, so each proof stays small: AddValues, AddValue, PadSlot, FillAllRowIDs,
  FillAllRowIDSets, Lookup, FillExistence, FillRowIDs, AddRowID, FillRowIDSets and
  AddRowSet.
