# MutableObjectValue — a Dafny model

This project models Firestore's mutable document value, `MutableObjectValue`
(`Firestore/core/src/model/object_value.cc`). A document value is a tree:
the root is a map, map entries are key/value pairs kept in an array, and a
value is either a map or some other (leaf) value. The model covers all of
the class's operations:

- build the empty document;
- compute the document's field mask, i.e. every path to a leaf or to an
  empty map;
- read the value at a path;
- write a value at a path, creating or coercing the maps on the way;
- merge another document into this one along a field mask;
- delete the value at a path;
- the helpers: the parent-map walk (`ParentMap`), the in-place batched
  rewrite of one map's entry array (`ApplyChanges`) and the linear key
  lookup (`FindEntry`).

Layout:

- `wrappers.dfy`: `Option`.
- `field_path.dfy` (`FieldPaths`): paths, parent and last segment, and
  field masks as strictly ordered sequences of non-empty paths.
- `value.dfy` (`Values`): the value tree. It also gives the reference
  operations every method is proved against:
  - `Lookup` and `Upsert`: an existing key keeps its slot and a new key is
    appended;
  - `RemoveKey`;
  - `GetPath`: walk the tree;
  - `Descend` and `Put`: walk and write, replacing missing or non-map steps
    by empty maps.
- `apply_changes.dfy` (`Compaction`): the `ApplyChanges` algorithm as an
  imperative method over an `array` buffer.
  - The method is proved equal to `Rewritten`, the rewrite as the C++ code
    writes it, and its final size is proved.
  - `RewrittenIntended` is the rewrite as designed, and its meaning is proved
    (`RewriteLookup`, `RewriteOrder`).
- `field_mask.dfy` (`FieldMasks`): the mask of a value (`MaskOf`) and its
  characterisation.
- `merge.dfy` (`Merge`): the merge by field mask as the C++ code performs
  it. Paths are grouped into batches of consecutive paths with the same
  parent, and one flush is done per batch (`Merged`). It is compared with
  applying the paths one at a time (`Sequential`).
  - The order in which a batch's hash map hands out its new keys is a
    parameter `enum`: any function that lists each batch's upserted keys
    once (`IsEnumeration`). `MaskOrder` is the one that keeps mask order.
  - `Values.Equiv` says that two trees hold the same data up to the order of
    map entries. Under every enumeration the designed merge is related to
    `Sequential` by it (`MergeAnyOrder`); under `MaskOrder` the two are
    equal (`MergeIsSequential`).
- `object_value.dfy` (`ObjectValue`): the class `MutableObjectValue`.
  - It has one field, `value`.
  - Its methods follow the C++ code loop by loop, and each is proved
    against the reference functions.
  - The invariant `Valid()`: the root is a map and no map holds a key twice.

The model follows the code. Two places where the code does something other
than the obvious design:

1. **The replacement slot in `ApplyChanges`.** In the forward pass of lines
   193–198, a replaced entry stores only its new *value* into output slot
   `target_index`. That slot has not been written yet in this pass, so it
   still holds the key of the original entry at that index. When an earlier
   entry of the same map has been dropped, the new value therefore lands
   under that other entry's key. `Pass` models this as written. See "## Findings".
2. **A delete inside a merge creates its parent.** `SetAll` walks to every
   batch's parent with `ParentMap` before it applies the batch, deletes
   included. So clearing `x.y` in a document without `x` leaves `{x: {}}`.
   `Delete` leaves such a document unchanged.
   - `Merge.Cleared` models the merge's delete.
   - `Merge.DeleteOnlyBatchCreatesParent` exhibits the difference.
   - `ObjectValue.ClearedIsRemoved` shows the two agree whenever the parent
     already is a map.

## Model

| member | source | states |
|---|---|---|
| ObjectValue.MutableObjectValue.constructor | Firestore/core/src/model/object_value.cc:30-35 | a new document is the empty map and satisfies the invariant |
| ObjectValue.MutableObjectValue.ToFieldMask | Firestore/core/src/model/object_value.cc:37-39 | the mask holds exactly the non-empty paths that lead to a leaf or to an empty map |
| ObjectValue.MutableObjectValue.ExtractFieldMask | Firestore/core/src/model/object_value.cc:41-63 | the loop over the entries computes `MaskOf(m)`: a non-map entry or an empty map gives its key, and a non-empty map gives its nested paths under its key |
| FieldMasks.MaskIsLeaves | Firestore/core/src/model/object_value.cc:41-63 | in a value with unique keys, `p` is in the mask iff `p` is non-empty and the walk along `p` ends at a leaf or an empty map |
| FieldMasks.MaskEmpty | Firestore/core/src/model/object_value.cc:50-53 | a map's mask is empty iff the map has no entries, which is why an empty nested map is kept as a path of its own |
| ObjectValue.MutableObjectValue.Get | Firestore/core/src/model/object_value.cc:65-80 | returns the whole value for the empty path; otherwise the value reached by following each segment through map entries, or nothing at the first missing key or non-map step |
| ObjectValue.WalkStep | Firestore/core/src/model/object_value.cc:71-76 | one step of the walk: the entry found for the next segment gives the value one step further, and a missing entry means nothing is found at the whole path |
| ObjectValue.MutableObjectValue.Set | Firestore/core/src/model/object_value.cc:82-93 | needs a non-empty path and a value `x` whose maps have unique keys; the new value is `x` written at `path`, and keys stay unique |
| Values.GetPut | Firestore/core/src/model/object_value.cc:82-93 | after writing `x` at `p`, reading `p` (or below it) reads `x` (or inside `x`) |
| Values.GetPutOther | Firestore/core/src/model/object_value.cc:82-93 | writing at `p` leaves every path that is neither a prefix nor an extension of `p` as it was |
| Values.PutPut | Firestore/core/src/model/object_value.cc:82-93 | a second write at the same path overrides the first |
| Values.Upsert | Firestore/core/src/model/object_value.cc:193-211 | upserting a key: a present key keeps its slot, an absent one is appended last, other entries keep key, value and position, the key then maps to the new value, and the key set grows by that key |
| Values.UpsertUpsert | Firestore/core/src/model/object_value.cc:193-211 | upserting the same key twice is upserting the second value |
| Values.RemoveKeyKeys | Firestore/core/src/model/object_value.cc:199-203 | removing a key takes exactly that key out of the key set, and leaves the entries unchanged when the key is absent |
| ObjectValue.MutableObjectValue.SetAll | Firestore/core/src/model/object_value.cc:95-121 | given a field mask, any enumeration of each batch's new keys, and that every flush as written keeps keys unique, the new value is the batched merge as the C++ code performs it (`Merged(..., enum, false)`), and keys stay unique |
| ObjectValue.MutableObjectValue.AddPath | Firestore/core/src/model/object_value.cc:102-116 | one path of the mask: the batch is flushed when the path leaves its parent map, then the last segment joins the upserts with `data`'s value (a key already upserted keeps its first value, as `emplace` does) or joins the deletes; the new tree and batch are one `Step` |
| ObjectValue.MutableObjectValue.ApplyAt | Firestore/core/src/model/object_value.cc:104-105 | one flush: the parent map is found or created and the batch is applied to it as the C++ code does, new keys in the order the enumeration gives |
| Merge.MergeIsSequential | Firestore/core/src/model/object_value.cc:95-121 | with new keys appended in mask order, the designed batched merge equals applying the mask's paths one at a time in order: each path is written with `data`'s value, or cleared from its parent map when `data` has none |
| Merge.MergeAnyOrder | Firestore/core/src/model/object_value.cc:95-121 | for every enumeration of new keys, the designed batched merge holds the same data as the path-by-path merge: every map has the same keys, a path finds something in one exactly when it does in the other, and a leaf found is the same leaf |
| Merge.FlushEquiv | Firestore/core/src/model/object_value.cc:206-211 | flushing one batch, designed, under two different enumerations of its new keys, into trees holding the same data gives trees holding the same data |
| Values.EquivGetPath | Firestore/core/src/model/object_value.cc:65-80 | two trees that hold the same data up to entry order agree on every read: something is found in one iff in the other, and a leaf found is the same |
| Merge.HomogeneousMerge | Firestore/core/src/model/object_value.cc:95-121 | when all mask paths under one parent agree on presence in `data`, then for every enumeration each flush as written keeps keys unique and the merge as written equals the designed one, so it holds the same data as the path-by-path merge, and equals it in mask order |
| Merge.SetAllMovesValue | Firestore/core/src/model/object_value.cc:193-198 | merging mask [a, b] with only b = 3 present into {a: 1, b: 2} gives {a: 3} as written, and {b: 3} as designed |
| Merge.DeleteOnlyBatchCreatesParent | Firestore/core/src/model/object_value.cc:102-108 | merging mask [x.y] from an empty document into an empty document yields {x: {}} under any enumeration: the delete batch creates its parent map |
| Merge.MergedEmptyMask | Firestore/core/src/model/object_value.cc:119-120 | an empty mask leaves the document unchanged under any enumeration: the final flush of an empty batch at the root is a no-op |
| Merge.StepValid | Firestore/core/src/model/object_value.cc:102-116 | when the path stays under the batch's parent, or the flush it triggers keeps the map's keys unique, one mask path keeps the tree well formed and keeps the batch's upserts listed once each, with well-formed values |
| Merge.FlushWellFormed | Firestore/core/src/model/object_value.cc:104-105 | a flush whose rewrite keeps the map's keys unique leaves the whole tree well formed |
| Merge.IntendedFlushSafe | Firestore/core/src/model/object_value.cc:159-222 | the designed rewrite never puts a key twice into a map, whatever the enumeration |
| Merge.FlushInsert | Firestore/core/src/model/object_value.cc:113 | for the designed flush with new keys in mask order, adding one fresh upsert to a batch is writing that path after the flush |
| Merge.FlushDelete | Firestore/core/src/model/object_value.cc:115 | for the designed flush with new keys in mask order, adding one delete, not upserted, to a batch is clearing that path after the flush |
| Merge.MaterializeFirst | Firestore/core/src/model/object_value.cc:103-108 | creating the parent map before a write or a clear does not change the result |
| ObjectValue.MutableObjectValue.ParentMap | Firestore/core/src/model/object_value.cc:123-157 | returns `Descend(old value, path)`, always a map, and the new value is the old one with that map written back at `path`: existing maps are entered, non-map values become empty maps in their slot, missing keys become new last entries |
| ObjectValue.MutableObjectValue.EnterChild | Firestore/core/src/model/object_value.cc:129-153 | one step of the walk: the child entered is `Child(node, segment)` (the existing map, or an empty map), and the map at the prefix becomes `node` with that child upserted under the segment |
| ObjectValue.WalkDeeper | Firestore/core/src/model/object_value.cc:128-154 | the walk's invariant carried one segment further: the child is the map reached by the longer prefix, and the tree is the original with that child written there |
| ObjectValue.ParentMapExisting | Firestore/core/src/model/object_value.cc:128-141 | when the path already leads to a map, the walk returns it and changes nothing |
| ObjectValue.ParentMapReaches | Firestore/core/src/model/object_value.cc:123-157 | after the walk the path leads to the returned map, and paths beside it are unchanged |
| Values.DescendPut | Firestore/core/src/model/object_value.cc:151-152 | after a map is written at `p`, the walk to `p` ends in that map, as the new last entry is the one entered |
| Compaction.ApplyChanges | Firestore/core/src/model/object_value.cc:159-222 | the in-place rewrite over a grown buffer returns `Rewritten(fields, inserts, order, deletes)`, and its length is `|inserts|` plus the entries neither upserted nor deleted (line 166) |
| Compaction.ForwardPass | Firestore/core/src/model/object_value.cc:185-204 | the forward loop leaves `Pass(fields, ...)` in the first `target` slots and, as pending upserts, the upserts whose keys were not found |
| Compaction.ForwardOne | Firestore/core/src/model/object_value.cc:188-203 | one iteration of the forward loop, at input index `source` (`source_index`), extends the output to `Pass(fields, source + 1, ...)`, leaves the slots not yet written as they were, and erases the matched key from the pending upserts |
| Compaction.AppendPending | Firestore/core/src/model/object_value.cc:206-211 | the remaining upserts are written after the kept entries in the enumeration order |
| Compaction.RewrittenSize | Firestore/core/src/model/object_value.cc:166-175 | with unique keys, the rewritten map has `|inserts|` plus the entries that are neither upserted nor deleted |
| Compaction.PassIsSurvivors | Firestore/core/src/model/object_value.cc:185-204 | when no dropped entry comes before a replaced one, the pass as written equals the designed pass |
| Compaction.RewriteLookup | Firestore/core/src/model/object_value.cc:159-222 | after the designed rewrite a key maps to its upserted value if upserted, is gone if only deleted, and otherwise keeps its value; keys stay unique |
| Compaction.RewriteOrder | Firestore/core/src/model/object_value.cc:185-211 | the designed rewrite keeps surviving keys in their original order, followed by the new keys in enumeration order |
| Compaction.RewriteUpsert | Firestore/core/src/model/object_value.cc:89-92 | a single upsert with no deletes, as `Set` and the parent-map walk issue it, is exactly `Upsert` even as written |
| Compaction.RewriteRemove | Firestore/core/src/model/object_value.cc:241-242 | a single delete with no upserts, as `Delete` issues it, is exactly `RemoveKey` even as written |
| Compaction.RewriteNothing | Firestore/core/src/model/object_value.cc:159-222 | an empty batch leaves the entries as they were |
| Compaction.RewriteInsertOne | Firestore/core/src/model/object_value.cc:193-211 | one more fresh upsert in a batch upserts that key into the designed result |
| Compaction.RewriteDeleteOne | Firestore/core/src/model/object_value.cc:199-203 | one more delete of a key that is not upserted removes that key from the designed result |
| Compaction.ReplaceAfterDropMovesValue | Firestore/core/src/model/object_value.cc:193-198 | [a: 1, b: 2] with b upserted to 3 and a deleted becomes [a: 3] as written, [b: 3] as designed |
| Compaction.ReplaceAfterDropDuplicatesKey | Firestore/core/src/model/object_value.cc:193-198 | [a, b, c] with c upserted and a deleted becomes [b: 2, b: 9] as written, which holds key "b" twice |
| ObjectValue.MutableObjectValue.Delete | Firestore/core/src/model/object_value.cc:224-244 | needs a non-empty path; the new value is `Removed(old value, path)`: the last segment is removed from its parent when the walk reaches a map, and nothing changes otherwise |
| ObjectValue.RemovedGone | Firestore/core/src/model/object_value.cc:224-244 | after a delete, nothing is found at the deleted path |
| ObjectValue.RemovedOther | Firestore/core/src/model/object_value.cc:224-244 | a delete leaves every path that is neither a prefix nor an extension of the deleted one unchanged |
| ObjectValue.RemovedUnchanged | Firestore/core/src/model/object_value.cc:231-243 | a delete changes the document iff something is found at the path |
| ObjectValue.RemovedIdempotent | Firestore/core/src/model/object_value.cc:224-244 | deleting twice is deleting once |
| ObjectValue.ClearedIsRemoved | Firestore/core/src/model/object_value.cc:238-243 | when the parent already is a map, the merge's clear and `Delete` agree |
| ObjectValue.MutableObjectValue.FindEntry | Firestore/core/src/model/object_value.cc:246-257 | returns the position of the first entry with the segment's key when the value is a map holding it, and nothing exactly when it is not a map or lacks the key |
| FieldPaths.ImmediateParentIsPopLast | Firestore/core/src/model/object_value.cc:103-108 | the running-parent test is the same as comparing the path's parent with the batch's |

## Left out

- Memory: `realloc`, `FreeNanopbMessage` and nanopb's byte arrays are not modelled. Growing the buffer is a fresh array of the final capacity, and shrinking it is taking a prefix.
- Encoding: the protobuf value kinds other than map are one `Leaf` with an integer payload. Keys are strings compared character by character.
- Hash order: `absl::flat_hash_map` hands out the pending upserts in an unspecified order. `ApplyChanges` takes it as the `order` parameter, any enumeration of the upserts. `SetAll` takes it as `enum`, a function from a batch to such an enumeration. A hash map whose order differs between two equal batches in one run is not modelled.
- Aliasing: the C++ code keeps a pointer to a nested map and rewrites it in place. The model returns that map as a value, and the caller writes it back with `Put`, which the walk's `ensures` ties to the tree.
- Shallow copies: `Get` (line 70), `Set` (line 90), `SetAll` through `Get` (lines 111-113) and the rewrite (lines 196 and 209) copy nanopb values shallowly. The tree then shares nested arrays with the caller's value or with `data`. The model's values are immutable, so this sharing and its effect on later frees and writes are not modelled.
  - `SetAll` requires `data != this`; merging a document into itself through the same object is not modelled.
- Coercion: the C++ code frees a non-map value on the walk and re-tags it as a map (lines 137-139) without resetting `map_value`. The model replaces it by an empty map, so it assumes that `FreeNanopbMessage` leaves the freed value's map fields empty; that function's code is not part of this model.
- `HARD_ASSERT(!path.empty())` on lines 84 and 225 becomes the `requires path != []` of `Set` and `Delete`.
- ObjectValue.MutableObjectValue.SetAll: requires `SafeFold`, i.e. that every flush as written keeps the map's keys unique. Once the as-written pass has duplicated a key, a later rewrite of that map computes its size from a count that no longer matches the entries, and can write out of bounds. An example is [b: 2, b: 9] with b upserted to 5 and a new key z upserted: the size is 2, the pass replaces slot 0 and keeps the second b in slot 1, and z goes to slot 2 of a 2-slot buffer. Other batches do not overrun; upserting b alone shrinks the map cleanly to [b: 5]. Neither case is modelled. `Merge.HomogeneousMerge` gives a sufficient condition for `SafeFold`.
- Field mask order: the order of paths in a mask is lexicographic, segment by segment and character by character. The exact byte order of the C++ path comparison is not part of this model; the merge proofs use only that the paths are distinct.
- Integer widths: `pb_size_t` and `size_t` counters are unbounded here; maps larger than the counter type are not modelled.

## Findings

| source | as written | input that shows it | evidently intended | confidence | as-written member | corrected member |
|---|---|---|---|---|---|---|
| Firestore/core/src/model/object_value.cc:193-198 | a replaced entry's new value is stored into slot `target_index` without its key. That slot has not been written yet in this pass, so it still holds the original entry at that index, and the new value takes that entry's key | the map [a: 1, b: 2] with b upserted to 3 and a deleted: the result is [a: 3], where [b: 3] is meant. With [a, b, c], c upserted and a deleted, the result [b: 2, b: 9] holds key "b" twice and loses "c" | the whole entry, key and new value, is moved to slot `target_index` | high, not executed | Compaction.ReplaceAfterDropMovesValue | Compaction.RewriteLookup |
