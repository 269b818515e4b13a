# venomous: the engine's hash table, slots, reference counts and stores, in Dafny

This project models the core of the venomous engine:

- **The probe table.** `unordered_map` is a fixed-capacity open-addressing hash table with quadratic probing, `(base + i*i) & (capacity-1)`, and at most 30 probes. Beside the store of key-value pairs it keeps a parallel `extra_storage_info` array. That array marks each slot null, tombstone or valid, and records two counts per slot:
  - `probes_used`: the probe steps an entry needed to reach its slot;
  - `probes_passing_through`: the number of other entries' probe chains that cross the slot.
- **The slot state machine.** `KeyValueHeader` and `KeyValuePair` have null, tombstone and valid states. A slot is filled in two phases: first the key is placed, then the value.
- **Reference counting.** `Engine` counts the user-side `KeyRef` handles on each pair. In `engine/engine.h`, a pair is deleted when its last handle is dropped.
- **The free-list contiguous store.** `ContiguousStore` and its bucket front end, `VariableWidthContiguousStore`.
- **Two earlier tagged unions.** `packed_cache_line` and `variant`.
- **Helpers:**
  - alignment rounding, `is_pow_2`, `max_element`, `index_of_type` and the array/vector stream operators (both `tmp_utils.h` files);
  - the MurmurHash3_x86_32 variant that hashes the keys;
  - the string helpers and name lookups of the code generator, `generate_cpp.py`.

Modelling choices:

- **Modules.** There is one module per source component:
  - `Utils`, `KeyValuePairs`, `Murmur3`;
  - for the table: `ProbeTables`, `ProbeTableUpdates` and `ProbeTableDeletes` (the specification and transition lemmas), `TableDumps` (the text of `operator<<`) and `UnorderedMaps` (the class);
  - `Engines`, `ContiguousLayouts` (specification of the store), `ContiguousStores`, `PackedCacheLines`, `Variants`, `GenerateCpp`.
- **Where state changes in place,** the model is a class:
  - `UnorderedMap`: the `store` and `extra` arrays, plus counters;
  - `KeyValuePair`;
  - `Engine`: the `userRefCount` array;
  - `KeyRef`;
  - `ContiguousStore`: `seq` fields that are pushed and popped;
  - `VariableWidthContiguousStore`, `BucketRef`, `PackedCacheLine`, `Variant`.
- **Methods and specifications.** Each method is proved against heap-free functions and predicates. Lemmas state the properties of those functions and predicates.
- **Hashing.** The table's hash is a parameter `hash(prefix, key)`. `Murmur3.HashKey` is the function the engine passes, and `Murmur3.Hash` is proved equal to reference MurmurHash3_x86_32.
- **Values** are type-parametric. The per-type destructor, copy and move called through the vtables are recorded as a sequence of `ValueOp`/`Call` values.
- **Failure paths.** `abort()`, a failing `assert` on a reachable path, and Python's `raise` become `None` results.
- **Integers.** `size_t` wrap-around is modelled where it matters: the `modulo_capacity` mask, the reference-count decrements, and the "null:" line of the dump. `uint8_t` type ids and `uint32_t` ids are modelled too.

The table keeps this invariant (`ProbeTables.Inv`):

- **Accounting:** every slot's `probes_passing_through` equals the number of valid entries' probe steps before their own slot that land on it.
- store and metadata agree slot by slot.
- every valid slot holds a key that hashes to the base of its chain.
- every tombstone is crossed by at least one chain.
- `valid_count` is the number of valid slots.
- `tombstone_count` is at least the number of tombstone slots. The as-written `insert`, which reuses a tombstone without lowering the counter, keeps this clause, so the engine can use that insert as is.
- the ghost map `where` is a bijection between stored full keys and valid slots.

From the invariant the model proves:

- conservation;
- that lookup is exact;
- that `insert`, `delete_` and `attempt_clear_tombstones` each keep it, each with its effect on the stored contents.

## Model

| member | source | states |
|---|---|---|
| Utils.IsPow2Correct | engine/tmp_utils.h:77-79 | `N && (N & (N-1)) == 0` holds exactly when N is a power of two (both directions); compiler/tmp_utils.h:79-81 is the same function |
| Utils.MaskIsModulo | engine/unordered_map.h:108-110 | masking with 2^k - 1 is reduction modulo 2^k, so `modulo_capacity` is `x % capacity` for a power-of-two capacity |
| Utils.RoundLengthToAlignment | engine/tmp_utils.h:84-103 | under `alignment > 0` and `base_alignment % alignment == 0` the result is at least `original_len`, less than `alignment` longer, and `(r + offset) % alignment == 0` |
| Utils.RoundLengthIsLeast | engine/tmp_utils.h:101-102 | no length between `original_len` and the result is aligned: the padding is the least possible |
| Utils.MaxIsGreatest | engine/tmp_utils.h:123-131 | the maximum bounds every value, is one of them, and is 0 for an empty pack |
| Utils.MaxElement | engine/tmp_utils.h:123-131 | the scanning loop returns that maximum |
| Utils.ConditionalValue | engine/tmp_utils.h:58-72 | `conditional_value<true>` yields the first argument and `<false>` the second |
| Utils.IndexOfType | engine/tmp_utils.h:107-111 | the position of the first U equal to T; compiler/tmp_utils.h:85-89 is the same |
| Utils.DelimitedThenLast | engine/tmp_utils.h:13-14 | copying all but the last element through `ostream_iterator(o, ", ")` and then the last gives the elements joined by ", " |
| Utils.JoinLength | engine/tmp_utils.h:8-18 | the text holds every element and exactly one separator between neighbours |
| Utils.FormatArray | engine/tmp_utils.h:8-18 | `operator<<(std::array)` writes "arr[" + elements joined by ", " + "]", and "arr[]" when empty |
| Utils.FormatVector | engine/tmp_utils.h:20-30 | the same with "vec[" |
| KeyValuePairs.SentinelsAsUint8 | compiler/key_value_pair.h:130-132 | null is `uint8_t(-1)` = 255 and tombstone `uint8_t(-2)` = 254 |
| KeyValuePairs.HeaderStatesExclusive | compiler/key_value_pair.h:158-166 | exactly one of null, tombstone and valid holds; the default header is null and unconstructed |
| KeyValuePairs.HeaderSetConstructed | compiler/key_value_pair.h:140-144 | only on a valid header; changes the constructed flag and nothing else |
| KeyValuePairs.HeaderDestructToTombstone | compiler/key_value_pair.h:145-148 | the header becomes an unconstructed tombstone |
| KeyValuePairs.HeaderTombstoneToNull | compiler/key_value_pair.h:149-152 | only from a tombstone; the header becomes null |
| KeyValuePairs.HeaderSetToTypeId | compiler/key_value_pair.h:153-157 | only on a non-valid header and a non-reserved id; the header becomes valid with that id |
| KeyValuePairs.OffsetForValue | compiler/key_value_pair.h:110-120 | the value starts after the key bytes, less than `alignof(Q)` further on, at an offset that makes `header + offset` aligned to `alignof(Q)` |
| KeyValuePairs.LengthForKeyAndValue | compiler/key_value_pair.h:122-125 | key bytes plus value size, with less than `alignof(Q)` of padding between them, and the value starts aligned after the header |
| KeyValuePairs.HeaderAlignsKeyElements | compiler/key_value_pair.h:112-113 | the static_assert holds: the 8-byte header needs no padding before uint32 key elements |
| KeyValuePairs.BufferFitsEveryType | compiler/key_value_pair.h:203-205 | every type's key and value fit in `as_u8_array`, and some type fills it exactly |
| KeyValuePairs.Empty | compiler/key_value_pair.h:207-209 | a default pair is null, unconstructed and consistent |
| KeyValuePairs.TransferOp | compiler/key_value_pair.h:211-225 | copy and move constructors call the per-type copy or move exactly when the source is valid and constructed |
| KeyValuePairs.DestroyOp | compiler/key_value_pair.h:227-230 | the destructor calls the per-type destructor exactly when the pair is valid and constructed |
| KeyValuePairs.MoveAssignIsMoveConstruction | compiler/key_value_pair.h:232-244 | move-assignment into any null or tombstone slot yields the pair the move constructor builds from `other`; nothing of the destination survives |
| KeyValuePairs.DestructToTombstone | compiler/key_value_pair.h:246-253 | the pair becomes an unconstructed tombstone without a value, and the key bytes stay |
| KeyValuePairs.TombstoneToNull | compiler/key_value_pair.h:255-260 | only from a tombstone; the pair becomes null |
| KeyValuePairs.PlacementNewKey | compiler/key_value_pair.h:262-272 | needs a non-valid slot, a non-reserved id and a key of `key_length_table[id]` elements; the slot becomes valid with that id and key, and no value is constructed yet |
| KeyValuePairs.PlacementNewValue | compiler/key_value_pair.h:274-286 | needs the slot's own type and no value yet; afterwards the value is constructed and the type and key are unchanged |
| KeyValuePairs.KeyRange | compiler/key_value_pair.h:315-328 | `[cbegin_key, cend_key)` holds as many elements as the header's type has |
| KeyValuePairs.TwoPhaseConstruction | compiler/key_value_pair.h:262-313 | after placing key and value, the pair is valid, constructed, and reads back that value, and `get_key_before` and the key range both give back that key |
| KeyValuePairs.DeleteCycle | compiler/key_value_pair.h:246-272 | destruct to tombstone, then to null, leaves a slot that can take a new key |
| KeyValuePairs.KeyValuePair.constructor | compiler/key_value_pair.h:207-209 | a new pair is null and unconstructed and makes no per-type call |
| KeyValuePairs.KeyValuePair.Transfer | compiler/key_value_pair.h:211-225 | the copy/move constructor takes the other's state and makes the one per-type call `TransferOp` names |
| KeyValuePairs.KeyValuePair.Destruct | compiler/key_value_pair.h:227-230 | the destructor records the call `DestroyOp` names |
| KeyValuePairs.KeyValuePair.MoveAssignFrom | compiler/key_value_pair.h:232-244 | identical to the move constructor `Transfer(other, true)`: the same new state and exactly the one per-type move call that constructor makes |
| KeyValuePairs.KeyValuePair.DestructToTombstoneInPlace | compiler/key_value_pair.h:246-253 | the state becomes `DestructToTombstone` of the old state, and the destructor runs only for a constructed value |
| KeyValuePairs.KeyValuePair.TombstoneToNullInPlace | compiler/key_value_pair.h:255-260 | the state becomes `TombstoneToNull` of the old state |
| KeyValuePairs.KeyValuePair.PlacementNewKeyInPlace | compiler/key_value_pair.h:262-272 | the state becomes `PlacementNewKey` of the old state |
| KeyValuePairs.KeyValuePair.PlacementNewValueInPlace | compiler/key_value_pair.h:274-286 | the state becomes `PlacementNewValue`, recording one construction |
| KeyValuePairs.KeyValuePair.GetValue | compiler/key_value_pair.h:289-301 | `get`/`cget` need the matching type and a constructed value, and return it |
| Murmur3.RotlIsRotation | engine/utils/murmur3.h:28-30 | ROTL32 at 15 and 13 is a left rotation |
| Murmur3.Hash | engine/utils/murmur3.h:43-84 | the loop over blocks, the conditional tail and the finalization compute reference MurmurHash3_x86_32 of the `len * sizeof(data_t)` bytes with the seed |
| Murmur3.MultipleOfFourHasNoTail | engine/utils/murmur3.h:69-78 | when `sizeof(data_t)` is a multiple of 4 the skipped tail would have mixed nothing |
| Murmur3.FinalizationOf | engine/utils/murmur3.h:80-83 | xor of the byte length then `fmix32` completes the reference hash |
| Murmur3.KeyBlocksAreElements | engine/utils/murmur3.h:47-59 | for uint32 keys, block i read from the key's bytes is key element i |
| ProbeTables.SetToNull | engine/unordered_map.h:70-72 | the metadata becomes null, keeping its passing count |
| ProbeTables.SetToTombstone | engine/unordered_map.h:73-75 | the metadata becomes a tombstone, keeping its passing count |
| ProbeTables.SetToProbesUsed | engine/unordered_map.h:76-79 | the metadata becomes valid with that `probes_used`, keeping its passing count |
| ProbeTables.BaseFromProbeInverts | engine/unordered_map.h:112-118 | `base_from_probe_i(probe_i_from(b, i), i)` is `modulo_capacity(b)`, and the other way round |
| ProbeTables.ModuloCapacityIsRemainder | engine/unordered_map.h:108-110 | for a power-of-two capacity, the mask of the wrapped size_t value is the remainder |
| ProbeTables.ProbeFunctionsMatchSource | engine/unordered_map.h:108-118 | the model's probe functions equal the size_t mask expressions of the source |
| ProbeTables.FindFrom | engine/unordered_map.h:174-190 | the walk returns a slot only if it is not null and holds the queried prefix and key |
| ProbeTables.FindIsExact | engine/unordered_map.h:174-190 | under the invariant, find returns the key's slot when it is stored and not-found otherwise |
| ProbeTables.ChainSlotNotNull | engine/unordered_map.h:137-152 | no slot before a valid entry on its chain is null, so find never stops short of it |
| ProbeTables.SlotOfKey | engine/unordered_map.h:137-149 | `where` and the valid slots describe each other: a stored key's slot holds it, and every valid slot is some key's |
| ProbeTables.TombstonesArePassedThrough | engine/unordered_map.h:265-268 | every tombstone has `probes_passing_through > 0`, so the "check whether this can ever happen" branch is unreachable |
| ProbeTables.Conservation | engine/unordered_map.h:145-152 | the passing counts summed over all slots equal the `probes_used` summed over valid slots |
| TableDumps.HeadLength | engine/unordered_map.h:321-322 | at most 64 slots are drawn per row, and all of them when capacity is smaller |
| TableDumps.PassingGlyph | engine/unordered_map.h:348-354 | '-' for zero, the digit for 1 to 9, '+' above |
| TableDumps.SlotGlyphsAgree | engine/unordered_map.h:322-345 | for a slot in its invariant, the store row and the extra row draw the same glyph |
| TableDumps.StoreRowIsExtraRow | engine/unordered_map.h:319-346 | for a table that keeps the invariant, the "store head" and "extra head" rows are identical |
| TableDumps.SlotClassesPartition | engine/unordered_map.h:316-318 | null + tombstone + valid slots add up to the capacity |
| TableDumps.PrintedNullCount | engine/unordered_map.h:316 | the "null:" figure is `capacity - tombstone_count - valid_count` wrapped to size_t |
| TableDumps.PrintedNullCountOfInv | engine/unordered_map.h:316 | with exact counters the "null:" line is the number of null slots |
| ProbeTableUpdates.EmptyTableInv | engine/unordered_map.h:100-105 | a table of null slots with zero counters keeps the invariant and stores nothing |
| ProbeTableUpdates.BaseOfProbe | engine/unordered_map.h:112-118 | the slot that step i from base h reaches has h as its base again |
| ProbeTableUpdates.FreeSlotNotCrossed | engine/unordered_map.h:140-153 | insert's walk never counts a pass on a null or tombstone slot before the one it takes |
| ProbeTableUpdates.InsertPreservesInv | engine/unordered_map.h:129-159 | placing the key at the first free slot of its chain, after counting one pass on each earlier slot, keeps the invariant with `where` extended by the key |
| ProbeTableUpdates.InsertOutcome | engine/unordered_map.h:137-152 | the slot taken is the first null or tombstone on the chain; the passes are counted exactly on the earlier slots; nothing else changes |
| ProbeTableDeletes.DecrementReady | engine/unordered_map.h:229 | each slot the decrement loop reaches still has a chain passing through it, so the assert holds |
| ProbeTableDeletes.DecrementStep | engine/unordered_map.h:227-233 | one loop step takes one pass off the step's slot, and nulls a tombstone that reaches zero |
| ProbeTableDeletes.DecrementedFacts | engine/unordered_map.h:217-234 | after the loop the entry itself and every valid slot are untouched, and the same slots hold entries |
| ProbeTableDeletes.RetiredSlotInv | engine/unordered_map.h:206-212 | the retired slot is a tombstone exactly when chains still pass through it, and null otherwise |
| ProbeTableDeletes.RetiredCounts | engine/unordered_map.h:206-212 | retiring takes one valid slot off, and adds a tombstone only when it stays a tombstone |
| ProbeTableDeletes.DeleteKeepsInv | engine/unordered_map.h:197-214 | `delete_` keeps the invariant, with the key removed from `where` and one entry fewer |
| ProbeTableDeletes.MoveTarget | engine/unordered_map.h:276-278 | the tombstone found upstream is never the entry's own slot |
| ProbeTableDeletes.MoveCounts | engine/unordered_map.h:285-290 | the move leaves the number of valid entries unchanged and moves `tombstone_count` in step with the tombstones |
| ProbeTableDeletes.MoveKeepsInv | engine/unordered_map.h:280-301 | moving an entry to step i of its chain, with `probes_used = i` and steps i.. decremented, keeps the invariant with `where` redirected |
| UnorderedMaps.UnorderedMap.constructor | engine/unordered_map.h:100-105 | a new table has every slot null, both counters 0, and keeps the invariant |
| UnorderedMaps.UnorderedMap.Find | engine/unordered_map.h:162-195 | the loop returns `FindFrom` from the hashed slot, which for a well-formed query is the key's slot or None |
| UnorderedMaps.UnorderedMap.Insert | engine/unordered_map.h:129-159 | as written: the key lands where `InsertedAt` says, `valid_count` + 1, `where` extended; `tombstone_count` is unchanged even when a tombstone is reused; None (abort) only when 30 probed slots were all valid |
| UnorderedMaps.UnorderedMap.PlaceKey | engine/unordered_map.h:140-149 | the success branch: metadata, key and `valid_count` updated and the invariant kept |
| UnorderedMaps.UnorderedMap.InsertKeepingCount | engine/unordered_map.h:129-159 | the as-written insert on the contents: the invariant holds, the key joins as a new unconstructed pair that find then returns, every other slot is unchanged, and `tombstone_count` keeps its old value |
| UnorderedMaps.UnorderedMap.InsertCorrected | engine/unordered_map.h:140-149 | the corrected insert also keeps `tombstone_count` in step with the tombstones; the contents gain exactly the new key, which find then returns |
| UnorderedMaps.UnorderedMap.ConstructValue | compiler/key_value_pair.h:274-286 | constructing the value through insert's pointer changes just that pair's entry in the contents |
| UnorderedMaps.UnorderedMap.Delete | engine/unordered_map.h:197-214 | the key leaves `where` and the contents, `valid_count` drops by one if the key was stored, find reports not-found afterwards, and a missing key changes nothing |
| UnorderedMaps.UnorderedMap.DeleteAt | engine/unordered_map.h:205-213 | with the key found at slot t: the key leaves `where` and the contents, `valid_count` drops by one, the invariant holds again and find reports not-found |
| UnorderedMaps.UnorderedMap.Unmap | engine/unordered_map.h:206-213 | once the chain is decremented, retiring the slot leaves the old contents minus the key, keeps the invariant, and keeps `tombstone_count` in step with the tombstones |
| UnorderedMaps.UnorderedMap.DecrementUpstreamProbesOf | engine/unordered_map.h:217-234 | the loop decrements exactly the chain's steps from `start_probe_i` to before `end_idx`, as `Decremented` says |
| UnorderedMaps.UnorderedMap.DecrementChain | engine/unordered_map.h:227-233 | the loop keeps `Decremented` step by step and `tombstone_count` in step with the tombstones it nulls |
| UnorderedMaps.UnorderedMap.Retire | engine/unordered_map.h:206-212 | the slot becomes a tombstone, and is nulled at once when nothing passes through it |
| UnorderedMaps.UnorderedMap.DecrementSlot | engine/unordered_map.h:229-232 | one pass fewer, and a tombstone that reaches zero becomes null |
| UnorderedMaps.UnorderedMap.TombstoneToNull | engine/unordered_map.h:236-243 | both arrays turn the tombstone into null, and `tombstone_count` drops by one |
| UnorderedMaps.UnorderedMap.AttemptClearTombstones | engine/unordered_map.h:248-307 | compaction keeps the invariant, the stored contents, the key set and `valid_count` |
| UnorderedMaps.UnorderedMap.AttemptMove | engine/unordered_map.h:270-304 | the inner search: with no tombstone on the chain nothing changes; otherwise the key's slot in `where` becomes the first tombstone on its chain; the contents are kept either way |
| UnorderedMaps.UnorderedMap.MoveUpstream | engine/unordered_map.h:280-301 | the entry moves to step i of its chain, `where` is redirected, and the contents are unchanged |
| UnorderedMaps.UnorderedMap.StoreHead | engine/unordered_map.h:322-333 | the loop writes `StoreRow` of the store |
| UnorderedMaps.UnorderedMap.ExtraHead | engine/unordered_map.h:336-346 | the loop writes `ExtraRow` of the metadata |
| UnorderedMaps.UnorderedMap.PassingHead | engine/unordered_map.h:347-356 | the loop writes `PassingRow` of the metadata |
| UnorderedMaps.UnorderedMap.NullLine | engine/unordered_map.h:316 | the printed null count is `PrintedNullCount` of the counters |
| Engines.CountersCancel | engine/engine.h:176-184 | a size_t decrement undoes an increment and the other way round |
| Engines.PreDecrementSeesLastRelease | engine/engine.h:179-183 | the pre-decremented count is 0 exactly when the last handle goes |
| Engines.PostDecrementSeesOnlyUnderflow | compiler/engine.h:97-100 | the post-decrement's result is 0 only when the count wraps to SIZE_MAX; releasing the last handle (count 1) yields 1 |
| Engines.DeleteLeavesOthers | engine/engine.h:179-183 | deleting one key from a table that keeps the invariant leaves every other slot that held a pair still holding one |
| Engines.Engine.constructor | engine/engine.h:122-124 | an empty table, zero counts and zero next ids keep the engine invariant |
| Engines.Engine.UserRefCounterIncrement | engine/engine.h:166-177 | the key must be stored; its slot's count goes up by one (size_t) and no other count changes |
| Engines.Engine.UserRefCounterDecrement | engine/engine.h:178-184 | the slot's count is pre-decremented; at 0 the key is deleted from the table and its contents, otherwise the table is unchanged |
| Engines.Engine.UserRefCounterDecrementPostfix | compiler/engine.h:96-101 | as written: the count is post-decremented and the table is never changed |
| Engines.Engine.TakeNextId | engine/engine.h:132 | returns the type's next id and moves the counter one past it |
| Engines.Engine.PlaceInput | engine/engine.h:133-136 | inserts `{id}` with the as-written insert and constructs the value: the table holds exactly the old contents plus that key and value, and `tombstone_count` is unchanged |
| Engines.Engine.NewHandle | engine/engine.h:137 | the returned `KeyRef` brings the new pair's count to 1 |
| Engines.Engine.InsertInput | engine/engine.h:133-134 | the as-written insert adds the key as a new unconstructed pair of its type at a slot whose user count is 0, the contents gain exactly that key, and `tombstone_count` keeps its old value |
| Engines.Engine.ConstructInput | engine/engine.h:135 | placement new gives the inserted pair the value and changes nothing else in the contents |
| Engines.Engine.PlaceWithHandle | engine/engine.h:133-137 | the key is stored with the value and user count 1, the fresh handle names that key, and `tombstone_count` is unchanged |
| Engines.Engine.MakeInput | engine/engine.h:129-138 | next id post-incremented; the key `{id}` is stored with the value and count 1, a handle on it is returned, and `tombstone_count` is left as the as-written insert leaves it |
| Engines.Engine.CGetValue | engine/engine.h:187-192 | returns the value stored under the key |
| Engines.KeyRef.constructor | engine/engine_refs.h:22-25 | a handle from a key adds one to that key's count |
| Engines.KeyRef.FromRange | engine/engine_refs.h:26-29 | a handle from a range copies the range into the key, then adds one |
| Engines.KeyRef.Move | engine/engine_refs.h:31-34 | the move takes the key, leaves the counts alone and makes the source inert with `invalid_id` |
| Engines.KeyRef.Copy | engine/engine_refs.h:36-39 | a copy holds the same key and adds one |
| Engines.KeyRef.Drop | engine/engine_refs.h:40-43 | an inert handle changes nothing; otherwise the count is decremented as in `UserRefCounterDecrement` |
| Engines.KeyRef.CGet | engine/engine_refs.h:44-46 | returns the engine's value for the held key |
| ContiguousLayouts.Padded | engine/variable_width_contiguous_store.h:46-52 | `data_push_back` appends the elements padded to `n_elements` |
| ContiguousLayouts.PopBackBlocks | engine/variable_width_contiguous_store.h:61-64 | popping `n_elements` elements removes the last block |
| ContiguousLayouts.PopBackIntoBlocks | engine/variable_width_contiguous_store.h:54-59 | `data_pop_back_into(idx)` moves the last block over block idx and drops the last |
| ContiguousLayouts.EmptyLayoutWf | engine/variable_width_contiguous_store.h:119-122 | the new store, with reserved ref 0 and an empty free list, is well formed and empty |
| ContiguousLayouts.ContentsKeys | engine/variable_width_contiguous_store.h:19-21 | under the inverse mappings the stored refs are exactly those in `data_to_ref_mapping`, each mapped to the block at its position |
| ContiguousLayouts.NextRefIsFree | engine/variable_width_contiguous_store.h:70-78 | the ref insert picks is never 0 and never in use |
| ContiguousLayouts.InsertKeepsWf | engine/variable_width_contiguous_store.h:68-85 | insert keeps both mappings inverse and the free list sound; the new ref is nonzero and unused, and the contents gain exactly the block under it |
| ContiguousLayouts.FreeChainPop | engine/variable_width_contiguous_store.h:70-73 | popping the free list's head leaves a sound free list |
| ContiguousLayouts.FreeChainPush | engine/variable_width_contiguous_store.h:108-111 | pushing the freed ref keeps the free list sound |
| ContiguousLayouts.FreeChainShrink | engine/variable_width_contiguous_store.h:112-115 | dropping the highest ref keeps the free list sound |
| ContiguousLayouts.StoredPositionBelowSize | engine/variable_width_contiguous_store.h:93 | a live ref's position is always below `size()`, so `idx < size()` is always true |
| ContiguousLayouts.UnstoredWf | engine/variable_width_contiguous_store.h:93-105 | with the corrected test, the data half of `delete_` keeps the mappings inverse and drops exactly the deleted ref's block |
| ContiguousLayouts.FreedKeepsWf | engine/variable_width_contiguous_store.h:107-116 | the ref half of `delete_` keeps the store well formed and frees the ref |
| ContiguousLayouts.DeleteKeepsWf | engine/variable_width_contiguous_store.h:87-117 | the corrected `delete_` keeps the store well formed; the contents lose exactly that ref and the size drops by one |
| ContiguousLayouts.FreedRefIsReusedFirst | engine/variable_width_contiguous_store.h:108-111 | a freed ref below the highest is the next one insert returns (LIFO reuse) |
| ContiguousLayouts.DeleteAsWrittenReadsPastEnd | engine/variable_width_contiguous_store.h:93-100 | as written: deleting the block stored last reads `data_to_ref_mapping[idx]` after its `pop_back` |
| ContiguousLayouts.DeleteAsWrittenElsewhere | engine/variable_width_contiguous_store.h:93-100 | as written, for any other block, `delete_` agrees with the corrected one |
| ContiguousStores.ContiguousStore.constructor | engine/variable_width_contiguous_store.h:119-122 | the mapping holds only reserved ref 0, and the store is valid and empty |
| ContiguousStores.ContiguousStore.Size | engine/variable_width_contiguous_store.h:140-142 | `size()` is the number of stored refs, and the data holds `size() * n_elements` elements |
| ContiguousStores.ContiguousStore.DataPushBack | engine/variable_width_contiguous_store.h:46-52 | appends one padded block |
| ContiguousStores.ContiguousStore.DataPopBack | engine/variable_width_contiguous_store.h:61-64 | the loop removes exactly the last block |
| ContiguousStores.ContiguousStore.DataPopBackInto | engine/variable_width_contiguous_store.h:54-59 | moves the last block over block idx and removes the last |
| ContiguousStores.ContiguousStore.Insert | engine/variable_width_contiguous_store.h:68-85 | returns a nonzero ref that was not in use; the contents gain that ref's padded block, the size grows by one, and the store stays valid |
| ContiguousStores.ContiguousStore.Place | engine/variable_width_contiguous_store.h:70-84 | the ref comes off the free list's head, or is a new ref past the end; the padded block is appended and the two mappings point at each other, giving the layout `InsertedLayout` describes |
| ContiguousStores.ContiguousStore.Delete | engine/variable_width_contiguous_store.h:87-117 | with the corrected test: the contents lose exactly that ref, the size drops by one, the store stays valid, and a ref below the highest becomes the free list's head |
| ContiguousStores.ContiguousStore.Unstore | engine/variable_width_contiguous_store.h:93-105 | the block moves from the last position into the freed one, or the last block is dropped, as `Unstored` describes, and the data stays the blocks laid end to end |
| ContiguousStores.ContiguousStore.Release | engine/variable_width_contiguous_store.h:107-116 | a ref below the highest goes to the head of the free list, and the highest ref shrinks the mapping instead, as `Freed` describes |
| ContiguousStores.BucketRef.constructor | engine/variable_width_contiguous_store.h:167-170 | the handle holds the given length and ref |
| ContiguousStores.BucketRef.Move | engine/variable_width_contiguous_store.h:172-176 | the move takes `len` and the ref, and sets the source's `len` to 0 |
| ContiguousStores.FirstFit | engine/variable_width_contiguous_store.h:194-196 | the first bucket whose width is at least len; None exactly when every width is below len |
| ContiguousStores.VariableWidthContiguousStore.constructor | engine/variable_width_contiguous_store.h:188 | one fresh, empty, valid store per width in `bucket_key_lens` |
| ContiguousStores.VariableWidthContiguousStore.Insert | engine/variable_width_contiguous_store.h:192-197 | None (abort) exactly when no bucket fits; otherwise only the first fitting bucket gains the key |
| ContiguousStores.VariableWidthContiguousStore.Delete | engine/variable_width_contiguous_store.h:199-205 | needs `len > 0`; deletes the ref from the first bucket wide enough for `len`, and leaves the others unchanged |
| ContiguousStores.VariableWidthContiguousStore.FindBucket | engine/variable_width_contiguous_store.h:194 | the bucket loop returns `FirstFit` |
| PackedCacheLines.MaxArrLen | compiler/packed_cache_line.h:121 | `max_arr_len` is the most `ArrT` elements that fit after the flag |
| PackedCacheLines.SmallEnoughFits | compiler/packed_cache_line.h:98-112 | a type passing the static check, counting `sizeof(std::array<ArrT, 0>)` as nonzero, has an array within `max_arr_len` and a value that starts at a positive offset and ends inside the line |
| PackedCacheLines.PackedCacheLine.IsType | compiler/packed_cache_line.h:165-168 | true exactly when the flag is the first position of Q in Qs |
| PackedCacheLines.PackedCacheLine.constructor | compiler/packed_cache_line.h:133-146 | the flag is Q's index, the array is copied in, and Q is copied or moved in |
| PackedCacheLines.PackedCacheLine.Transfer | compiler/packed_cache_line.h:149-158 | copy and move keep the flag and the array, and copy or move the value of the flag's type |
| PackedCacheLines.PackedCacheLine.Destruct | compiler/packed_cache_line.h:161-163 | the destructor always dispatches once on the flag |
| PackedCacheLines.PackedCacheLine.Get | compiler/packed_cache_line.h:169-181 | needs `is_type<Q>()`; returns the value |
| PackedCacheLines.PackedCacheLine.GetArrayBefore | compiler/packed_cache_line.h:183-193 | needs `is_type<Q>()`; returns Q's array of `accompanying_arr_n` elements |
| PackedCacheLines.PackedCacheLine.ArrayBounds | compiler/packed_cache_line.h:195-206 | `end_array - begin_array` spans the stored array, and the value after it still fits in the line |
| Variants.Descending | compiler/variant.h:173-177 | the element calls go from N-1 down to 0 |
| Variants.DescendingOncePerElement | compiler/variant.h:173-177 | every element is reached, and none twice |
| Variants.MemberCalls | compiler/variant.h:168-177 | one call on a plain member, and the descending element calls on an array member |
| Variants.Variant.FlagMatchesType | compiler/variant.h:244-247 | true exactly when the flag is the first position of Q in T... |
| Variants.Variant.constructor | compiler/variant.h:262-272 | the const flag is Q's index and Q is copied or moved in |
| Variants.Variant.Transfer | compiler/variant.h:275-284 | copy and move take the other's flag and copy or move the member it selects, element by element for an array |
| Variants.Variant.Destruct | compiler/variant.h:285-287 | the flagged member's destructor runs once, on each element last to first for an array |
| Variants.Variant.Get | compiler/variant.h:249-259 | needs the flag to match Q; returns the payload |
| Variants.TransferMember | compiler/variant.h:190-199 | the element loop rebuilds the member and makes the descending calls |
| GenerateCpp.SplitOnJoin | generate_cpp.py:16-18 | splitting the `'\n'`-join of lines that contain no `'\n'` gives back those lines |
| GenerateCpp.JoinSplitOn | generate_cpp.py:16-18 | joining `s.split('\n')` with `'\n'` gives back s |
| GenerateCpp.LeadingSpace | generate_cpp.py:17 | `len(ss) - len(ss.lstrip())`: the whitespace prefix, followed by a non-space unless the line is blank |
| GenerateCpp.MinIndent | generate_cpp.py:17 | None exactly when every line is blank; otherwise the least leading whitespace over non-blank lines, reached by one of them |
| GenerateCpp.StripCommonIndent | generate_cpp.py:15-18 | None (min of an empty generator raises) exactly when every line is blank |
| GenerateCpp.StripCommonIndentLines | generate_cpp.py:15-18 | the result has the same number of lines, each with `i` leading characters dropped |
| GenerateCpp.StrippedHasFlushLine | generate_cpp.py:17-18 | after stripping, some non-blank line starts without whitespace |
| GenerateCpp.StripCommonIndentIdempotent | generate_cpp.py:15-18 | stripping twice equals stripping once |
| GenerateCpp.SplitLines | generate_cpp.py:21 | `splitlines()` lines hold no line boundary, and there are none only for the empty string |
| GenerateCpp.Indentation | generate_cpp.py:20 | n copies of `indent` are 4n spaces |
| GenerateCpp.AddIndentLines | generate_cpp.py:19-21 | the lines of the result are the `splitlines()` lines each behind n indents |
| GenerateCpp.AddIndentDropsTrailingNewline | generate_cpp.py:19-21 | a trailing newline is dropped: `add_indent(s + "\n")` equals `add_indent(s)` |
| GenerateCpp.SplitLinesTrailingNewline | generate_cpp.py:21 | `splitlines()` ignores one trailing newline after a line that does not already end in a line boundary |
| GenerateCpp.LookupNodeId | generate_cpp.py:61-65 | -1 exactly when no node has the name; otherwise the first such position |
| GenerateCpp.GetX | generate_cpp.py:37-49 | None (raise) exactly when the name is in none of the three dictionaries; d_compute has priority over d_input, and d_input over d_alias |
| GenerateCpp.ReplaceAbsent | generate_cpp.py:99 | `str.replace` leaves a string without the pattern unchanged |
| GenerateCpp.RenameArgsInsideIdentifier | generate_cpp.py:96-99 | as written: renaming `x` in `x_n(x)` also rewrites the `x` inside the identifier `x_n` |
| GenerateCpp.ReplaceIdentifierKeepsLongerIdentifier | generate_cpp.py:96-99 | corrected renaming leaves a longer identifier that contains the name unchanged |
| GenerateCpp.ReplaceIdentifierReplacesWhole | generate_cpp.py:96-99 | corrected renaming replaces the identifier itself |
| GenerateCpp.RenameArgsIdentifiersExample | generate_cpp.py:96-99 | corrected renaming of `x` in `x_n(x)` gives `x_n(x())` |

## Left out

- Concurrency. The model is single-threaded:
  - `safe_to_read` and `main_thread_only_ref` always return true in the source, and `find`'s `thread_id` has no effect;
  - the atomic `user_ref_count` and its memory-ordering TODOs are left out.
- Raw memory. `reinterpret_cast`, placement new, `alignas` and the per-type function-pointer tables are not modelled:
  - values are type-parametric;
  - per-type calls are recorded as `ValueOp`/`Call` values;
  - only the offset arithmetic is kept.
- Failures. `abort()` and a failing `assert` on a reachable path are `None` results, or a precondition where the source puts the burden on the caller.
- Callbacks are left out, because they run through `std::function` and foreign calls:
  - `Engine::make_callback`, `Engine::run` and `Dispatcher`;
  - `CallbackRef`;
  - the engine's `callbacks` member;
  - the `VariableWidthContiguousStore` behind them is modelled on its own.
- `prefix_for<Q>()` is not defined in the shown `KeyValuePair`, so the prefix of a type is its index, as `is_type` uses it.
- Stream output:
  - `operator<<` of `ContiguousStore`, `BucketRef` and `VariableWidthContiguousStore` is left out, being diagnostic output only;
  - the table's `operator<<` is modelled as strings, element formatting as already-rendered strings.
- compiler/unordered_map.h, the demo programs and sample.cpp are not part of this model: the first does not compile, and the others only print or hold generated output.
- The rest of generate_cpp.py is not part of this model: XML parsing, the regex rewrites of `translated_code`, the module-level loop that fills `node_list` and the dictionaries, and file output. Its dictionaries are parameters of `GetX`.
- Python `str.isspace` and `str.splitlines` are modelled on the fixed character sets they use; Unicode categories beyond those sets are not.
- The ref type `uint32_t` of `ContiguousStore` is unbounded here: the model has no store with 2^32 refs.
- The destructor of `BucketRef` is an empty TODO in the source and is not modelled.
- `variant_impl::get`'s recursion through the nested union is collapsed to the flagged member.
- UnorderedMaps.UnorderedMap.Delete: requires a well-formed query (a type id of the table and a key of that type's length), which every caller in the engine passes; malformed keys are not modelled.
- UnorderedMaps.UnorderedMap.Insert: requires a well-formed query and an absent key, as the source's assert demands.
- Engines.Engine.MakeInput: requires the new id not to be stored yet; the source relies on ids never being reused. The id counter does wrap in 32 bits (`TakeNextId`), but a wrapped id that collides with a key still stored is excluded rather than modelled.
- Engines.Engine.CGetValue: requires the key to be stored with a constructed value, as the source's assert and `cget`'s assert demand.
- ContiguousStores.ContiguousStore.Delete: requires a live ref; the source's `assert(ref != 0)` is the only check, and deleting a freed ref is not modelled.
- Engines.Engine: `user_ref_count` is indexed by slot, so a compaction that moves pairs would leave counts behind. The engine never calls `attempt_clear_tombstones`, so the model's engine never compacts.

## Findings

| source | as written | input that shows it | evidently intended | confidence | as-written member | corrected member |
|---|---|---|---|---|---|---|
| engine/unordered_map.h:140-149 | `insert` into a tombstone slot never decrements `tombstone_count` | delete a key whose slot stays a tombstone, then insert a key whose chain reaches that slot first | reusing a tombstone takes one off `tombstone_count` | not executed | UnorderedMaps.UnorderedMap.Insert | UnorderedMaps.UnorderedMap.InsertCorrected |
| compiler/engine.h:97-100 | `v = user_ref_count[idx]--` tests the count before the decrement, and the zero branch is empty | release the only handle: count 1 yields v == 1, so nothing happens, and a further release wraps the count to SIZE_MAX | pre-decrement, deleting the pair when the count reaches 0, as engine/engine.h:179-183 does | not executed | Engines.PostDecrementSeesOnlyUnderflow | Engines.PreDecrementSeesLastRelease |
| engine/variable_width_contiguous_store.h:93-100 | `idx < size()` is always true, so deleting the block stored last takes the swap path and reads `data_to_ref_mapping[idx]` after `pop_back` | a store holding one ref: delete it (idx 0, size 1) | `idx < size() - 1` | not executed | ContiguousLayouts.DeleteAsWrittenReadsPastEnd | ContiguousLayouts.DeleteKeepsWf |
| generate_cpp.py:96-99 | `s.replace(a, a + "()")` also rewrites the argument name inside longer identifiers | argument `x` in `x_n(x)` gives `x()_n(x())` | rename whole identifiers only | not executed | GenerateCpp.RenameArgsInsideIdentifier | GenerateCpp.ReplaceIdentifierKeepsLongerIdentifier |
