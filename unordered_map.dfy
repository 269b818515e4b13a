/** unordered_map<KVP, capacity> of engine/unordered_map.h: the store of key-value
    pairs and the parallel extra_storage_info array, updated in place. */
module UnorderedMaps {
  import opened Wrappers
  import Utils
  import opened KeyValuePairs
  import opened ProbeTables
  import opened ProbeTableUpdates
  import opened ProbeTableDeletes
  import opened TableDumps

  class UnorderedMap<V> {
    const capacity: nat
    /** accompanying_key_n of each value type, indexed by key prefix (type id). */
    const keyLengths: seq<nat>
    /** get_hashed_idx before the reduction to a slot. */
    const hash: (nat, seq<bv32>) -> nat
    const store: array<Kvp<V>>
    const extra: array<ExtraStorageInfo>
    var tombstoneCount: nat
    var validCount: nat
    /** The slot of every stored full key. */
    ghost var where: map<FullKey, nat>

    ghost predicate Valid()
      reads this, store, extra
    {
      Utils.IsPow2(capacity) && capacity <= SIZE_T_MOD
      && Inv(capacity, keyLengths, hash, store[..], extra[..], validCount, tombstoneCount, where)
    }

    /** The stored pairs by full key. */
    ghost function Contents(): map<FullKey, Kvp<V>>
      reads this, store
      requires store.Length == capacity
    {
      ProbeTables.Contents(capacity, store[..], where)
    }

    /** A table of `capacity` null slots (capacity must be a power of two). */
    constructor (capacity: nat, keyLengths: seq<nat>, hash: (nat, seq<bv32>) -> nat)
      requires Utils.IsPow2(capacity) && capacity <= SIZE_T_MOD && |keyLengths| <= TOMBSTONE
      ensures Valid() && fresh(store) && fresh(extra)
      ensures this.capacity == capacity && this.keyLengths == keyLengths && this.hash == hash
      ensures where == map[] && validCount == 0 && tombstoneCount == 0
    {
      this.capacity := capacity;
      this.keyLengths := keyLengths;
      this.hash := hash;
      store := new Kvp<V>[capacity](_ => Empty());
      extra := new ExtraStorageInfo[capacity](_ => DEFAULT_EXTRA);
      tombstoneCount := 0;
      validCount := 0;
      where := map[];
      new;
      EmptyTableInv(capacity, keyLengths, hash, store[..], extra[..]);
    }

    /** find(key_prefix, begin, end) on the main thread: the slot of the pair, or
        None for nullptr / invalid_index. */
    method Find(prefix: nat, key: seq<bv32>) returns (r: Option<nat>)
      requires Valid()
      ensures r == FindFrom(capacity, store[..], HashIdx(capacity, hash, FullKey(prefix, key)), FullKey(prefix, key), 0)
      ensures IsQuery(keyLengths, FullKey(prefix, key)) ==>
                r == (if FullKey(prefix, key) in where then Some(where[FullKey(prefix, key)]) else None)
    {
      var fk := FullKey(prefix, key);
      var baseIdx := hash(prefix, key) % capacity;
      if IsQuery(keyLengths, fk) {
        FindIsExact(capacity, keyLengths, hash, store[..], extra[..], validCount, tombstoneCount, where, fk);
      }
      var i := 0;
      while i < MAX_PROBING
        invariant 0 <= i <= MAX_PROBING
        invariant FindFrom(capacity, store[..], baseIdx, fk, i) == FindFrom(capacity, store[..], baseIdx, fk, 0)
      {
        var idx := ProbeIFrom(capacity, baseIdx, i);
        var kvp := store[idx];
        if kvp.IsNull() {
          return None;
        }
        if kvp.KeyPrefix() == prefix && KeyEqual(key, kvp.key) {
          return Some(idx);
        }
        i := i + 1;
      }
      return None;
    }
 
    /** insert(key_prefix, begin, end): probe from the hashed slot, counting a
        passing chain on every valid slot visited, and place the key in the first
        null or tombstone slot, with probes_used = i. The caller guarantees the key
        is absent. None is abort() after max_probing valid slots, which leaves no
        state behind to describe. `reusedTombstone` reports whether the slot taken
        was a tombstone; this insert leaves tombstone_count as it was either way. */
    method Insert(prefix: nat, key: seq<bv32>) returns (r: Option<nat>, reusedTombstone: bool)
      requires Valid() && IsQuery(keyLengths, FullKey(prefix, key)) && FullKey(prefix, key) !in where
      modifies this`validCount, this`where, store, extra
      ensures var h := HashIdx(capacity, hash, FullKey(prefix, key));
              r.None? ==> forall j :: 0 <= j < MAX_PROBING ==> old(extra[..])[ProbeIFrom(capacity, h, j)].IsValidProbesUsed()
      ensures r.Some? ==> Valid() && r.value < capacity
      ensures r.Some? ==> InsertedAt(capacity, keyLengths, hash, old(store[..]), old(extra[..]), store[..], extra[..],
                                     FullKey(prefix, key), r.value, reusedTombstone)
      ensures r.Some? ==> where == old(where)[FullKey(prefix, key) := r.value] && validCount == old(validCount) + 1
      ensures tombstoneCount == old(tombstoneCount)
      ensures r.Some? ==> tombstoneCount - CountTombstones(extra[..])
                          == old(tombstoneCount) - old(CountTombstones(extra[..])) + (if reusedTombstone then 1 else 0)
    {
      var fk := FullKey(prefix, key);
      var baseIdx := hash(prefix, key) % capacity;
      ghost var st0, ex0 := store[..], extra[..];
      var i := 0;
      while i < MAX_PROBING
        invariant 0 <= i <= MAX_PROBING
        invariant Probed(capacity, ex0, extra[..], baseIdx, i)
        invariant store[..] == st0 && validCount == old(validCount) && where == old(where)
      {
        var idx := ProbeIFrom(capacity, baseIdx, i);
        if extra[idx].IsNull() || extra[idx].IsTombstone() {
          reusedTombstone := PlaceKey(prefix, key, i, st0, ex0);
          return Some(idx), reusedTombstone;
        }
        ProbedStep(capacity, ex0, extra[..], baseIdx, i);
        extra[idx] := extra[idx].(passing := extra[idx].passing + 1);
        i := i + 1;
      }
      return None, false;
    }

    /** The branch of insert where probe step i reaches a null or tombstone slot:
        it takes the key with probes_used = i. */
    method PlaceKey(prefix: nat, key: seq<bv32>, i: nat, ghost st0: seq<Kvp<V>>, ghost ex0: seq<ExtraStorageInfo>)
      returns (reusedTombstone: bool)
      requires Utils.IsPow2(capacity) && capacity <= SIZE_T_MOD && store.Length == capacity && extra.Length == capacity
      requires InsertReady(capacity, keyLengths, hash, st0, ex0, validCount, tombstoneCount, where, extra[..], FullKey(prefix, key), i)
      requires store[..] == st0
      modifies this`validCount, this`where, store, extra
      ensures Valid()
      ensures InsertedAt(capacity, keyLengths, hash, st0, ex0, store[..], extra[..], FullKey(prefix, key),
                         ProbeIFrom(capacity, HashIdx(capacity, hash, FullKey(prefix, key)), i), reusedTombstone)
      ensures where == old(where)[FullKey(prefix, key) := ProbeIFrom(capacity, HashIdx(capacity, hash, FullKey(prefix, key)), i)]
      ensures validCount == old(validCount) + 1
    {
      var fk := FullKey(prefix, key);
      var idx := ProbeIFrom(capacity, hash(prefix, key) % capacity, i);
      ghost var ex1 := extra[..];
      InsertPreservesInv(capacity, keyLengths, hash, st0, ex0, validCount, tombstoneCount, where, ex1, fk, i);
      InsertCanPlace(capacity, keyLengths, hash, st0, ex0, validCount, tombstoneCount, where, ex1, fk, i);
      var kvp := store[idx];
      reusedTombstone := extra[idx].IsTombstone();
      extra[idx] := SetToProbesUsed(extra[idx], i);
      validCount := validCount + 1;
      store[idx] := PlacementNewKey(kvp, prefix, key, keyLengths);
      where := where[fk := idx];
      assert store[..] == InsertedStore(capacity, keyLengths, hash, st0, ex0, old(validCount), tombstoneCount, old(where), ex1, fk, i);
      assert extra[..] == ex1[idx := SetToProbesUsed(ex1[idx], i)];
      InsertOutcome(capacity, keyLengths, hash, st0, ex0, old(validCount), tombstoneCount, old(where), ex1, fk, i);
    }

    /** insert as written, stated on the contents: the key joins the table as a
        new unconstructed pair, and tombstone_count keeps its old value even when
        a tombstone is reused. */
    method InsertKeepingCount(prefix: nat, key: seq<bv32>) returns (r: Option<nat>)
      requires Valid() && IsQuery(keyLengths, FullKey(prefix, key)) && FullKey(prefix, key) !in where
      modifies this`validCount, this`where, store, extra
      ensures tombstoneCount == old(tombstoneCount)
      ensures r.Some? ==> Valid() && r.value < store.Length
      ensures r.Some? ==> where == old(where)[FullKey(prefix, key) := r.value] && validCount == old(validCount) + 1
      ensures r.Some? ==> store[r.value].IsType(prefix) && store[r.value].key == key && !store[r.value].header.constructed
      ensures r.Some? ==> !old(store[r.value]).IsValidType()
      ensures r.Some? ==> Contents() == old(Contents())[FullKey(prefix, key) := store[r.value]]
      ensures r.Some? ==> forall s :: 0 <= s < capacity && s != r.value ==> store[s] == old(store[s])
      ensures r.Some? ==> FindFrom(capacity, store[..], HashIdx(capacity, hash, FullKey(prefix, key)), FullKey(prefix, key), 0) == r
    {
      ghost var st0, ex0 := store[..], extra[..];
      var reused;
      r, reused := Insert(prefix, key);
      if r.Some? {
        assert SlotInv(capacity, keyLengths, hash, st0[r.value], ex0[r.value], r.value);
        SlotOfKey(capacity, keyLengths, hash, st0, ex0, old(validCount), old(tombstoneCount), old(where));
        ContentsAfterPlace(capacity, st0, store[..], old(where), FullKey(prefix, key), r.value);
        FindIsExact(capacity, keyLengths, hash, store[..], extra[..], validCount, tombstoneCount, where, FullKey(prefix, key));
      }
    }

    /** insert as evidently intended: taking a tombstone slot also takes one off
        tombstone_count, so the count stays exact. */
    method InsertCorrected(prefix: nat, key: seq<bv32>) returns (r: Option<nat>)
      requires Valid() && IsQuery(keyLengths, FullKey(prefix, key)) && FullKey(prefix, key) !in where
      modifies this, store, extra
      ensures r.Some? ==> Valid() && r.value < store.Length
      ensures r.Some? ==> tombstoneCount + old(CountTombstones(extra[..])) == old(tombstoneCount) + CountTombstones(extra[..])
      ensures r.Some? ==> where == old(where)[FullKey(prefix, key) := r.value] && validCount == old(validCount) + 1
      ensures r.Some? ==> store[r.value].IsType(prefix) && store[r.value].key == key && !store[r.value].header.constructed
      ensures r.Some? ==> !old(store[r.value]).IsValidType()
      ensures r.Some? ==> Contents() == old(Contents())[FullKey(prefix, key) := store[r.value]]
      ensures r.Some? ==> forall s :: 0 <= s < capacity && s != r.value ==> store[s] == old(store[s])
      ensures r.Some? ==> FindFrom(capacity, store[..], HashIdx(capacity, hash, FullKey(prefix, key)), FullKey(prefix, key), 0) == r
    {
      ghost var st0, ex0 := store[..], extra[..];
      var reused;
      r, reused := Insert(prefix, key);
      if r.Some? {
        assert SlotInv(capacity, keyLengths, hash, st0[r.value], ex0[r.value], r.value);
        SlotOfKey(capacity, keyLengths, hash, st0, ex0, old(validCount), old(tombstoneCount), old(where));
        ContentsAfterPlace(capacity, st0, store[..], old(where), FullKey(prefix, key), r.value);
      }
      if r.Some? && reused {
        tombstoneCount := tombstoneCount - 1;
        assert Inv(capacity, keyLengths, hash, store[..], extra[..], validCount, tombstoneCount, where);
      }
      if r.Some? {
        FindIsExact(capacity, keyLengths, hash, store[..], extra[..], validCount, tombstoneCount, where, FullKey(prefix, key));
      }
    }

    /** placement_new_value<Q> through the pointer insert returned: the value of
        the pair at idx is constructed, and nothing else changes. */
    method ConstructValue(idx: nat, q: nat, v: V)
      requires Valid() && idx < capacity
      requires store[idx].IsValidType() && store[idx].IsType(q) && !store[idx].header.constructed
      modifies store
      ensures Valid()
      ensures store[..] == old(store[..])[idx := PlacementNewValue(old(store[idx]), q, v)]
      ensures Contents() == old(Contents())[FullKeyOf(store[idx]) := store[idx]]
    {
      var k := PlacementNewValue(store[idx], q, v);
      SlotOfKey(capacity, keyLengths, hash, store[..], extra[..], validCount, tombstoneCount, where);
      SameKeyKeepsInv(capacity, keyLengths, hash, store[..], extra[..], validCount, tombstoneCount, where, idx, k);
      ContentsAfterReplace(capacity, store[..], where, idx, k);
      store[idx] := k;
    }

    /** delete_(key_prefix, begin, end): nothing for a key the table does not
        hold; otherwise the entry's chain is decremented, its slot becomes a
        tombstone (valid_count - 1, tombstone_count + 1) and is nulled at once
        when no chain passes through it. */
    method Delete(prefix: nat, key: seq<bv32>)
      requires Valid() && IsQuery(keyLengths, FullKey(prefix, key))
      modifies this`tombstoneCount, this`validCount, this`where, store, extra
      ensures Valid()
      ensures where == old(where) - {FullKey(prefix, key)}
      ensures Contents() == old(Contents()) - {FullKey(prefix, key)}
      ensures validCount == old(validCount) - (if FullKey(prefix, key) in old(where) then 1 else 0)
      ensures tombstoneCount + old(CountTombstones(extra[..])) == old(tombstoneCount) + CountTombstones(extra[..])
      ensures FindFrom(capacity, store[..], HashIdx(capacity, hash, FullKey(prefix, key)), FullKey(prefix, key), 0) == None
      ensures FullKey(prefix, key) !in old(where) ==>
                store[..] == old(store[..]) && extra[..] == old(extra[..]) && tombstoneCount == old(tombstoneCount)
    {
      var fk := FullKey(prefix, key);
      var found := Find(prefix, key);
      if found.None? {
        return;
      }
      DeleteAt(found.value, fk);
    }

    /** The found branch of delete_: the entry of fk sits at slot t. */
    method DeleteAt(t: nat, ghost fk: FullKey)
      requires Valid() && IsQuery(keyLengths, fk) && fk in where && where[fk] == t
      modifies this`tombstoneCount, this`validCount, this`where, store, extra
      ensures Valid()
      ensures where == old(where) - {fk}
      ensures Contents() == old(Contents()) - {fk}
      ensures validCount == old(validCount) - 1
      ensures tombstoneCount + old(CountTombstones(extra[..])) == old(tombstoneCount) + CountTombstones(extra[..])
      ensures FindFrom(capacity, store[..], HashIdx(capacity, hash, fk), fk, 0) == None
    {
      ghost var st0, ex0, vc0, tc0 := store[..], extra[..], validCount, tombstoneCount;
      DecrementUpstreamProbesOf(t, 0);
      Unmap(t, fk, st0, ex0, vc0, tc0);
    }

    /** The rest of delete_ once the chain of the entry at t has been
        decremented: retire the slot and drop the key. */
    method Unmap(t: nat, ghost fk: FullKey, ghost st0: seq<Kvp<V>>, ghost ex0: seq<ExtraStorageInfo>, ghost vc0: nat, ghost tc0: nat)
      requires Utils.IsPow2(capacity) && capacity <= SIZE_T_MOD && capacity == store.Length == extra.Length
      requires IsQuery(keyLengths, fk) && fk in where && where[fk] == t && validCount == vc0
      requires DeleteReady(capacity, keyLengths, hash, st0, ex0, vc0, tc0, where, fk, store[..], extra[..], tombstoneCount)
      modifies this`tombstoneCount, this`validCount, this`where, store, extra
      ensures Valid()
      ensures where == old(where) - {fk}
      ensures Contents() == ProbeTables.Contents(capacity, st0, old(where)) - {fk}
      ensures validCount == vc0 - 1
      ensures tombstoneCount + CountTombstones(ex0) == tc0 + CountTombstones(extra[..])
      ensures FindFrom(capacity, store[..], HashIdx(capacity, hash, fk), fk, 0) == None
    {
      DeleteKeepsInv(capacity, keyLengths, hash, st0, ex0, vc0, tc0, where, fk, store[..], extra[..], tombstoneCount);
      // valid_count - 1 and tombstone_count + 1 before the slot is retired
      validCount := validCount - 1;
      tombstoneCount := tombstoneCount + 1;
      Retire(t);
      where := where - {fk};
      FindIsExact(capacity, keyLengths, hash, store[..], extra[..], validCount, tombstoneCount, where, fk);
    }

    /** decrement_upstream_probes_of(end_idx, start_probe_i): one chain fewer
        through each slot of steps start_probe_i .. probes_used-1 of the entry at
        end_idx, nulling every tombstone whose count reaches 0. */
    method DecrementUpstreamProbesOf(endIdx: nat, startProbeI: nat)
      requires Valid() && endIdx < capacity && extra[endIdx].IsValidProbesUsed()
      requires startProbeI <= extra[endIdx].ProbesUsed()
      modifies this`tombstoneCount, store, extra
      ensures Decremented(capacity, old(store[..]), old(extra[..]), store[..], extra[..],
                          ChainBase(capacity, old(extra[..]), endIdx), startProbeI, old(extra[endIdx].ProbesUsed()))
      ensures tombstoneCount + old(CountTombstones(extra[..])) == old(tombstoneCount) + CountTombstones(extra[..])
    {
      assert DecrementOf(capacity, keyLengths, hash, store[..], extra[..], validCount, tombstoneCount, where, endIdx, startProbeI);
      DecrementChain(endIdx, startProbeI, store[..], extra[..], validCount, tombstoneCount, where);
    }

    /** The loop of decrement_upstream_probes_of, on a snapshot of a table that
        keeps the invariant. */
    method DecrementChain(endIdx: nat, startProbeI: nat, ghost st0: seq<Kvp<V>>, ghost ex0: seq<ExtraStorageInfo>,
                          ghost vc0: nat, ghost tc0: nat, ghost where0: map<FullKey, nat>)
      requires capacity == store.Length == extra.Length
      requires DecrementOf(capacity, keyLengths, hash, st0, ex0, vc0, tc0, where0, endIdx, startProbeI)
      requires store[..] == st0 && extra[..] == ex0 && tombstoneCount == tc0
      modifies this`tombstoneCount, store, extra
      ensures Decremented(capacity, st0, ex0, store[..], extra[..], ChainBase(capacity, ex0, endIdx), startProbeI, ex0[endIdx].ProbesUsed())
      ensures tombstoneCount + CountTombstones(ex0) == tc0 + CountTombstones(extra[..])
    {
      var nProbes := extra[endIdx].ProbesUsed();
      var baseIdx := BaseFromProbeI(capacity, endIdx, nProbes);
      var i := startProbeI;
      while i < nProbes
        invariant startProbeI <= i <= nProbes
        invariant Decremented(capacity, st0, ex0, store[..], extra[..], baseIdx, startProbeI, i)
        invariant tombstoneCount + CountTombstones(ex0) == tc0 + CountTombstones(extra[..])
      {
        var idx := ProbeIFrom(capacity, baseIdx, i);
        DecrementReady(capacity, keyLengths, hash, st0, ex0, vc0, tc0, where0, endIdx, startProbeI, store[..], extra[..], i);
        ghost var st, ex := store[..], extra[..];
        DecrementSlot(idx);
        DecrementStep(capacity, st0, ex0, st, ex, baseIdx, startProbeI, i, store[..], extra[..]);
        i := i + 1;
      }
    }

    /** The tail shared by delete_ and attempt_clear_tombstones: the pair at t
        is destructed to a tombstone, and the slot is nulled at once (with
        tombstone_count - 1) when no chain passes through it. */
    method Retire(t: nat)
      requires t < capacity == store.Length == extra.Length
      requires Consistent(store[t])
      requires tombstoneCount >= CountTombstones(extra[..][t := SetToTombstone(extra[t])])
      modifies this`tombstoneCount, store, extra
      ensures store[..] == RetiredStore(old(store[..]), old(extra[..]), t)
      ensures extra[..] == RetiredExtra(old(extra[..]), t)
      ensures tombstoneCount + (if old(extra[t]).passing == 0 then 1 else 0) == old(tombstoneCount)
    {
      ghost var st, ex := store[..], extra[..];
      store[t] := DestructToTombstone(store[t]);
      extra[t] := SetToTombstone(extra[t]);
      if extra[t].passing == 0 {
        TombstoneToNull(t);
        assert store[..] == st[t := KeyValuePairs.TombstoneToNull(DestructToTombstone(st[t]))];
        assert extra[..] == ex[t := SetToNull(SetToTombstone(ex[t]))];
      }
    }

    /** One step of decrement_upstream_probes_of: one chain fewer through idx,
        and a tombstone left with none is nulled. */
    method DecrementSlot(idx: nat)
      requires idx < capacity == store.Length == extra.Length
      requires extra[idx].passing > 0 && tombstoneCount >= CountTombstones(extra[..])
      requires extra[idx].IsTombstone() ==> store[idx].IsTombstone()
      modifies this`tombstoneCount, store, extra
      ensures var e := old(extra[idx]).(passing := old(extra[idx]).passing - 1);
              if e.passing == 0 && e.IsTombstone() then
                old(store[idx]).IsTombstone() &&
                store[..] == old(store[..])[idx := KeyValuePairs.TombstoneToNull(old(store[idx]))] &&
                extra[..] == old(extra[..])[idx := SetToNull(e)]
              else
                store[..] == old(store[..]) && extra[..] == old(extra[..])[idx := e]
      ensures tombstoneCount + old(CountTombstones(extra[..])) == old(tombstoneCount) + CountTombstones(extra[..])
    {
      ghost var ex := extra[..];
      extra[idx] := extra[idx].(passing := extra[idx].passing - 1);
      CountUpdate(ex, idx, extra[idx]);
      if extra[idx].passing == 0 && extra[idx].IsTombstone() {
        ghost var ex1 := extra[..];
        TombstoneToNull(idx);
        assert extra[..] == ex[idx := SetToNull(ex1[idx])];
      }
    }

    /** tombstone_to_null(idx): a tombstone with no chain through it becomes null
        in both arrays, and tombstone_count goes down by one. */
    method TombstoneToNull(idx: nat)
      requires idx < capacity == store.Length == extra.Length
      requires extra[idx].passing == 0 && extra[idx].IsTombstone() && store[idx].IsTombstone()
      requires tombstoneCount >= CountTombstones(extra[..])
      modifies this`tombstoneCount, store, extra
      ensures store[..] == old(store[..])[idx := KeyValuePairs.TombstoneToNull(old(store[idx]))]
      ensures extra[..] == old(extra[..])[idx := SetToNull(old(extra[idx]))]
      ensures tombstoneCount + 1 == old(tombstoneCount)
      ensures tombstoneCount + old(CountTombstones(extra[..])) == old(tombstoneCount) + CountTombstones(extra[..])
    {
      TombstoneCounted(extra[..], idx);
      CountUpdate(extra[..], idx, SetToNull(extra[idx]));
      store[idx] := KeyValuePairs.TombstoneToNull(store[idx]);
      extra[idx] := SetToNull(extra[idx]);
      tombstoneCount := tombstoneCount - 1;
    }

    /** attempt_clear_tombstones(): visit every slot; an entry that is not at
        probe 0 moves into the first tombstone on its own chain, if there is one.
        Every key keeps its pair, so every key stays findable. */
    method AttemptClearTombstones()
      requires Valid()
      modifies this`tombstoneCount, this`where, store, extra
      ensures Valid()
      ensures Contents() == old(Contents()) && where.Keys == old(where).Keys
      ensures validCount == old(validCount)
      ensures tombstoneCount + old(CountTombstones(extra[..])) == old(tombstoneCount) + CountTombstones(extra[..])
    {
      ghost var tcStart, ctStart := tombstoneCount, CountTombstones(extra[..]);
      for idx := 0 to capacity
        invariant Valid()
        invariant Contents() == old(Contents()) && where.Keys == old(where).Keys
        invariant validCount == old(validCount)
        invariant tombstoneCount + ctStart == tcStart + CountTombstones(extra[..])
      {
        if extra[idx].IsNull() {
          // nothing to do
        } else if extra[idx].IsTombstone() {
          if extra[idx].passing == 0 {
            TombstonesArePassedThrough(capacity, keyLengths, hash, store[..], extra[..], validCount, tombstoneCount, where);
            assert false;
          }
        } else if extra[idx].ProbesUsed() != 0 {
          AttemptMove(idx);
        }
      }
    }

    /** The body of attempt_clear_tombstones for an entry at idx that is not at
        probe 0: walk its chain from the base and move it into the first
        tombstone found, if any. */
    method AttemptMove(idx: nat)
      requires Valid() && idx < capacity && extra[idx].IsValidProbesUsed()
      modifies this`tombstoneCount, this`where, store, extra
      ensures Valid()
      ensures Contents() == old(Contents()) && where.Keys == old(where).Keys
      ensures tombstoneCount + old(CountTombstones(extra[..])) == old(tombstoneCount) + CountTombstones(extra[..])
      // no tombstone on the chain: nothing changes
      ensures var b, pu := old(ChainBase(capacity, extra[..], idx)), old(extra[idx].ProbesUsed());
        (forall j :: 0 <= j < pu ==> !old(extra[ProbeIFrom(capacity, b, j)]).IsTombstone()) ==>
          where == old(where) && store[..] == old(store[..]) && extra[..] == old(extra[..]) && tombstoneCount == old(tombstoneCount)
      // otherwise the entry's key now maps to the first tombstone on the chain
      ensures var b, pu := old(ChainBase(capacity, extra[..], idx)), old(extra[idx].ProbesUsed());
        (exists j :: 0 <= j < pu && old(extra[ProbeIFrom(capacity, b, j)]).IsTombstone()) ==>
          exists j :: 0 <= j < pu && old(extra[ProbeIFrom(capacity, b, j)]).IsTombstone() &&
            (forall k :: 0 <= k < j ==> !old(extra[ProbeIFrom(capacity, b, k)]).IsTombstone()) &&
            where == old(where)[old(FullKeyOf(store[idx])) := ProbeIFrom(capacity, b, j)]
    {
      var baseIdx := BaseFromProbeI(capacity, idx, extra[idx].ProbesUsed());
      var i := 0;
      while i < extra[idx].ProbesUsed()
        invariant 0 <= i <= extra[idx].ProbesUsed()
        invariant unchanged(this) && unchanged(store) && unchanged(extra)
        invariant forall j :: 0 <= j < i ==> !extra[ProbeIFrom(capacity, baseIdx, j)].IsTombstone()
      {
        var newIdx := ProbeIFrom(capacity, baseIdx, i);
        if extra[newIdx].IsTombstone() {
          MoveUpstream(idx, i);
          return;
        }
        i := i + 1;
      }
    }

    /** The move of attempt_clear_tombstones: the entry at idx goes to step i of
        its chain, the first tombstone on it; the chain's steps i .. probes_used-1
        are decremented and the old slot is retired. */
    method MoveUpstream(idx: nat, i: nat)
      requires Valid() && idx < capacity && extra[idx].IsValidProbesUsed() && i < extra[idx].ProbesUsed()
      requires extra[ProbeIFrom(capacity, ChainBase(capacity, extra[..], idx), i)].IsTombstone()
      requires forall j :: 0 <= j < i ==> !extra[ProbeIFrom(capacity, ChainBase(capacity, extra[..], idx), j)].IsTombstone()
      modifies this`tombstoneCount, this`where, store, extra
      ensures Valid()
      ensures Contents() == old(Contents())
      ensures FullKeyOf(old(store[idx])) in old(where)
      ensures where == old(where)[FullKeyOf(old(store[idx])) := ProbeIFrom(capacity, ChainBase(capacity, old(extra[..]), idx), i)]
      ensures tombstoneCount + old(CountTombstones(extra[..])) == old(tombstoneCount) + CountTombstones(extra[..])
    {
      ghost var st0, ex0, tc0, where0 := store[..], extra[..], tombstoneCount, where;
      var newIdx := ProbeIFrom(capacity, BaseFromProbeI(capacity, idx, extra[idx].ProbesUsed()), i);
      assert SlotInv(capacity, keyLengths, hash, st0[idx], ex0[idx], idx);
      DecrementUpstreamProbesOf(idx, i);
      ghost var st1, ex1, tc1 := store[..], extra[..], tombstoneCount;
      MoveKeepsInv(capacity, keyLengths, hash, st0, ex0, validCount, tc0, where, idx, i, st1, ex1, tc1);
      if extra[newIdx].IsNull() {
        // undo the decrement of tombstone_count if new_idx was nulled above
        tombstoneCount := tombstoneCount + 1;
      }
      extra[newIdx] := SetToProbesUsed(extra[newIdx], i);
      store[newIdx] := MoveAssign(store[newIdx], store[idx]);
      assert store[..] == st1[newIdx := st1[idx]] && extra[..] == MovedExtra(ex1, newIdx, i);
      Retire(idx);
      where := where[FullKeyOf(st0[idx]) := newIdx];
    }

    // -------------------------------------------------------------------------
    // operator<<: the head rows and the "null:" count

    /** The "store head:" row: a glyph per slot for the first head_size slots,
        then "..." if there are more. */
    method StoreHead() returns (row: string)
      requires Valid()
      ensures row == StoreRow(capacity, hash, store[..])
    {
      row := "";
      var n := if capacity < HEAD_SIZE then capacity else HEAD_SIZE;
      for i := 0 to n
        invariant row == StoreGlyphs(capacity, hash, store[..], i)
      {
        var glyph: char;
        if store[i].IsNull() {
          glyph := '-';
        } else if store[i].IsTombstone() {
          glyph := 't';
        } else if hash(store[i].header.typeId, store[i].key) % capacity == i {
          glyph := '#';
        } else {
          glyph := '<';
        }
        row := row + [glyph];
      }
      row := row + (if capacity > HEAD_SIZE then "..." else "");
    }

    /** The "extra head:" row, drawn from the metadata. */
    method ExtraHead() returns (row: string)
      requires Valid()
      ensures row == ExtraRow(capacity, extra[..])
    {
      row := "";
      var n := if capacity < HEAD_SIZE then capacity else HEAD_SIZE;
      for i := 0 to n
        invariant row == ExtraGlyphs(extra[..], i)
      {
        var glyph: char;
        if extra[i].IsNull() {
          glyph := '-';
        } else if extra[i].IsTombstone() {
          glyph := 't';
        } else if extra[i].ProbesUsed() == 0 {
          glyph := '#';
        } else {
          glyph := '<';
        }
        row := row + [glyph];
      }
      row := row + (if capacity > HEAD_SIZE then "..." else "");
    }

    /** The row of passing counts under the extra head. */
    method PassingHead() returns (row: string)
      requires Valid()
      ensures row == PassingRow(capacity, extra[..])
    {
      row := "";
      var n := if capacity < HEAD_SIZE then capacity else HEAD_SIZE;
      for i := 0 to n
        invariant row == PassingGlyphs(extra[..], i)
      {
        var glyph: char;
        if extra[i].passing == 0 {
          glyph := '-';
        } else if extra[i].passing < 10 {
          glyph := ('0' as int + extra[i].passing) as char;
        } else {
          glyph := '+';
        }
        row := row + [glyph];
      }
      row := row + (if capacity > HEAD_SIZE then "..." else "");
    }

    /** The "null:" count: capacity_ - tombstone_count - valid_count on size_t. */
    method NullLine() returns (n: nat)
      ensures n == PrintedNullCount(capacity, tombstoneCount, validCount)
    {
      n := (capacity - tombstoneCount - validCount) % SIZE_T_MOD;
    }
  }
}
