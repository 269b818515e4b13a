/** How each operation of engine/unordered_map.h moves the table from one
    snapshot of its arrays to the next, and the proofs that every move keeps the
    table invariant. */
module ProbeTableUpdates {
  import opened Wrappers
  import opened KeyValuePairs
  import opened ProbeTables

  // ---------------------------------------------------------------------------
  // The empty table

  lemma {:induction false} NoEntriesNoHits(cap: nat, ex: seq<ExtraStorageInfo>, m: nat, s: nat)
    requires cap > 0 && m <= |ex| && forall u :: 0 <= u < |ex| ==> ex[u].IsNull()
    ensures HitsUpTo(cap, ex, m, s) == 0
  {
    if m > 0 {
      NoEntriesNoHits(cap, ex, m - 1, s);
    }
  }

  lemma {:induction false} AllNullCounts(ex: seq<ExtraStorageInfo>)
    requires forall u :: 0 <= u < |ex| ==> ex[u].IsNull()
    ensures CountValid(ex) == 0 && CountTombstones(ex) == 0
  {
    if ex != [] {
      AllNullCounts(ex[..|ex| - 1]);
    }
  }

  /** A table of null slots with zero counts satisfies the invariant and holds
      nothing. */
  lemma EmptyTableInv<V>(cap: nat, keyLengths: seq<nat>, hash: (nat, seq<bv32>) -> nat,
                         st: seq<Kvp<V>>, ex: seq<ExtraStorageInfo>)
    requires 0 < cap == |st| == |ex| && |keyLengths| <= TOMBSTONE
    requires forall u :: 0 <= u < cap ==> st[u] == Empty() && ex[u] == DEFAULT_EXTRA
    ensures Inv(cap, keyLengths, hash, st, ex, 0, 0, map[])
  {
    AllNullCounts(ex);
    forall s | 0 <= s < cap
      ensures ex[s].passing == Hits(cap, ex, s)
    {
      NoEntriesNoHits(cap, ex, cap, s);
    }
  }

  // ---------------------------------------------------------------------------
  // insert

  /** insert's loop after i unsuccessful probe steps from h: no flag changed, each
      visited slot was valid and got one more passing chain. */
  ghost predicate Probed(cap: nat, ex0: seq<ExtraStorageInfo>, ex: seq<ExtraStorageInfo>, h: nat, i: nat)
  {
    0 < cap == |ex0| == |ex|
    && (forall s :: 0 <= s < cap ==>
          ex[s].flagOrProbesUsed == ex0[s].flagOrProbesUsed
          && ex[s].passing == ex0[s].passing + Crossings(cap, h, 0, i, s))
    && (forall j :: 0 <= j < i ==> ex0[ProbeIFrom(cap, h, j)].IsValidProbesUsed())
  }

  /** One more unsuccessful step: the slot was valid and its count goes up. */
  lemma ProbedStep(cap: nat, ex0: seq<ExtraStorageInfo>, ex: seq<ExtraStorageInfo>, h: nat, i: nat)
    requires Probed(cap, ex0, ex, h, i)
    requires ex[ProbeIFrom(cap, h, i)].IsValidProbesUsed()
    ensures var idx := ProbeIFrom(cap, h, i);
            Probed(cap, ex0, ex[idx := ex[idx].(passing := ex[idx].passing + 1)], h, i + 1)
  {
  }

  /** A slot that holds no entry is never crossed by insert's walk. */
  lemma {:induction false} FreeSlotNotCrossed(cap: nat, ex0: seq<ExtraStorageInfo>, h: nat, i: nat, s: nat)
    requires 0 < cap == |ex0| && s < cap && !ex0[s].IsValidProbesUsed()
    requires forall j :: 0 <= j < i ==> ex0[ProbeIFrom(cap, h, j)].IsValidProbesUsed()
    ensures Crossings(cap, h, 0, i, s) == 0
  {
    if i > 0 {
      FreeSlotNotCrossed(cap, ex0, h, i - 1, s);
    }
  }

  /** The slot step i from h leads to has h as its base. */
  lemma BaseOfProbe(cap: nat, h: nat, i: nat)
    requires h < cap
    ensures BaseFromProbeI(cap, ProbeIFrom(cap, h, i), i) == h
  {
    BaseFromProbeInverts(cap, h, 0, i);
    Utils.ModOfDecomposition(h, cap, 0, h);
  }

  /** What insert leaves behind when step i reaches a null or tombstone slot. */
  ghost predicate InsertReady<V>(cap: nat, keyLengths: seq<nat>, hash: (nat, seq<bv32>) -> nat,
                                 st0: seq<Kvp<V>>, ex0: seq<ExtraStorageInfo>, vc: nat, tc: nat,
                                 where: map<FullKey, nat>, ex: seq<ExtraStorageInfo>, fk: FullKey, i: nat)
  {
    Inv(cap, keyLengths, hash, st0, ex0, vc, tc, where) && IsQuery(keyLengths, fk) && fk !in where
    && i < MAX_PROBING && Probed(cap, ex0, ex, HashIdx(cap, hash, fk), i)
    && !ex0[ProbeIFrom(cap, HashIdx(cap, hash, fk), i)].IsValidProbesUsed()
  }

  lemma InsertCanPlace<V>(cap: nat, keyLengths: seq<nat>, hash: (nat, seq<bv32>) -> nat,
                          st0: seq<Kvp<V>>, ex0: seq<ExtraStorageInfo>, vc: nat, tc: nat,
                          where: map<FullKey, nat>, ex: seq<ExtraStorageInfo>, fk: FullKey, i: nat)
    requires InsertReady(cap, keyLengths, hash, st0, ex0, vc, tc, where, ex, fk, i)
    ensures var idx := ProbeIFrom(cap, HashIdx(cap, hash, fk), i);
            CanPlaceKey(st0[idx], fk.prefix, fk.key, keyLengths) && Consistent(st0[idx])
  {
    var idx := ProbeIFrom(cap, HashIdx(cap, hash, fk), i);
    assert SlotInv(cap, keyLengths, hash, st0[idx], ex0[idx], idx);
  }

  /** The store after insert places the key at step i. */
  ghost function InsertedStore<V>(cap: nat, keyLengths: seq<nat>, hash: (nat, seq<bv32>) -> nat,
                                  st0: seq<Kvp<V>>, ex0: seq<ExtraStorageInfo>, vc: nat, tc: nat,
                                  where: map<FullKey, nat>, ex: seq<ExtraStorageInfo>, fk: FullKey, i: nat): seq<Kvp<V>>
    requires InsertReady(cap, keyLengths, hash, st0, ex0, vc, tc, where, ex, fk, i)
  {
    var idx := ProbeIFrom(cap, HashIdx(cap, hash, fk), i);
    InsertCanPlace(cap, keyLengths, hash, st0, ex0, vc, tc, where, ex, fk, i);
    st0[idx := PlacementNewKey(st0[idx], fk.prefix, fk.key, keyLengths)]
  }

  lemma InsertAccounted<V>(cap: nat, keyLengths: seq<nat>, hash: (nat, seq<bv32>) -> nat,
                           st0: seq<Kvp<V>>, ex0: seq<ExtraStorageInfo>, vc: nat, tc: nat,
                           where: map<FullKey, nat>, ex: seq<ExtraStorageInfo>, fk: FullKey, i: nat)
    requires InsertReady(cap, keyLengths, hash, st0, ex0, vc, tc, where, ex, fk, i)
    ensures var idx := ProbeIFrom(cap, HashIdx(cap, hash, fk), i);
            Accounted(cap, ex[idx := SetToProbesUsed(ex[idx], i)])
  {
    var h := HashIdx(cap, hash, fk);
    var idx := ProbeIFrom(cap, h, i);
    var ex' := ex[idx := SetToProbesUsed(ex[idx], i)];
    BaseOfProbe(cap, h, i);
    forall s | 0 <= s < cap
      ensures ex'[s].passing == Hits(cap, ex', s)
    {
      HitsUpdate(cap, ex0, ex', idx, cap, s);
      assert ex0[s].passing == Hits(cap, ex0, s);
    }
  }

  lemma InsertSlots<V>(cap: nat, keyLengths: seq<nat>, hash: (nat, seq<bv32>) -> nat,
                       st0: seq<Kvp<V>>, ex0: seq<ExtraStorageInfo>, vc: nat, tc: nat,
                       where: map<FullKey, nat>, ex: seq<ExtraStorageInfo>, fk: FullKey, i: nat)
    requires InsertReady(cap, keyLengths, hash, st0, ex0, vc, tc, where, ex, fk, i)
    ensures var idx := ProbeIFrom(cap, HashIdx(cap, hash, fk), i);
            var st' := InsertedStore(cap, keyLengths, hash, st0, ex0, vc, tc, where, ex, fk, i);
            var ex' := ex[idx := SetToProbesUsed(ex[idx], i)];
            forall s {:trigger SlotInv(cap, keyLengths, hash, st'[s], ex'[s], s)} :: 0 <= s < cap ==> SlotInv(cap, keyLengths, hash, st'[s], ex'[s], s)
  {
    var h := HashIdx(cap, hash, fk);
    var idx := ProbeIFrom(cap, h, i);
    var st' := InsertedStore(cap, keyLengths, hash, st0, ex0, vc, tc, where, ex, fk, i);
    var ex' := ex[idx := SetToProbesUsed(ex[idx], i)];
    BaseOfProbe(cap, h, i);
    forall s | 0 <= s < cap
      ensures SlotInv(cap, keyLengths, hash, st'[s], ex'[s], s)
    {
      assert SlotInv(cap, keyLengths, hash, st0[s], ex0[s], s);
      if s == idx {
        assert FullKeyOf(st'[s]) == fk;
      } else if !ex0[s].IsValidProbesUsed() {
        FreeSlotNotCrossed(cap, ex0, h, i, s);
      }
    }
  }

  lemma InsertCountsAndWhere<V>(cap: nat, keyLengths: seq<nat>, hash: (nat, seq<bv32>) -> nat,
                                st0: seq<Kvp<V>>, ex0: seq<ExtraStorageInfo>, vc: nat, tc: nat,
                                where: map<FullKey, nat>, ex: seq<ExtraStorageInfo>, fk: FullKey, i: nat)
    requires InsertReady(cap, keyLengths, hash, st0, ex0, vc, tc, where, ex, fk, i)
    ensures var idx := ProbeIFrom(cap, HashIdx(cap, hash, fk), i);
            var st' := InsertedStore(cap, keyLengths, hash, st0, ex0, vc, tc, where, ex, fk, i);
            var ex' := ex[idx := SetToProbesUsed(ex[idx], i)];
            CountValid(ex') == vc + 1
            && CountTombstones(ex') + (if ex0[idx].IsTombstone() then 1 else 0) == CountTombstones(ex0)
            && WhereInv(cap, st', ex', where[fk := idx])
  {
    var h := HashIdx(cap, hash, fk);
    var idx := ProbeIFrom(cap, h, i);
    var st' := InsertedStore(cap, keyLengths, hash, st0, ex0, vc, tc, where, ex, fk, i);
    var ex' := ex[idx := SetToProbesUsed(ex[idx], i)];
    CountValidOfSameChains(ex0, ex);
    CountTombstonesOfSameFlags(ex0, ex);
    CountUpdate(ex, idx, SetToProbesUsed(ex[idx], i));
    var where' := where[fk := idx];
    forall k | k in where'
      ensures where'[k] < cap && ex'[where'[k]].IsValidProbesUsed() && FullKeyOf(st'[where'[k]]) == k
    {
      if k != fk {
        assert where[k] != idx;
      }
    }
    forall s | 0 <= s < cap && ex'[s].IsValidProbesUsed()
      ensures FullKeyOf(st'[s]) in where' && where'[FullKeyOf(st'[s])] == s
    {
      if s != idx {
        assert FullKeyOf(st0[s]) in where;
      }
    }
  }

  lemma {:induction false} CountTombstonesOfSameFlags(ex: seq<ExtraStorageInfo>, ex2: seq<ExtraStorageInfo>)
    requires |ex| == |ex2| && forall u :: 0 <= u < |ex| ==> ex2[u].flagOrProbesUsed == ex[u].flagOrProbesUsed
    ensures CountTombstones(ex2) == CountTombstones(ex)
  {
    if ex != [] {
      var last := |ex| - 1;
      CountTombstonesOfSameFlags(ex[..last], ex2[..last]);
    }
  }

  /** insert keeps the invariant, with `where` extended by the new key; the
      tombstone count is left as it was, so it may now exceed the tombstones. */
  lemma InsertPreservesInv<V>(cap: nat, keyLengths: seq<nat>, hash: (nat, seq<bv32>) -> nat,
                              st0: seq<Kvp<V>>, ex0: seq<ExtraStorageInfo>, vc: nat, tc: nat,
                              where: map<FullKey, nat>, ex: seq<ExtraStorageInfo>, fk: FullKey, i: nat)
    requires InsertReady(cap, keyLengths, hash, st0, ex0, vc, tc, where, ex, fk, i)
    ensures var idx := ProbeIFrom(cap, HashIdx(cap, hash, fk), i);
            var st' := InsertedStore(cap, keyLengths, hash, st0, ex0, vc, tc, where, ex, fk, i);
            var ex' := ex[idx := SetToProbesUsed(ex[idx], i)];
            Inv(cap, keyLengths, hash, st', ex', vc + 1, tc, where[fk := idx])
            && CountTombstones(ex') + (if ex0[idx].IsTombstone() then 1 else 0) == CountTombstones(ex0)
  {
    InsertCanPlace(cap, keyLengths, hash, st0, ex0, vc, tc, where, ex, fk, i);
    InsertAccounted(cap, keyLengths, hash, st0, ex0, vc, tc, where, ex, fk, i);
    InsertSlots(cap, keyLengths, hash, st0, ex0, vc, tc, where, ex, fk, i);
    InsertCountsAndWhere(cap, keyLengths, hash, st0, ex0, vc, tc, where, ex, fk, i);
  }

  /** What insert did when it placed fk at slot idx: idx was the first null or
      tombstone slot on fk's probe sequence, reached at step n = probes_used; every
      slot before it was valid and now has one more passing chain; only idx's
      pair changed, and it holds fk's key with no value yet. */
  ghost predicate InsertedAt<V>(cap: nat, keyLengths: seq<nat>, hash: (nat, seq<bv32>) -> nat,
                                st0: seq<Kvp<V>>, ex0: seq<ExtraStorageInfo>, st: seq<Kvp<V>>, ex: seq<ExtraStorageInfo>,
                                fk: FullKey, idx: nat, reusedTombstone: bool)
  {
    0 < cap == |st0| == |ex0| == |st| == |ex| && idx < cap && ex[idx].IsValidProbesUsed()
    && var h := HashIdx(cap, hash, fk);
       var n := ex[idx].ProbesUsed();
       n < MAX_PROBING && idx == ProbeIFrom(cap, h, n)
       && !ex0[idx].IsValidProbesUsed() && reusedTombstone == ex0[idx].IsTombstone()
       && (forall j :: 0 <= j < n ==> ex0[ProbeIFrom(cap, h, j)].IsValidProbesUsed())
       && (forall s :: 0 <= s < cap ==> ex[s].passing == ex0[s].passing + Crossings(cap, h, 0, n, s))
       && (forall s :: 0 <= s < cap && s != idx ==> st[s] == st0[s])
       && st[idx].IsValidType() && FullKeyOf(st[idx]) == fk && !st[idx].header.constructed && st[idx].value.None?
       && CountTombstones(ex) + (if reusedTombstone then 1 else 0) == CountTombstones(ex0)
  }

  lemma InsertOutcome<V>(cap: nat, keyLengths: seq<nat>, hash: (nat, seq<bv32>) -> nat,
                         st0: seq<Kvp<V>>, ex0: seq<ExtraStorageInfo>, vc: nat, tc: nat,
                         where: map<FullKey, nat>, ex: seq<ExtraStorageInfo>, fk: FullKey, i: nat)
    requires InsertReady(cap, keyLengths, hash, st0, ex0, vc, tc, where, ex, fk, i)
    ensures var idx := ProbeIFrom(cap, HashIdx(cap, hash, fk), i);
            InsertedAt(cap, keyLengths, hash, st0, ex0,
                       InsertedStore(cap, keyLengths, hash, st0, ex0, vc, tc, where, ex, fk, i),
                       ex[idx := SetToProbesUsed(ex[idx], i)], fk, idx, ex0[idx].IsTombstone())
  {
    InsertPreservesInv(cap, keyLengths, hash, st0, ex0, vc, tc, where, ex, fk, i);
  }
}
