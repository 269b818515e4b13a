/** How delete_, decrement_upstream_probes_of, tombstone_to_null and the moves of
    attempt_clear_tombstones in engine/unordered_map.h change the two arrays,
    stated over snapshots, and the proofs that each keeps the table invariant. */
module ProbeTableDeletes {
  import opened KeyValuePairs
  import opened ProbeTables
  import opened ProbeTableUpdates

  // ---------------------------------------------------------------------------
  // decrement_upstream_probes_of

  /** The base of the probe chain of the entry at t. */
  function ChainBase(cap: nat, ex: seq<ExtraStorageInfo>, t: nat): nat
    requires cap > 0 && t < |ex| && ex[t].IsValidProbesUsed()
  {
    BaseFromProbeI(cap, t, ex[t].ProbesUsed())
  }

  /** One slot after the decrement loop has passed over it c times: its count is
      down by c, and if it was a tombstone whose count reached 0 on the way it is
      now null in both arrays; otherwise its state is as before. */
  ghost predicate DecrementedSlot<V>(k0: Kvp<V>, e0: ExtraStorageInfo, k: Kvp<V>, e: ExtraStorageInfo, c: nat)
  {
    e.passing + c == e0.passing
    && if e0.IsTombstone() && c > 0 && e.passing == 0
       then k0.IsTombstone() && k == TombstoneToNull(k0) && e == DEFAULT_EXTRA
       else k == k0 && e.flagOrProbesUsed == e0.flagOrProbesUsed
  }

  /** The arrays after the decrement loop ran over steps lo .. i-1 from base. */
  ghost predicate Decremented<V>(cap: nat, st0: seq<Kvp<V>>, ex0: seq<ExtraStorageInfo>,
                                 st: seq<Kvp<V>>, ex: seq<ExtraStorageInfo>, base: nat, lo: nat, i: nat)
  {
    0 < cap == |st0| == |ex0| == |st| == |ex| && lo <= i
    && forall s {:trigger Crossings(cap, base, lo, i, s)} :: 0 <= s < cap ==> DecrementedSlot(st0[s], ex0[s], st[s], ex[s], Crossings(cap, base, lo, i, s))
  }

  /** decrement_upstream_probes_of(t, lo) starts from a table that keeps the
      invariant, on a slot holding an entry, from a step within its chain. */
  ghost predicate DecrementOf<V>(cap: nat, keyLengths: seq<nat>, hash: (nat, seq<bv32>) -> nat,
                                 st0: seq<Kvp<V>>, ex0: seq<ExtraStorageInfo>, vc: nat, tc: nat,
                                 where: map<FullKey, nat>, t: nat, lo: nat)
  {
    Inv(cap, keyLengths, hash, st0, ex0, vc, tc, where)
    && t < cap && ex0[t].IsValidProbesUsed() && lo <= ex0[t].ProbesUsed()
  }

  /** No step of lo .. hi-1 lands on s. */
  lemma {:induction false} OffChain(cap: nat, base: nat, lo: nat, hi: nat, s: nat)
    requires cap > 0 && forall j :: lo <= j < hi ==> ProbeIFrom(cap, base, j) != s
    ensures Crossings(cap, base, lo, hi, s) == 0
    decreases hi
  {
    if hi > lo {
      OffChain(cap, base, lo, hi - 1, s);
    }
  }

  /** At every step of the loop the slot still has a chain passing through it
      (the source's `assert(probes_passing_through > 0)`), and it has not been
      changed yet. */
  lemma DecrementReady<V>(cap: nat, keyLengths: seq<nat>, hash: (nat, seq<bv32>) -> nat,
                          st0: seq<Kvp<V>>, ex0: seq<ExtraStorageInfo>, vc: nat, tc: nat,
                          where: map<FullKey, nat>, t: nat, lo: nat,
                          st: seq<Kvp<V>>, ex: seq<ExtraStorageInfo>, i: nat)
    requires DecrementOf(cap, keyLengths, hash, st0, ex0, vc, tc, where, t, lo)
    requires Decremented(cap, st0, ex0, st, ex, ChainBase(cap, ex0, t), lo, i) && i < ex0[t].ProbesUsed()
    ensures var idx := ProbeIFrom(cap, ChainBase(cap, ex0, t), i);
            ex[idx].passing > 0 && ex[idx].flagOrProbesUsed == ex0[idx].flagOrProbesUsed && st[idx] == st0[idx]
            && (ex[idx].IsTombstone() ==> st[idx].IsTombstone())
  {
    var n := ex0[t].ProbesUsed();
    var base := ChainBase(cap, ex0, t);
    var idx := ProbeIFrom(cap, base, i);
    CrossingsSplit(cap, base, 0, lo, n, idx);
    CrossingsSplit(cap, base, lo, i, n, idx);
    CrossingsHas(cap, base, i, n, i);
    ChainInHits(cap, ex0, t, idx);
    assert ex0[idx].passing == Hits(cap, ex0, idx);
    assert SlotInv(cap, keyLengths, hash, st0[idx], ex0[idx], idx);
    assert DecrementedSlot(st0[idx], ex0[idx], st[idx], ex[idx], Crossings(cap, base, lo, i, idx));
  }

  /** One step of the loop: decrement the slot of step i, and null it if it is a
      tombstone whose count reached 0. */
  lemma DecrementStep<V>(cap: nat, st0: seq<Kvp<V>>, ex0: seq<ExtraStorageInfo>,
                         st: seq<Kvp<V>>, ex: seq<ExtraStorageInfo>, base: nat, lo: nat, i: nat,
                         st': seq<Kvp<V>>, ex': seq<ExtraStorageInfo>)
    requires Decremented(cap, st0, ex0, st, ex, base, lo, i)
    requires var idx := ProbeIFrom(cap, base, i);
             ex[idx].passing > 0 && ex[idx].flagOrProbesUsed == ex0[idx].flagOrProbesUsed && st[idx] == st0[idx]
             && var e := ex[idx].(passing := ex[idx].passing - 1);
                if e.passing == 0 && e.IsTombstone()
                then st[idx].IsTombstone() && st' == st[idx := TombstoneToNull(st[idx])] && ex' == ex[idx := SetToNull(e)]
                else st' == st && ex' == ex[idx := e]
    ensures Decremented(cap, st0, ex0, st', ex', base, lo, i + 1)
  {
    var idx := ProbeIFrom(cap, base, i);
    forall s | 0 <= s < cap
      ensures DecrementedSlot(st0[s], ex0[s], st'[s], ex'[s], Crossings(cap, base, lo, i + 1, s))
    {
      assert Crossings(cap, base, lo, i + 1, s) == Crossings(cap, base, lo, i, s) + (if idx == s then 1 else 0);
      assert DecrementedSlot(st0[s], ex0[s], st[s], ex[s], Crossings(cap, base, lo, i, s));
    }
  }

  /** After the loop: the entry at t is untouched, the same slots hold entries
      with the same probe counts, and those entries are unchanged. */
  lemma DecrementedFacts<V>(cap: nat, keyLengths: seq<nat>, hash: (nat, seq<bv32>) -> nat,
                            st0: seq<Kvp<V>>, ex0: seq<ExtraStorageInfo>, vc: nat, tc: nat,
                            where: map<FullKey, nat>, t: nat, lo: nat,
                            st1: seq<Kvp<V>>, ex1: seq<ExtraStorageInfo>)
    requires DecrementOf(cap, keyLengths, hash, st0, ex0, vc, tc, where, t, lo)
    requires Decremented(cap, st0, ex0, st1, ex1, ChainBase(cap, ex0, t), lo, ex0[t].ProbesUsed())
    ensures st1[t] == st0[t] && ex1[t] == ex0[t] && Consistent(st1[t])
    ensures SameChains(ex0, ex1, -1)
    ensures forall s :: 0 <= s < cap && ex0[s].IsValidProbesUsed() ==> st1[s] == st0[s]
  {
    var n := ex0[t].ProbesUsed();
    var base := ChainBase(cap, ex0, t);
    assert SlotInv(cap, keyLengths, hash, st0[t], ex0[t], t);
    OffChain(cap, base, lo, n, t);
    assert DecrementedSlot(st0[t], ex0[t], st1[t], ex1[t], Crossings(cap, base, lo, n, t));
    forall u | 0 <= u < cap
      ensures ex1[u].IsValidProbesUsed() == ex0[u].IsValidProbesUsed()
      ensures ex0[u].IsValidProbesUsed() ==> ex1[u].ProbesUsed() == ex0[u].ProbesUsed() && st1[u] == st0[u]
    {
      assert DecrementedSlot(st0[u], ex0[u], st1[u], ex1[u], Crossings(cap, base, lo, n, u));
    }
  }

  /** A slot the loop passed over keeps its part of the invariant. */
  lemma DecrementedSlotInv<V>(cap: nat, keyLengths: seq<nat>, hash: (nat, seq<bv32>) -> nat,
                              k0: Kvp<V>, e0: ExtraStorageInfo, k: Kvp<V>, e: ExtraStorageInfo, c: nat, s: nat)
    requires cap > 0 && SlotInv(cap, keyLengths, hash, k0, e0, s) && DecrementedSlot(k0, e0, k, e, c)
    ensures SlotInv(cap, keyLengths, hash, k, e, s)
  {
    if e0.IsTombstone() && c > 0 && e.passing == 0 {
      assert k.IsNull() && e.IsNull();
    } else {
      assert Placed(cap, keyLengths, hash, k, e, s) == Placed(cap, keyLengths, hash, k0, e0, s);
    }
  }

  // ---------------------------------------------------------------------------
  // Retiring a slot: destruct_to_tombstone, set_to_tombstone, and tombstone_to_null
  // when no chain passes through

  function RetiredStore<V>(st: seq<Kvp<V>>, ex: seq<ExtraStorageInfo>, t: nat): seq<Kvp<V>>
    requires t < |st| == |ex|
  {
    var k := DestructToTombstone(st[t]);
    if ex[t].passing == 0 then st[t := TombstoneToNull(k)] else st[t := k]
  }

  function RetiredExtra(ex: seq<ExtraStorageInfo>, t: nat): seq<ExtraStorageInfo>
    requires t < |ex|
  {
    var e := SetToTombstone(ex[t]);
    if ex[t].passing == 0 then ex[t := SetToNull(e)] else ex[t := e]
  }

  /** A retired slot is a tombstone with chains through it, or null with none. */
  lemma RetiredSlotInv<V>(cap: nat, keyLengths: seq<nat>, hash: (nat, seq<bv32>) -> nat,
                          st: seq<Kvp<V>>, ex: seq<ExtraStorageInfo>, t: nat)
    requires 0 < cap && t < |st| == |ex| && Consistent(st[t])
    ensures SlotInv(cap, keyLengths, hash, RetiredStore(st, ex, t)[t], RetiredExtra(ex, t)[t], t)
    ensures !RetiredExtra(ex, t)[t].IsValidProbesUsed() && RetiredExtra(ex, t)[t].passing == ex[t].passing
    ensures RetiredExtra(ex, t)[t].IsTombstone() <==> ex[t].passing > 0
  {
  }

  /** Retiring t changes the counts by t's old state and its new one. */
  lemma RetiredCounts(ex: seq<ExtraStorageInfo>, t: nat)
    requires t < |ex| && ex[t].IsValidProbesUsed()
    ensures CountValid(RetiredExtra(ex, t)) + 1 == CountValid(ex)
    ensures CountTombstones(RetiredExtra(ex, t)) == CountTombstones(ex) + (if ex[t].passing > 0 then 1 else 0)
    ensures CountTombstones(ex[t := SetToTombstone(ex[t])]) == CountTombstones(ex) + 1
  {
    CountUpdate(ex, t, RetiredExtra(ex, t)[t]);
    CountUpdate(ex, t, SetToTombstone(ex[t]));
  }

  // ---------------------------------------------------------------------------
  // delete_

  /** delete_ found the key at t and decremented its whole chain. */
  ghost predicate DeleteReady<V>(cap: nat, keyLengths: seq<nat>, hash: (nat, seq<bv32>) -> nat,
                                 st0: seq<Kvp<V>>, ex0: seq<ExtraStorageInfo>, vc: nat, tc: nat,
                                 where: map<FullKey, nat>, fk: FullKey,
                                 st1: seq<Kvp<V>>, ex1: seq<ExtraStorageInfo>, tc1: nat)
  {
    fk in where && DecrementOf(cap, keyLengths, hash, st0, ex0, vc, tc, where, where[fk], 0)
    && Decremented(cap, st0, ex0, st1, ex1, ChainBase(cap, ex0, where[fk]), 0, ex0[where[fk]].ProbesUsed())
    && tc1 + CountTombstones(ex0) == tc + CountTombstones(ex1)
  }

  lemma DeleteAccounted<V>(cap: nat, keyLengths: seq<nat>, hash: (nat, seq<bv32>) -> nat,
                           st0: seq<Kvp<V>>, ex0: seq<ExtraStorageInfo>, vc: nat, tc: nat,
                           where: map<FullKey, nat>, fk: FullKey,
                           st1: seq<Kvp<V>>, ex1: seq<ExtraStorageInfo>, tc1: nat)
    requires DeleteReady(cap, keyLengths, hash, st0, ex0, vc, tc, where, fk, st1, ex1, tc1)
    ensures Accounted(cap, RetiredExtra(ex1, where[fk]))
  {
    var t := where[fk];
    var n := ex0[t].ProbesUsed();
    var base := ChainBase(cap, ex0, t);
    DecrementedFacts(cap, keyLengths, hash, st0, ex0, vc, tc, where, t, 0, st1, ex1);
    var ex3 := RetiredExtra(ex1, t);
    assert SameChains(ex0, ex3, t);
    forall s | 0 <= s < cap
      ensures ex3[s].passing == Hits(cap, ex3, s)
    {
      HitsUpdate(cap, ex0, ex3, t, cap, s);
      assert ex0[s].passing == Hits(cap, ex0, s);
      assert DecrementedSlot(st0[s], ex0[s], st1[s], ex1[s], Crossings(cap, base, 0, n, s));
    }
  }

  lemma DeleteSlots<V>(cap: nat, keyLengths: seq<nat>, hash: (nat, seq<bv32>) -> nat,
                       st0: seq<Kvp<V>>, ex0: seq<ExtraStorageInfo>, vc: nat, tc: nat,
                       where: map<FullKey, nat>, fk: FullKey,
                       st1: seq<Kvp<V>>, ex1: seq<ExtraStorageInfo>, tc1: nat)
    requires DeleteReady(cap, keyLengths, hash, st0, ex0, vc, tc, where, fk, st1, ex1, tc1)
    ensures var t := where[fk];
            var st3, ex3 := RetiredStore(st1, ex1, t), RetiredExtra(ex1, t);
            forall s {:trigger SlotInv(cap, keyLengths, hash, st3[s], ex3[s], s)} :: 0 <= s < cap ==> SlotInv(cap, keyLengths, hash, st3[s], ex3[s], s)
  {
    var t := where[fk];
    var n := ex0[t].ProbesUsed();
    var base := ChainBase(cap, ex0, t);
    DecrementedFacts(cap, keyLengths, hash, st0, ex0, vc, tc, where, t, 0, st1, ex1);
    var st3, ex3 := RetiredStore(st1, ex1, t), RetiredExtra(ex1, t);
    forall s | 0 <= s < cap
      ensures SlotInv(cap, keyLengths, hash, st3[s], ex3[s], s)
    {
      assert SlotInv(cap, keyLengths, hash, st0[s], ex0[s], s);
      if s == t {
        RetiredSlotInv(cap, keyLengths, hash, st1, ex1, t);
      } else {
        DecrementedSlotInv(cap, keyLengths, hash, st0[s], ex0[s], st1[s], ex1[s], Crossings(cap, base, 0, n, s), s);
      }
    }
  }

  lemma DeleteCounts<V>(cap: nat, keyLengths: seq<nat>, hash: (nat, seq<bv32>) -> nat,
                        st0: seq<Kvp<V>>, ex0: seq<ExtraStorageInfo>, vc: nat, tc: nat,
                        where: map<FullKey, nat>, fk: FullKey,
                        st1: seq<Kvp<V>>, ex1: seq<ExtraStorageInfo>, tc1: nat)
    requires DeleteReady(cap, keyLengths, hash, st0, ex0, vc, tc, where, fk, st1, ex1, tc1)
    ensures vc >= 1
    ensures var t := where[fk];
            var ex3 := RetiredExtra(ex1, t);
            CountValid(ex3) == vc - 1
            && CountTombstones(ex3) == CountTombstones(ex1) + (if ex1[t].passing > 0 then 1 else 0)
            && CountTombstones(ex1[t := SetToTombstone(ex1[t])]) == CountTombstones(ex1) + 1
  {
    var t := where[fk];
    DecrementedFacts(cap, keyLengths, hash, st0, ex0, vc, tc, where, t, 0, st1, ex1);
    CountValidOfSameChains(ex0, ex1);
    RetiredCounts(ex1, t);
  }

  lemma DeleteWhere<V>(cap: nat, keyLengths: seq<nat>, hash: (nat, seq<bv32>) -> nat,
                       st0: seq<Kvp<V>>, ex0: seq<ExtraStorageInfo>, vc: nat, tc: nat,
                       where: map<FullKey, nat>, fk: FullKey,
                       st1: seq<Kvp<V>>, ex1: seq<ExtraStorageInfo>, tc1: nat)
    requires DeleteReady(cap, keyLengths, hash, st0, ex0, vc, tc, where, fk, st1, ex1, tc1)
    ensures var t := where[fk];
            var st3, ex3 := RetiredStore(st1, ex1, t), RetiredExtra(ex1, t);
            WhereInv(cap, st3, ex3, where - {fk})
            && forall k :: k in where && k != fk ==> st3[where[k]] == st0[where[k]]
  {
    var t := where[fk];
    DecrementedFacts(cap, keyLengths, hash, st0, ex0, vc, tc, where, t, 0, st1, ex1);
    var st3, ex3 := RetiredStore(st1, ex1, t), RetiredExtra(ex1, t);
    var where' := where - {fk};
    forall k | k in where'
      ensures where'[k] < cap && ex3[where'[k]].IsValidProbesUsed() && FullKeyOf(st3[where'[k]]) == k
      ensures st3[where'[k]] == st0[where[k]]
    {
      assert where[k] != t;
    }
    forall s | 0 <= s < cap && ex3[s].IsValidProbesUsed()
      ensures FullKeyOf(st3[s]) in where' && where'[FullKeyOf(st3[s])] == s
    {
      assert s != t;
      assert FullKeyOf(st0[s]) in where;
    }
  }

  /** Removing a key from `where` whose other slots kept their pairs removes just
      that key from the contents. */
  lemma ContentsWithout<V>(cap: nat, st0: seq<Kvp<V>>, st: seq<Kvp<V>>, where: map<FullKey, nat>, fk: FullKey)
    requires |st0| == |st| == cap
    requires forall k :: k in where && k != fk ==> where[k] < cap && st[where[k]] == st0[where[k]]
    ensures Contents(cap, st, where - {fk}) == Contents(cap, st0, where) - {fk}
  {
    assert Contents(cap, st, where - {fk}).Keys == (Contents(cap, st0, where) - {fk}).Keys;
  }

  /** delete_ keeps the invariant, with the key gone from `where`, one entry
      fewer, and tombstone_count as far above the tombstones as it was. */
  lemma DeleteKeepsInv<V>(cap: nat, keyLengths: seq<nat>, hash: (nat, seq<bv32>) -> nat,
                          st0: seq<Kvp<V>>, ex0: seq<ExtraStorageInfo>, vc: nat, tc: nat,
                          where: map<FullKey, nat>, fk: FullKey,
                          st1: seq<Kvp<V>>, ex1: seq<ExtraStorageInfo>, tc1: nat)
    requires DeleteReady(cap, keyLengths, hash, st0, ex0, vc, tc, where, fk, st1, ex1, tc1)
    ensures vc >= 1 && Consistent(st1[where[fk]])
    ensures var t := where[fk];
            tc1 + 1 >= CountTombstones(ex1[t := SetToTombstone(ex1[t])])
    ensures var t := where[fk];
            var st3, ex3 := RetiredStore(st1, ex1, t), RetiredExtra(ex1, t);
            var tc3 := if ex1[t].passing == 0 then tc1 else tc1 + 1;
            Inv(cap, keyLengths, hash, st3, ex3, vc - 1, tc3, where - {fk})
            && tc3 + CountTombstones(ex0) == tc + CountTombstones(ex3)
            && Contents(cap, st3, where - {fk}) == Contents(cap, st0, where) - {fk}
  {
    DecrementedFacts(cap, keyLengths, hash, st0, ex0, vc, tc, where, where[fk], 0, st1, ex1);
    DeleteAccounted(cap, keyLengths, hash, st0, ex0, vc, tc, where, fk, st1, ex1, tc1);
    DeleteSlots(cap, keyLengths, hash, st0, ex0, vc, tc, where, fk, st1, ex1, tc1);
    DeleteCounts(cap, keyLengths, hash, st0, ex0, vc, tc, where, fk, st1, ex1, tc1);
    DeleteWhere(cap, keyLengths, hash, st0, ex0, vc, tc, where, fk, st1, ex1, tc1);
    ContentsWithout(cap, st0, RetiredStore(st1, ex1, where[fk]), where, fk);
  }

  // ---------------------------------------------------------------------------
  // The move of attempt_clear_tombstones

  /** attempt_clear_tombstones is about to move the entry at t, which keeps the
      invariant, into the slot of step i of its chain: the first tombstone among
      its steps. */
  ghost predicate MoveReady<V>(cap: nat, keyLengths: seq<nat>, hash: (nat, seq<bv32>) -> nat,
                               st0: seq<Kvp<V>>, ex0: seq<ExtraStorageInfo>, vc: nat, tc: nat,
                               where: map<FullKey, nat>, t: nat, i: nat)
  {
    DecrementOf(cap, keyLengths, hash, st0, ex0, vc, tc, where, t, i) && i < ex0[t].ProbesUsed() && i < MAX_PROBING
    && ex0[ProbeIFrom(cap, ChainBase(cap, ex0, t), i)].IsTombstone()
    && forall j :: 0 <= j < i ==> !ex0[ProbeIFrom(cap, ChainBase(cap, ex0, t), j)].IsTombstone()
  }

  /** ... and has decremented the chain's steps i .. probes_used-1. */
  ghost predicate MoveDecremented<V>(cap: nat, keyLengths: seq<nat>, hash: (nat, seq<bv32>) -> nat,
                                     st0: seq<Kvp<V>>, ex0: seq<ExtraStorageInfo>, vc: nat, tc: nat,
                                     where: map<FullKey, nat>, t: nat, i: nat,
                                     st1: seq<Kvp<V>>, ex1: seq<ExtraStorageInfo>, tc1: nat)
  {
    MoveReady(cap, keyLengths, hash, st0, ex0, vc, tc, where, t, i)
    && Decremented(cap, st0, ex0, st1, ex1, ChainBase(cap, ex0, t), i, ex0[t].ProbesUsed())
    && tc1 + CountTombstones(ex0) == tc + CountTombstones(ex1)
  }

  /** The extra_storage_info after the move, before the old slot is retired. */
  function MovedExtra(ex1: seq<ExtraStorageInfo>, nw: nat, i: nat): seq<ExtraStorageInfo>
    requires nw < |ex1| && i < MAX_PROBING
  {
    ex1[nw := SetToProbesUsed(ex1[nw], i)]
  }

  /** The target slot differs from the entry's own slot (the source's
      `assert(new_idx != idx)`), can take the entry, and the entry's slot and
      its chain base are untouched by the decrement. */
  lemma MoveTarget<V>(cap: nat, keyLengths: seq<nat>, hash: (nat, seq<bv32>) -> nat,
                      st0: seq<Kvp<V>>, ex0: seq<ExtraStorageInfo>, vc: nat, tc: nat,
                      where: map<FullKey, nat>, t: nat, i: nat,
                      st1: seq<Kvp<V>>, ex1: seq<ExtraStorageInfo>, tc1: nat)
    requires MoveDecremented(cap, keyLengths, hash, st0, ex0, vc, tc, where, t, i, st1, ex1, tc1)
    ensures var nw := ProbeIFrom(cap, ChainBase(cap, ex0, t), i);
            nw != t && i < MAX_PROBING && !ex1[nw].IsValidProbesUsed() && !st1[nw].IsValidType()
            && st1[t] == st0[t] && ex1[t] == ex0[t] && st0[t].IsValidType()
            && ChainBase(cap, ex0, t) == HashIdx(cap, hash, FullKeyOf(st0[t]))
  {
    var n := ex0[t].ProbesUsed();
    var base := ChainBase(cap, ex0, t);
    var nw := ProbeIFrom(cap, base, i);
    assert SlotInv(cap, keyLengths, hash, st0[t], ex0[t], t);
    assert SlotInv(cap, keyLengths, hash, st0[nw], ex0[nw], nw);
    DecrementedFacts(cap, keyLengths, hash, st0, ex0, vc, tc, where, t, i, st1, ex1);
    assert DecrementedSlot(st0[nw], ex0[nw], st1[nw], ex1[nw], Crossings(cap, base, i, n, nw));
  }

  lemma MoveCounts<V>(cap: nat, keyLengths: seq<nat>, hash: (nat, seq<bv32>) -> nat,
                      st0: seq<Kvp<V>>, ex0: seq<ExtraStorageInfo>, vc: nat, tc: nat,
                      where: map<FullKey, nat>, t: nat, i: nat,
                      st1: seq<Kvp<V>>, ex1: seq<ExtraStorageInfo>, tc1: nat)
    requires MoveDecremented(cap, keyLengths, hash, st0, ex0, vc, tc, where, t, i, st1, ex1, tc1)
    ensures var nw := ProbeIFrom(cap, ChainBase(cap, ex0, t), i);
            var tc2 := if ex1[nw].IsNull() then tc1 + 1 else tc1;
            var ex2 := MovedExtra(ex1, nw, i);
            var ex3 := RetiredExtra(ex2, t);
            tc2 >= CountTombstones(ex2[t := SetToTombstone(ex2[t])]) && tc2 >= 1
            && CountValid(ex3) == vc
            && (if ex2[t].passing == 0 then tc2 - 1 else tc2) + CountTombstones(ex0) == tc + CountTombstones(ex3)
  {
    var nw := ProbeIFrom(cap, ChainBase(cap, ex0, t), i);
    MoveTarget(cap, keyLengths, hash, st0, ex0, vc, tc, where, t, i, st1, ex1, tc1);
    DecrementedFacts(cap, keyLengths, hash, st0, ex0, vc, tc, where, t, i, st1, ex1);
    CountValidOfSameChains(ex0, ex1);
    var ex2 := MovedExtra(ex1, nw, i);
    CountUpdate(ex1, nw, ex2[nw]);
    RetiredCounts(ex2, t);
    TombstoneCounted(ex2[t := SetToTombstone(ex2[t])], t);
  }

  lemma MoveAccounted<V>(cap: nat, keyLengths: seq<nat>, hash: (nat, seq<bv32>) -> nat,
                         st0: seq<Kvp<V>>, ex0: seq<ExtraStorageInfo>, vc: nat, tc: nat,
                         where: map<FullKey, nat>, t: nat, i: nat,
                         st1: seq<Kvp<V>>, ex1: seq<ExtraStorageInfo>, tc1: nat)
    requires MoveDecremented(cap, keyLengths, hash, st0, ex0, vc, tc, where, t, i, st1, ex1, tc1)
    ensures var nw := ProbeIFrom(cap, ChainBase(cap, ex0, t), i);
            Accounted(cap, RetiredExtra(MovedExtra(ex1, nw, i), t))
  {
    var n := ex0[t].ProbesUsed();
    var base := ChainBase(cap, ex0, t);
    var nw := ProbeIFrom(cap, base, i);
    MoveTarget(cap, keyLengths, hash, st0, ex0, vc, tc, where, t, i, st1, ex1, tc1);
    DecrementedFacts(cap, keyLengths, hash, st0, ex0, vc, tc, where, t, i, st1, ex1);
    BaseOfProbe(cap, base, i);
    var ex3 := RetiredExtra(MovedExtra(ex1, nw, i), t);
    var exA := ex0[nw := ex3[nw]];
    assert SameChains(ex0, exA, nw);
    assert SameChains(exA, ex3, t);
    forall s | 0 <= s < cap
      ensures ex3[s].passing == Hits(cap, ex3, s)
    {
      HitsUpdate(cap, ex0, exA, nw, cap, s);
      HitsUpdate(cap, exA, ex3, t, cap, s);
      CrossingsSplit(cap, base, 0, i, n, s);
      assert ex0[s].passing == Hits(cap, ex0, s);
      assert DecrementedSlot(st0[s], ex0[s], st1[s], ex1[s], Crossings(cap, base, i, n, s));
    }
  }

  lemma MoveSlots<V>(cap: nat, keyLengths: seq<nat>, hash: (nat, seq<bv32>) -> nat,
                     st0: seq<Kvp<V>>, ex0: seq<ExtraStorageInfo>, vc: nat, tc: nat,
                     where: map<FullKey, nat>, t: nat, i: nat,
                     st1: seq<Kvp<V>>, ex1: seq<ExtraStorageInfo>, tc1: nat)
    requires MoveDecremented(cap, keyLengths, hash, st0, ex0, vc, tc, where, t, i, st1, ex1, tc1)
    ensures var nw := ProbeIFrom(cap, ChainBase(cap, ex0, t), i);
            var ex2 := MovedExtra(ex1, nw, i);
            var st3, ex3 := RetiredStore(st1[nw := st1[t]], ex2, t), RetiredExtra(ex2, t);
            forall s {:trigger SlotInv(cap, keyLengths, hash, st3[s], ex3[s], s)} :: 0 <= s < cap ==> SlotInv(cap, keyLengths, hash, st3[s], ex3[s], s)
  {
    var n := ex0[t].ProbesUsed();
    var base := ChainBase(cap, ex0, t);
    var nw := ProbeIFrom(cap, base, i);
    MoveTarget(cap, keyLengths, hash, st0, ex0, vc, tc, where, t, i, st1, ex1, tc1);
    BaseOfProbe(cap, base, i);
    var ex2 := MovedExtra(ex1, nw, i);
    var st2 := st1[nw := st1[t]];
    var st3, ex3 := RetiredStore(st2, ex2, t), RetiredExtra(ex2, t);
    assert SlotInv(cap, keyLengths, hash, st0[t], ex0[t], t);
    forall s | 0 <= s < cap
      ensures SlotInv(cap, keyLengths, hash, st3[s], ex3[s], s)
    {
      assert SlotInv(cap, keyLengths, hash, st0[s], ex0[s], s);
      if s == t {
        RetiredSlotInv(cap, keyLengths, hash, st2, ex2, t);
      } else if s == nw {
        assert st3[s] == st0[t] && ex3[s] == ex2[nw];
        assert forall j :: 0 <= j < i ==> ProbeIFrom(cap, base, j) != nw;
      } else {
        DecrementedSlotInv(cap, keyLengths, hash, st0[s], ex0[s], st1[s], ex1[s], Crossings(cap, base, i, n, s), s);
      }
    }
  }

  lemma MoveWhere<V>(cap: nat, keyLengths: seq<nat>, hash: (nat, seq<bv32>) -> nat,
                     st0: seq<Kvp<V>>, ex0: seq<ExtraStorageInfo>, vc: nat, tc: nat,
                     where: map<FullKey, nat>, t: nat, i: nat,
                     st1: seq<Kvp<V>>, ex1: seq<ExtraStorageInfo>, tc1: nat)
    requires MoveDecremented(cap, keyLengths, hash, st0, ex0, vc, tc, where, t, i, st1, ex1, tc1)
    ensures var nw := ProbeIFrom(cap, ChainBase(cap, ex0, t), i);
            var ex2 := MovedExtra(ex1, nw, i);
            var st3, ex3 := RetiredStore(st1[nw := st1[t]], ex2, t), RetiredExtra(ex2, t);
            var fk := FullKeyOf(st0[t]);
            fk in where && where[fk] == t
            && WhereInv(cap, st3, ex3, where[fk := nw])
            && Contents(cap, st3, where[fk := nw]) == Contents(cap, st0, where)
  {
    var base := ChainBase(cap, ex0, t);
    var nw := ProbeIFrom(cap, base, i);
    MoveTarget(cap, keyLengths, hash, st0, ex0, vc, tc, where, t, i, st1, ex1, tc1);
    DecrementedFacts(cap, keyLengths, hash, st0, ex0, vc, tc, where, t, i, st1, ex1);
    var ex2 := MovedExtra(ex1, nw, i);
    var st3, ex3 := RetiredStore(st1[nw := st1[t]], ex2, t), RetiredExtra(ex2, t);
    RelocatedSlots(cap, st0, ex0, st1, ex1, t, nw, i);
    RelocatedWhere(cap, st0, ex0, where, t, nw, st3, ex3);
  }

  /** Slot by slot, the move then the retirement: nw takes the entry of t, t
      holds none, and every other slot is as after the decrement. */
  lemma RelocatedSlots<V>(cap: nat, st0: seq<Kvp<V>>, ex0: seq<ExtraStorageInfo>,
                          st1: seq<Kvp<V>>, ex1: seq<ExtraStorageInfo>, t: nat, nw: nat, i: nat)
    requires |st0| == |ex0| == cap && |st1| == |ex1| == cap && t < cap && nw < cap && t != nw && i < MAX_PROBING
    requires SameChains(ex0, ex1, -1) && st1[t] == st0[t] && Consistent(st1[t])
    requires forall s :: 0 <= s < cap && ex0[s].IsValidProbesUsed() ==> st1[s] == st0[s]
    ensures var ex2 := MovedExtra(ex1, nw, i);
            var st3, ex3 := RetiredStore(st1[nw := st1[t]], ex2, t), RetiredExtra(ex2, t);
            |st3| == |ex3| == cap
            && st3[nw] == st0[t] && ex3[nw].IsValidProbesUsed() && !ex3[t].IsValidProbesUsed()
            && forall s :: 0 <= s < cap && s != t && s != nw ==>
                 ex3[s].IsValidProbesUsed() == ex0[s].IsValidProbesUsed()
                 && (ex0[s].IsValidProbesUsed() ==> st3[s] == st0[s])
  {
    var ex2 := MovedExtra(ex1, nw, i);
    RetiredSlotInv(cap, [], (p: nat, k: seq<bv32>) => 0, st1[nw := st1[t]], ex2, t);
  }

  /** The key map after moving the entry at t to nw: only the moved key's slot
      changes, and every key keeps its pair. */
  lemma RelocatedWhere<V>(cap: nat, st0: seq<Kvp<V>>, ex0: seq<ExtraStorageInfo>, where: map<FullKey, nat>,
                          t: nat, nw: nat, st3: seq<Kvp<V>>, ex3: seq<ExtraStorageInfo>)
    requires |st0| == |ex0| == cap && |st3| == |ex3| == cap && t < cap && nw < cap && t != nw
    requires WhereInv(cap, st0, ex0, where) && ex0[t].IsValidProbesUsed() && !ex0[nw].IsValidProbesUsed()
    requires st3[nw] == st0[t] && ex3[nw].IsValidProbesUsed() && !ex3[t].IsValidProbesUsed()
    requires forall s :: 0 <= s < cap && s != t && s != nw ==>
               ex3[s].IsValidProbesUsed() == ex0[s].IsValidProbesUsed()
               && (ex0[s].IsValidProbesUsed() ==> st3[s] == st0[s])
    ensures var fk := FullKeyOf(st0[t]);
            fk in where && where[fk] == t
            && WhereInv(cap, st3, ex3, where[fk := nw])
            && Contents(cap, st3, where[fk := nw]) == Contents(cap, st0, where)
  {
    var fk := FullKeyOf(st0[t]);
    var where' := where[fk := nw];
    forall k | k in where'
      ensures where'[k] < cap && ex3[where'[k]].IsValidProbesUsed() && FullKeyOf(st3[where'[k]]) == k
      ensures st3[where'[k]] == st0[where[k]]
    {
      if k != fk {
        assert where[k] != t && where[k] != nw;
      }
    }
    forall s | 0 <= s < cap && ex3[s].IsValidProbesUsed()
      ensures FullKeyOf(st3[s]) in where' && where'[FullKeyOf(st3[s])] == s
    {
      if s != nw {
        assert s != t;
        assert FullKeyOf(st0[s]) in where;
      }
    }
    assert Contents(cap, st3, where').Keys == Contents(cap, st0, where).Keys;
  }

  /** A move keeps the invariant, the number of entries, tombstone_count's
      distance above the tombstones, and every key's pair: the key now sits at
      step i of its chain. */
  lemma MoveKeepsInv<V>(cap: nat, keyLengths: seq<nat>, hash: (nat, seq<bv32>) -> nat,
                        st0: seq<Kvp<V>>, ex0: seq<ExtraStorageInfo>, vc: nat, tc: nat,
                        where: map<FullKey, nat>, t: nat, i: nat,
                        st1: seq<Kvp<V>>, ex1: seq<ExtraStorageInfo>, tc1: nat)
    requires MoveDecremented(cap, keyLengths, hash, st0, ex0, vc, tc, where, t, i, st1, ex1, tc1)
    ensures var nw := ProbeIFrom(cap, ChainBase(cap, ex0, t), i);
            nw != t && i < MAX_PROBING && !st1[nw].IsValidType() && st1[t] == st0[t]
    ensures var nw := ProbeIFrom(cap, ChainBase(cap, ex0, t), i);
            var tc2 := if ex1[nw].IsNull() then tc1 + 1 else tc1;
            var ex2 := MovedExtra(ex1, nw, i);
            tc2 >= CountTombstones(ex2[t := SetToTombstone(ex2[t])]) && tc2 >= 1
    ensures var nw := ProbeIFrom(cap, ChainBase(cap, ex0, t), i);
            var tc2 := if ex1[nw].IsNull() then tc1 + 1 else tc1;
            var ex2 := MovedExtra(ex1, nw, i);
            var st3, ex3 := RetiredStore(st1[nw := st1[t]], ex2, t), RetiredExtra(ex2, t);
            var tc3 := if ex2[t].passing == 0 then tc2 - 1 else tc2;
            var fk := FullKeyOf(st0[t]);
            fk in where && where[fk] == t
            && Inv(cap, keyLengths, hash, st3, ex3, vc, tc3, where[fk := nw])
            && tc3 + CountTombstones(ex0) == tc + CountTombstones(ex3)
            && Contents(cap, st3, where[fk := nw]) == Contents(cap, st0, where)
  {
    MoveTarget(cap, keyLengths, hash, st0, ex0, vc, tc, where, t, i, st1, ex1, tc1);
    MoveCounts(cap, keyLengths, hash, st0, ex0, vc, tc, where, t, i, st1, ex1, tc1);
    MoveAccounted(cap, keyLengths, hash, st0, ex0, vc, tc, where, t, i, st1, ex1, tc1);
    MoveSlots(cap, keyLengths, hash, st0, ex0, vc, tc, where, t, i, st1, ex1, tc1);
    MoveWhere(cap, keyLengths, hash, st0, ex0, vc, tc, where, t, i, st1, ex1, tc1);
  }
}
