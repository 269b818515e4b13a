/** The Engine of engine/engine.h (and its older copy in compiler/engine.h), and
    the KeyRef handle of engine/engine_refs.h: a table of key-value pairs plus a
    per-slot count of the user-side handles on each pair. A handle adds one to
    its pair's count when made or copied and takes one off when dropped; on
    engine/engine.h the pair is deleted when its count reaches zero. */
module Engines {
  import opened Wrappers
  import Utils
  import Murmur3
  import opened KeyValuePairs
  import opened ProbeTables
  import opened UnorderedMaps

  /** invalid_id: id_t is uint32_t and the id is -1. */
  const INVALID_ID: bv32 := 0xFFFF_FFFF

  // ---------------------------------------------------------------------------
  // The counters are std::atomic<size_t>

  /** `++count` on a size_t. */
  function Incremented(c: nat): (r: nat)
    requires c < SIZE_T_MOD
    ensures r < SIZE_T_MOD
  {
    if c + 1 == SIZE_T_MOD then 0 else c + 1
  }

  /** `--count` on a size_t: the new value, which is also what the expression
      yields. */
  function PreDecremented(c: nat): (r: nat)
    requires c < SIZE_T_MOD
    ensures r < SIZE_T_MOD
  {
    if c == 0 then SIZE_T_MOD - 1 else c - 1
  }

  /** `count--` on a size_t: the new value, and the value the expression yields
      (the old one). */
  function PostDecremented(c: nat): (r: (nat, nat))
    requires c < SIZE_T_MOD
    ensures r.0 < SIZE_T_MOD
  {
    (if c == 0 then SIZE_T_MOD - 1 else c - 1, c)
  }

  /** A decrement undoes an increment, and the other way round. */
  lemma CountersCancel(c: nat)
    requires c < SIZE_T_MOD
    ensures PreDecremented(Incremented(c)) == c && Incremented(PreDecremented(c)) == c
  {
  }

  /** engine/engine.h tests the pre-decremented value: the pair is deleted exactly
      when its last handle goes. */
  lemma PreDecrementSeesLastRelease(c: nat)
    requires c < SIZE_T_MOD
    ensures PreDecremented(c) == 0 <==> c == 1
  {
  }

  /** compiler/engine.h tests the post-decremented value, which is the count before
      the decrement: it is 0 only when the counter underflows, and releasing the
      last handle (count 1) does not pass the test. */
  lemma PostDecrementSeesOnlyUnderflow(c: nat)
    requires c < SIZE_T_MOD
    ensures PostDecremented(c).1 == 0 <==> PostDecremented(c).0 == SIZE_T_MOD - 1
    ensures PostDecremented(1).0 == 0 && PostDecremented(1).1 != 0
  {
  }

  /** Deleting key fk leaves every other stored pair where it was: a slot that
      stops holding a pair is fk's. */
  lemma DeleteLeavesOthers<V>(cap: nat, keyLengths: seq<nat>, hash: (nat, seq<bv32>) -> nat,
                              st0: seq<Kvp<V>>, ex0: seq<ExtraStorageInfo>, vc0: nat, tc0: nat,
                              where0: map<FullKey, nat>,
                              st1: seq<Kvp<V>>, ex1: seq<ExtraStorageInfo>, vc1: nat, tc1: nat,
                              fk: FullKey)
    requires Inv(cap, keyLengths, hash, st0, ex0, vc0, tc0, where0)
    requires Inv(cap, keyLengths, hash, st1, ex1, vc1, tc1, where0 - {fk})
    requires fk in where0
    ensures forall s :: 0 <= s < cap && st0[s].IsValidType() && s != where0[fk] ==> st1[s].IsValidType()
  {
    SlotOfKey(cap, keyLengths, hash, st0, ex0, vc0, tc0, where0);
    SlotOfKey(cap, keyLengths, hash, st1, ex1, vc1, tc1, where0 - {fk});
    forall s | 0 <= s < cap && st0[s].IsValidType() && s != where0[fk]
      ensures st1[s].IsValidType()
    {
      var k := FullKeyOf(st0[s]);
      assert k in where0 - {fk};
    }
  }

  /** The per-slot counts fit a size_t, and a slot without a pair has count 0. */
  ghost predicate CountsFit<V>(counts: seq<nat>, st: seq<Kvp<V>>)
  {
    |counts| == |st|
    && (forall s :: 0 <= s < |counts| ==> counts[s] < SIZE_T_MOD)
    && (forall s :: 0 <= s < |counts| && !st[s].IsValidType() ==> counts[s] == 0)
  }

  /** Setting the count of a slot that holds a pair keeps the counts fitting. */
  lemma CountsSet<V>(counts: seq<nat>, st: seq<Kvp<V>>, idx: nat, c: nat)
    requires CountsFit(counts, st) && idx < |counts| && st[idx].IsValidType() && c < SIZE_T_MOD
    ensures CountsFit(counts[idx := c], st)
  {
  }

  /** Counts stay fitting when every slot that held a pair still holds one, except
      a slot whose count is 0. */
  lemma CountsKeep<V>(counts: seq<nat>, st0: seq<Kvp<V>>, st1: seq<Kvp<V>>, idx: nat)
    requires CountsFit(counts, st0) && |st1| == |st0| && idx < |counts| && counts[idx] == 0
    requires forall s :: 0 <= s < |st0| && s != idx && st0[s].IsValidType() ==> st1[s].IsValidType()
    ensures CountsFit(counts, st1)
  {
  }

  class Engine<V> {
    /** store: the table of key-value pairs. */
    const table: UnorderedMap<V>
    /** user_ref_count, indexed like the table's slots. */
    const userRefCount: array<nat>
    /** next_id_for_type, indexed by key prefix (type id). */
    var nextIdForType: seq<bv32>

    /** The counters fit a size_t, and a slot without a pair has count 0, so a
        pair placed in it starts from 0. */
    ghost predicate Valid()
      reads table, table.store, table.extra, userRefCount
    {
      table.Valid() && CountsFit(userRefCount[..], table.store[..])
    }

    /** The engine is a global: its arrays start zeroed. The table hashes a key
        with MurmurHash3 seeded by the key prefix. */
    constructor (capacity: nat, keyLengths: seq<nat>)
      requires Utils.IsPow2(capacity) && capacity <= SIZE_T_MOD && |keyLengths| <= TOMBSTONE
      ensures Valid() && fresh(table) && fresh(table.store) && fresh(table.extra) && fresh(userRefCount)
      ensures table.where == map[] && table.keyLengths == keyLengths
      ensures nextIdForType == seq(|keyLengths|, _ => 0)
    {
      table := new UnorderedMap(capacity, keyLengths, (p: nat, k: seq<bv32>) => Murmur3.HashKey(p, k) as nat);
      userRefCount := new nat[capacity](_ => 0);
      nextIdForType := seq(|keyLengths|, _ => 0);
    }

    /** user_ref_counter_delta<+1>(prefix, begin, end), the same in engine/engine.h
        and compiler/engine.h: the key must be stored; its slot's count goes up by
        one. */
    method UserRefCounterIncrement(prefix: nat, key: seq<bv32>)
      requires Valid() && FullKey(prefix, key) in table.where
      modifies userRefCount
      ensures Valid()
      ensures var idx := table.where[FullKey(prefix, key)];
              userRefCount[..] == old(userRefCount[..])[idx := Incremented(old(userRefCount[idx]))]
    {
      SlotOfKey(table.capacity, table.keyLengths, table.hash, table.store[..], table.extra[..],
                table.validCount, table.tombstoneCount, table.where);
      var found := table.Find(prefix, key);
      var idx := found.value;
      CountsSet(userRefCount[..], table.store[..], idx, Incremented(userRefCount[idx]));
      userRefCount[idx] := Incremented(userRefCount[idx]);
    }

    /** user_ref_counter_delta<-1>(prefix, begin, end) of engine/engine.h: the key
        must be stored; its slot's count is pre-decremented, and the pair is
        deleted when the count reaches 0. */
    method UserRefCounterDecrement(prefix: nat, key: seq<bv32>)
      requires Valid() && FullKey(prefix, key) in table.where
      modifies table, table.store, table.extra, userRefCount
      ensures Valid()
      ensures var idx := old(table.where)[FullKey(prefix, key)];
              var c := PreDecremented(old(userRefCount[idx]));
              userRefCount[..] == old(userRefCount[..])[idx := c]
              && if c == 0 then
                   table.where == old(table.where) - {FullKey(prefix, key)}
                   && table.Contents() == old(table.Contents()) - {FullKey(prefix, key)}
                 else
                   table.where == old(table.where) && table.store[..] == old(table.store[..])
                   && table.extra[..] == old(table.extra[..])
    {
      ghost var fk := FullKey(prefix, key);
      ghost var st0, ex0, vc0, tc0, where0 := table.store[..], table.extra[..], table.validCount, table.tombstoneCount, table.where;
      SlotOfKey(table.capacity, table.keyLengths, table.hash, st0, ex0, vc0, tc0, where0);
      var found := table.Find(prefix, key);
      var idx := found.value;
      var v := PreDecremented(userRefCount[idx]);
      CountsSet(userRefCount[..], st0, idx, v);
      userRefCount[idx] := v;
      if v == 0 {
        table.Delete(prefix, key);
        DeleteLeavesOthers(table.capacity, table.keyLengths, table.hash, st0, ex0, vc0, tc0, where0,
                           table.store[..], table.extra[..], table.validCount, table.tombstoneCount, fk);
        CountsKeep(userRefCount[..], st0, table.store[..], idx);
      }
    }

    /** user_ref_counter_delta<-1> of compiler/engine.h: the count is
        post-decremented and the branch taken when the yielded value is 0 is
        empty, so the table never changes. */
    method UserRefCounterDecrementPostfix(prefix: nat, key: seq<bv32>)
      requires Valid() && FullKey(prefix, key) in table.where
      modifies userRefCount
      ensures Valid()
      ensures var idx := table.where[FullKey(prefix, key)];
              userRefCount[..] == old(userRefCount[..])[idx := PostDecremented(old(userRefCount[idx])).0]
    {
      SlotOfKey(table.capacity, table.keyLengths, table.hash, table.store[..], table.extra[..],
                table.validCount, table.tombstoneCount, table.where);
      var found := table.Find(prefix, key);
      var idx := found.value;
      var r := PostDecremented(userRefCount[idx]);
      CountsSet(userRefCount[..], table.store[..], idx, r.0);
      userRefCount[idx] := r.0;
      var v := r.1;
      if v == 0 {
        // the source leaves this branch empty
      }
    }

    /** The engine after make_input placed the key fk holding v in a table whose
        keys were keys0 and contents contents0: it is valid, fk is the one new
        key, the other pairs are as they were, fk's value is constructed as v,
        and count handles are counted on it. */
    ghost predicate HoldsInput(keys0: set<FullKey>, contents0: map<FullKey, Kvp<V>>, fk: FullKey, v: V, count: nat)
      reads table, table.store, table.extra, userRefCount
    {
      Valid() && fk in table.where && table.where.Keys == keys0 + {fk}
      && table.Contents() == contents0[fk := table.Contents()[fk]]
      && table.Contents()[fk].value == Some(v) && userRefCount[table.where[fk]] == count
    }

    /** make_input<Q>(args): take the next id of the type (post-increment of a
        uint32_t), insert the one-element key {id}, construct the value in the
        pair, and return a handle on it, which brings its count to 1. None is
        insert returning nullptr (the assert). The id must not be stored yet. */
    method MakeInput(prefix: nat, v: V) returns (r: Option<KeyRef<V>>)
      requires Valid() && prefix < |table.keyLengths| && table.keyLengths[prefix] == 1
      requires prefix < |nextIdForType| && FullKey(prefix, [nextIdForType[prefix]]) !in table.where
      modifies this`nextIdForType, table, table.store, table.extra, userRefCount
      ensures table.tombstoneCount == old(table.tombstoneCount)
      ensures nextIdForType == old(nextIdForType)[prefix := old(nextIdForType[prefix]) + 1]
      ensures r.Some? ==> fresh(r.value)
      ensures r.Some? ==> var fk := FullKey(prefix, [old(nextIdForType[prefix])]);
              r.value.engine == this && r.value.prefix == prefix && r.value.key == fk.key
              && HoldsInput(old(table.where).Keys, old(table.Contents()), fk, v, 1)
    {
      var id := TakeNextId(prefix);
      r := PlaceWithHandle(prefix, [id], v);
    }

    /** make_input after the id is taken: place the pair, then hand out the first
        handle on it. */
    method PlaceWithHandle(prefix: nat, key: seq<bv32>, v: V) returns (r: Option<KeyRef<V>>)
      requires Valid() && IsQuery(table.keyLengths, FullKey(prefix, key)) && FullKey(prefix, key) !in table.where
      modifies table, table.store, table.extra, userRefCount
      ensures table.tombstoneCount == old(table.tombstoneCount)
      ensures r.Some? ==> fresh(r.value)
      ensures r.Some? ==> r.value.engine == this && r.value.prefix == prefix && r.value.key == key
                          && HoldsInput(old(table.where).Keys, old(table.Contents()), FullKey(prefix, key), v, 1)
    {
      ghost var keys0, contents0 := table.where.Keys, table.Contents();
      var p := PlaceInput(prefix, key, v);
      if p.None? {
        return None;
      }
      var handle := NewHandle(prefix, key, keys0, contents0, v);
      return Some(handle);
    }

    /** The return of make_input: a KeyRef on the key just placed, which counts
        the first handle on it. */
    method NewHandle(prefix: nat, key: seq<bv32>, ghost keys0: set<FullKey>, ghost contents0: map<FullKey, Kvp<V>>, ghost v: V)
      returns (h: KeyRef<V>)
      requires HoldsInput(keys0, contents0, FullKey(prefix, key), v, 0)
      modifies userRefCount
      ensures fresh(h) && h.engine == this && h.prefix == prefix && h.key == key
      ensures HoldsInput(keys0, contents0, FullKey(prefix, key), v, 1)
    {
      h := new KeyRef(this, prefix, key);
    }

    /** next_id_for_type[q_prefix]++: the id to use, and the counter moved past it
        (a uint32_t, so it wraps). */
    method TakeNextId(prefix: nat) returns (id: bv32)
      requires prefix < |nextIdForType|
      modifies this`nextIdForType
      ensures id == old(nextIdForType[prefix])
      ensures nextIdForType == old(nextIdForType)[prefix := id + 1]
    {
      id := nextIdForType[prefix];
      nextIdForType := nextIdForType[prefix := id + 1];
    }

    /** The table part of make_input: insert the key and construct the value; the
        new pair's count is still 0. */
    method PlaceInput(prefix: nat, key: seq<bv32>, v: V) returns (p: Option<nat>)
      requires Valid() && IsQuery(table.keyLengths, FullKey(prefix, key)) && FullKey(prefix, key) !in table.where
      modifies table, table.store, table.extra
      ensures table.tombstoneCount == old(table.tombstoneCount)
      ensures p.Some? ==> FullKey(prefix, key) in table.where && p.value == table.where[FullKey(prefix, key)]
      ensures p.Some? ==> HoldsInput(old(table.where).Keys, old(table.Contents()), FullKey(prefix, key), v, 0)
    {
      ghost var keys0, contents0 := table.where.Keys, table.Contents();
      p := InsertInput(prefix, key);
      if p.None? {
        return;
      }
      ConstructInput(prefix, key, p.value, v, keys0, contents0);
    }

    /** The engine after insert placed the key fk at idx, before its value is
        constructed: fk is the one new key, and its count is 0. */
    ghost predicate Inserted(keys0: set<FullKey>, contents0: map<FullKey, Kvp<V>>, fk: FullKey, idx: nat)
      reads table, table.store, table.extra, userRefCount
    {
      Valid() && fk in table.where && table.where[fk] == idx && table.where.Keys == keys0 + {fk}
      && table.store[idx].IsValidType() && table.store[idx].IsType(fk.prefix) && table.store[idx].key == fk.key
      && !table.store[idx].header.constructed
      && table.Contents() == contents0[fk := table.store[idx]] && userRefCount[idx] == 0
    }

    /** The insert of make_input: store.insert as written, so tombstone_count
        is left as it was. */
    method InsertInput(prefix: nat, key: seq<bv32>) returns (p: Option<nat>)
      requires Valid() && IsQuery(table.keyLengths, FullKey(prefix, key)) && FullKey(prefix, key) !in table.where
      modifies table, table.store, table.extra
      ensures table.tombstoneCount == old(table.tombstoneCount)
      ensures p.Some? ==> Inserted(old(table.where).Keys, old(table.Contents()), FullKey(prefix, key), p.value)
    {
      ghost var st0 := table.store[..];
      p := table.InsertKeepingCount(prefix, key);
      if p.Some? {
        CountsKeep(userRefCount[..], st0, table.store[..], p.value);
      }
    }

    /** The placement new of make_input's value into the inserted pair. */
    method ConstructInput(prefix: nat, key: seq<bv32>, idx: nat, v: V,
                          ghost keys0: set<FullKey>, ghost contents0: map<FullKey, Kvp<V>>)
      requires Inserted(keys0, contents0, FullKey(prefix, key), idx)
      modifies table.store
      ensures HoldsInput(keys0, contents0, FullKey(prefix, key), v, 0)
    {
      ghost var st1 := table.store[..];
      table.ConstructValue(idx, prefix, v);
      CountsKeep(userRefCount[..], st1, table.store[..], idx);
    }

    /** cget_value<Q>(key): the key must be stored with its value constructed;
        the value of type Q in its pair. */
    method CGetValue(prefix: nat, key: seq<bv32>) returns (v: V)
      requires Valid() && FullKey(prefix, key) in table.where
      requires table.store[table.where[FullKey(prefix, key)]].header.constructed
      ensures table.Contents()[FullKey(prefix, key)].value == Some(v)
    {
      SlotOfKey(table.capacity, table.keyLengths, table.hash, table.store[..], table.extra[..],
                table.validCount, table.tombstoneCount, table.where);
      assert SlotInv(table.capacity, table.keyLengths, table.hash, table.store[table.where[FullKey(prefix, key)]],
                     table.extra[table.where[FullKey(prefix, key)]], table.where[FullKey(prefix, key)]);
      var found := table.Find(prefix, key);
      v := Get(table.store[found.value], prefix);
    }
  }

  /** KeyRef<E, engine_p, Q>: a handle on the pair with key prefix q_prefix and
      key `key`; a key whose first element is invalid_id is inert (moved from). */
  class KeyRef<V> {
    const engine: Engine<V>
    /** q_prefix */
    const prefix: nat
    var key: seq<bv32>

    predicate Inert()
      reads this
    {
      |key| > 0 && key[0] == INVALID_ID
    }

    /** KeyRef(key_in): one more handle on the stored key. */
    constructor (engine: Engine<V>, prefix: nat, key: seq<bv32>)
      requires engine.Valid() && FullKey(prefix, key) in engine.table.where
      modifies engine.userRefCount
      ensures this.engine == engine && this.prefix == prefix && this.key == key && engine.Valid()
      ensures var idx := engine.table.where[FullKey(prefix, key)];
              engine.userRefCount[..] == old(engine.userRefCount[..])[idx := Incremented(old(engine.userRefCount[idx]))]
    {
      this.engine := engine;
      this.prefix := prefix;
      this.key := key;
      new;
      engine.UserRefCounterIncrement(prefix, key);
    }

    /** KeyRef(begin, end): the key copied from a range of exactly the key's
        length, then one more handle on it. */
    constructor FromRange(engine: Engine<V>, prefix: nat, range: seq<bv32>, n: nat)
      requires |range| == n && engine.Valid() && FullKey(prefix, range) in engine.table.where
      modifies engine.userRefCount
      ensures this.engine == engine && this.prefix == prefix && this.key == range && engine.Valid()
      ensures var idx := engine.table.where[FullKey(prefix, range)];
              engine.userRefCount[..] == old(engine.userRefCount[..])[idx := Incremented(old(engine.userRefCount[idx]))]
    {
      this.engine := engine;
      this.prefix := prefix;
      var k: seq<bv32> := [];
      while |k| < n
        invariant |k| <= n && k == range[..|k|]
      {
        k := k + [range[|k|]];
      }
      assert k == range;
      this.key := k;
      new;
      engine.UserRefCounterIncrement(prefix, key);
    }

    /** The move constructor: the same key, no change to the count, and the source
        made inert. */
    constructor Move(other: KeyRef<V>)
      requires |other.key| > 0
      modifies other
      ensures engine == other.engine && prefix == other.prefix && key == old(other.key)
      ensures other.key == old(other.key)[0 := INVALID_ID] && other.Inert()
    {
      engine := other.engine;
      prefix := other.prefix;
      key := other.key;
      new;
      other.key := other.key[0 := INVALID_ID];
    }

    /** The copy constructor: the same key, and one more handle on it. */
    constructor Copy(other: KeyRef<V>)
      requires other.engine.Valid() && FullKey(other.prefix, other.key) in other.engine.table.where
      modifies other.engine.userRefCount
      ensures engine == other.engine && prefix == other.prefix && key == other.key && engine.Valid()
      ensures var idx := engine.table.where[FullKey(prefix, key)];
              engine.userRefCount[..] == old(other.engine.userRefCount[..])[idx := Incremented(old(other.engine.userRefCount[idx]))]
    {
      engine := other.engine;
      prefix := other.prefix;
      key := other.key;
      new;
      engine.UserRefCounterIncrement(prefix, key);
    }

    /** The destructor: one handle fewer unless inert; the last one deletes the
        pair. */
    method Drop()
      requires |key| > 0 && engine.Valid()
      requires !Inert() ==> FullKey(prefix, key) in engine.table.where
      modifies engine.table, engine.table.store, engine.table.extra, engine.userRefCount
      ensures engine.Valid()
      ensures Inert() ==> engine.userRefCount[..] == old(engine.userRefCount[..])
                          && engine.table.where == old(engine.table.where)
      ensures !Inert() ==>
                var idx := old(engine.table.where)[FullKey(prefix, key)];
                var c := PreDecremented(old(engine.userRefCount[idx]));
                engine.userRefCount[..] == old(engine.userRefCount[..])[idx := c]
                && engine.table.where == if c == 0 then old(engine.table.where) - {FullKey(prefix, key)}
                                         else old(engine.table.where)
    {
      if key[0] != INVALID_ID {
        engine.UserRefCounterDecrement(prefix, key);
      }
    }

    /** cget(): the engine's value for the held key. */
    method CGet() returns (v: V)
      requires engine.Valid() && FullKey(prefix, key) in engine.table.where
      requires engine.table.store[engine.table.where[FullKey(prefix, key)]].header.constructed
      ensures engine.table.Contents()[FullKey(prefix, key)].value == Some(v)
    {
      v := engine.CGetValue(prefix, key);
    }
  }
}
