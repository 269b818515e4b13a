/** The specification layer of engine/unordered_map.h: slot metadata, probe
    arithmetic, the lookup walk, and the table invariant (probe accounting,
    tombstones, key placement) stated over snapshots of the two arrays, with the
    lemmas the table's methods use to keep it. */
module ProbeTables {
  import opened Wrappers
  import Utils
  import opened KeyValuePairs

  /** max_probing: total number of slots examined before giving up. */
  const MAX_PROBING: nat := 30
  /** size_t arithmetic wraps modulo 2^64. */
  const SIZE_T_MOD: nat := 0x1_0000_0000_0000_0000
  /** size_t(-1) and size_t(-2). */
  const NULL_KVP: nat := 0xFFFF_FFFF_FFFF_FFFF
  const TOMBSTONE_KVP: nat := 0xFFFF_FFFF_FFFF_FFFE

  // ---------------------------------------------------------------------------
  // ExtraStorageInfo

  /** Per-slot metadata: the number of other entries' probe chains crossing the
      slot, and either a sentinel (null / tombstone) or the probe count that led
      the slot's entry to it. */
  datatype ExtraStorageInfo = ExtraStorageInfo(passing: nat, flagOrProbesUsed: nat)
  {
    predicate IsNull() { flagOrProbesUsed == NULL_KVP }
    predicate IsTombstone() { flagOrProbesUsed == TOMBSTONE_KVP }
    predicate IsValidProbesUsed() { !(flagOrProbesUsed == NULL_KVP || flagOrProbesUsed == TOMBSTONE_KVP) }
    function ProbesUsed(): nat
      requires IsValidProbesUsed()
    {
      flagOrProbesUsed
    }
  }

  const DEFAULT_EXTRA := ExtraStorageInfo(0, NULL_KVP)

  function SetToNull(e: ExtraStorageInfo): (r: ExtraStorageInfo)
    ensures r.IsNull() && r.passing == e.passing
  {
    e.(flagOrProbesUsed := NULL_KVP)
  }

  function SetToTombstone(e: ExtraStorageInfo): (r: ExtraStorageInfo)
    ensures r.IsTombstone() && r.passing == e.passing
  {
    e.(flagOrProbesUsed := TOMBSTONE_KVP)
  }

  function SetToProbesUsed(e: ExtraStorageInfo, n: nat): (r: ExtraStorageInfo)
    requires n != NULL_KVP && n != TOMBSTONE_KVP
    ensures r.IsValidProbesUsed() && r.ProbesUsed() == n && r.passing == e.passing
  {
    e.(flagOrProbesUsed := n)
  }

  // ---------------------------------------------------------------------------
  // Index arithmetic

  /** modulo_capacity(x): `(capacity-1) & x` on a size_t. */
  function ModuloCapacity(cap: nat, x: int): nat
    requires cap > 0
  {
    Utils.BitAnd(x % SIZE_T_MOD, cap - 1)
  }

  /** probe_i_from(base, i): slot of probe step i. */
  function ProbeIFrom(cap: nat, base: int, i: nat): (r: nat)
    requires cap > 0
    ensures r < cap
  {
    (base + i * i) % cap
  }

  /** base_from_probe_i(probe, i): the base a step-i probe came from. */
  function BaseFromProbeI(cap: nat, probe: int, i: nat): (r: nat)
    requires cap > 0
    ensures r < cap
  {
    (probe - i * i) % cap
  }

  lemma ModShift(cap: nat, a: int, c: int)
    requires cap > 0
    ensures (a % cap + c) % cap == (a + c) % cap
  {
    var q := a / cap;
    Utils.ModOfDecomposition(a, cap, q, a % cap);
    var r := (a + c) % cap;
    Utils.ModOfDecomposition(a + c, cap, (a + c) / cap, r);
    Utils.ModOfDecomposition(a % cap + c, cap, (a + c) / cap - q, r);
  }

  /** base_from_probe_i undoes probe_i_from, and the other way round. */
  lemma BaseFromProbeInverts(cap: nat, base: int, probe: int, i: nat)
    requires cap > 0
    ensures BaseFromProbeI(cap, ProbeIFrom(cap, base, i), i) == base % cap
    ensures ProbeIFrom(cap, BaseFromProbeI(cap, probe, i), i) == probe % cap
  {
    ProbeThenBase(cap, base, i);
    BaseThenProbe(cap, probe, i);
  }

  lemma ProbeThenBase(cap: nat, base: int, i: nat)
    requires cap > 0
    ensures BaseFromProbeI(cap, ProbeIFrom(cap, base, i), i) == base % cap
  {
    ShiftBack(cap, base, i * i);
  }

  /** Adding sq modulo cap and then taking it away again leaves a modulo cap. */
  lemma ShiftBack(cap: nat, a: int, sq: int)
    requires cap > 0
    ensures ((a + sq) % cap - sq) % cap == a % cap
  {
    ModShift(cap, a + sq, -sq);
    assert a + sq + -sq == a;
  }

  lemma BaseThenProbe(cap: nat, probe: int, i: nat)
    requires cap > 0
    ensures ProbeIFrom(cap, BaseFromProbeI(cap, probe, i), i) == probe % cap
  {
    var sq := i * i;
    var b := BaseFromProbeI(cap, probe, i);
    assert b == (probe - sq) % cap;
    assert ProbeIFrom(cap, b, i) == (b + sq) % cap;
    assert (b + sq) % cap == probe % cap by {
      ModShift(cap, probe - sq, sq);
      assert probe - sq + sq == probe;
    }
  }

  /** Step 0 of a chain, in either direction, is the slot itself. */
  lemma StepZero(cap: nat, x: nat)
    requires x < cap
    ensures ProbeIFrom(cap, x, 0) == x && BaseFromProbeI(cap, x, 0) == x
  {
    assert x + 0 * 0 == x && x - 0 * 0 == x;
    Utils.ModOfDecomposition(x, cap, 0, x);
  }

  /** A slot is where its own chain arrives at its probe count. */
  lemma ChainArrives(cap: nat, h: nat, s: nat, n: nat)
    requires s < cap && BaseFromProbeI(cap, s, n) == h
    ensures ProbeIFrom(cap, h, n) == s
  {
    BaseFromProbeInverts(cap, 0, s, n);
    Utils.ModOfDecomposition(s, cap, 0, s);
  }

  /** Step 0 is the base slot itself. */
  lemma ProbeZero(cap: nat, base: nat)
    requires 0 < cap && base < cap
    ensures ProbeIFrom(cap, base, 0) == base
  {
  }

  lemma {:induction false} Log2Exists(n: nat)
    requires Utils.IsPowerOfTwo(n) && n <= SIZE_T_MOD
    ensures exists k :: 0 <= k <= 64 && Utils.Pow2(k) == n
    decreases n
  {
    if n == 1 {
      assert Utils.Pow2(0) == 1;
    } else {
      Log2Exists(n / 2);
      var k :| 0 <= k <= 64 && Utils.Pow2(k) == n / 2;
      assert Utils.Pow2(k + 1) == n;
      if k == 64 {
        Pow2Of64();
        assert false;
      }
    }
  }

  lemma Pow2Of64()
    ensures Utils.Pow2(64) == SIZE_T_MOD
  {
    assert Utils.Pow2(2) == 4;
    Pow2Sum(2, 2);
    Pow2Sum(4, 4);
    assert Utils.Pow2(8) == 256;
    Pow2Sum(8, 8);
    assert Utils.Pow2(16) == 0x1_0000;
    Pow2Sum(16, 16);
    assert Utils.Pow2(32) == 0x1_0000_0000;
    Pow2Sum(32, 32);
  }

  lemma {:induction false} Pow2Sum(a: nat, b: nat)
    ensures Utils.Pow2(a + b) == Utils.Pow2(a) * Utils.Pow2(b)
  {
    if a > 0 {
      Pow2Sum(a - 1, b);
    }
  }

  /** Reducing modulo a multiple of cap first does not change the remainder. */
  lemma ModOfModMultiple(x: int, cap: nat, m: nat)
    requires cap > 0 && m > 0
    ensures (x % (cap * m)) % cap == x % cap
  {
    var big := cap * m;
    var q, w := x / big, x % big;
    assert x == big * q + w;
    assert big * q == cap * (m * q);
    var q', r' := w / cap, w % cap;
    assert w == cap * q' + r';
    assert x == cap * (m * q + q') + r';
    Utils.ModOfDecomposition(x, cap, m * q + q', r');
  }

  /** For a power-of-two capacity, the mask of the wrapped size_t value is the
      mathematical remainder, so the probe functions compute what the source's
      `(capacity-1) & x` computes. */
  lemma ModuloCapacityIsRemainder(cap: nat, x: int)
    requires cap > 0 && Utils.IsPow2(cap) && cap <= SIZE_T_MOD
    ensures ModuloCapacity(cap, x) == x % cap
  {
    Utils.IsPow2Correct(cap);
    Log2Exists(cap);
    var k :| 0 <= k <= 64 && Utils.Pow2(k) == cap;
    var r := x % SIZE_T_MOD;
    assert ModuloCapacity(cap, x) == r % cap by {
      Utils.MaskIsModulo(r, k);
    }
    var m := Utils.Pow2(64 - k);
    assert SIZE_T_MOD == cap * m by {
      Pow2Of64();
      Pow2Sum(k, 64 - k);
    }
    ModOfModMultiple(x, cap, m);
  }

  lemma ProbeFunctionsMatchSource(cap: nat, base: int, probe: int, i: nat)
    requires cap > 0 && Utils.IsPow2(cap) && cap <= SIZE_T_MOD
    ensures ProbeIFrom(cap, base, i) == ModuloCapacity(cap, base + i * i)
    ensures BaseFromProbeI(cap, probe, i) == ModuloCapacity(cap, probe - i * i)
  {
    ModuloCapacityIsRemainder(cap, base + i * i);
    ModuloCapacityIsRemainder(cap, probe - i * i);
  }

  /** How many of the probe steps lo .. hi-1 from `base` land on slot s. */
  ghost function Crossings(cap: nat, base: int, lo: nat, hi: nat, s: nat): nat
    requires cap > 0
    decreases hi
  {
    if hi <= lo then 0 else Crossings(cap, base, lo, hi - 1, s) + (if ProbeIFrom(cap, base, hi - 1) == s then 1 else 0)
  }

  lemma {:induction false} CrossingsSplit(cap: nat, base: int, lo: nat, mid: nat, hi: nat, s: nat)
    requires cap > 0 && lo <= mid <= hi
    ensures Crossings(cap, base, lo, hi, s) == Crossings(cap, base, lo, mid, s) + Crossings(cap, base, mid, hi, s)
    decreases hi
  {
    if mid < hi {
      CrossingsSplit(cap, base, lo, mid, hi - 1, s);
    }
  }

  lemma {:induction false} CrossingsHas(cap: nat, base: int, lo: nat, hi: nat, j: nat)
    requires cap > 0 && lo <= j < hi
    ensures Crossings(cap, base, lo, hi, ProbeIFrom(cap, base, j)) >= 1
    decreases hi
  {
    if j < hi - 1 {
      CrossingsHas(cap, base, lo, hi - 1, j);
    }
  }

  /** The crossings of slots 0 .. k-1, summed. */
  ghost function CrossingsBelow(cap: nat, base: int, lo: nat, hi: nat, k: nat): nat
    requires cap > 0
  {
    if k == 0 then 0 else CrossingsBelow(cap, base, lo, hi, k - 1) + Crossings(cap, base, lo, hi, k - 1)
  }

  lemma {:induction false} CrossingsBelowStep(cap: nat, base: int, lo: nat, hi: nat, k: nat)
    requires cap > 0 && lo < hi
    ensures CrossingsBelow(cap, base, lo, hi, k)
         == CrossingsBelow(cap, base, lo, hi - 1, k) + (if ProbeIFrom(cap, base, hi - 1) < k then 1 else 0)
  {
    if k > 0 {
      CrossingsBelowStep(cap, base, lo, hi, k - 1);
    }
  }

  /** Every probe step lands on some slot of the table. */
  lemma {:induction false} CrossingsTotal(cap: nat, base: int, lo: nat, hi: nat)
    requires cap > 0 && lo <= hi
    ensures CrossingsBelow(cap, base, lo, hi, cap) == hi - lo
    decreases hi
  {
    if lo < hi {
      CrossingsBelowStep(cap, base, lo, hi, cap);
      CrossingsTotal(cap, base, lo, hi - 1);
    } else {
      CrossingsBelowOfEmpty(cap, base, lo, hi, cap);
    }
  }

  lemma {:induction false} CrossingsBelowOfEmpty(cap: nat, base: int, lo: nat, hi: nat, k: nat)
    requires cap > 0 && hi <= lo
    ensures CrossingsBelow(cap, base, lo, hi, k) == 0
  {
    if k > 0 {
      CrossingsBelowOfEmpty(cap, base, lo, hi, k - 1);
    }
  }

  // ---------------------------------------------------------------------------
  // Keys and hashing

  /** A key with its prefix: the type id is part of the key. */
  datatype FullKey = FullKey(prefix: nat, key: seq<bv32>)

  function FullKeyOf<V>(kvp: Kvp<V>): FullKey
  {
    FullKey(kvp.header.typeId, kvp.key)
  }

  /** What callers of find / insert / delete_ pass: a type id of the table and a
      key of that type's length. */
  predicate IsQuery(keyLengths: seq<nat>, fk: FullKey)
  {
    fk.prefix < |keyLengths| && |fk.key| == keyLengths[fk.prefix]
  }

  /** get_hashed_idx: the hash of (prefix, key), reduced to a slot. */
  function HashIdx(cap: nat, hash: (nat, seq<bv32>) -> nat, fk: FullKey): (r: nat)
    requires cap > 0
    ensures r < cap
  {
    hash(fk.prefix, fk.key) % cap
  }

  /** std::equal(begin, end, kvp.cbegin_key()): the query's elements are the first
      elements of the stored key. */
  predicate KeyEqual(query: seq<bv32>, stored: seq<bv32>)
  {
    |query| <= |stored| && stored[..|query|] == query
  }

  // ---------------------------------------------------------------------------
  // The lookup walk of find

  /** find from probe step i on: not found at a null slot or after max_probing
      steps; a slot with another prefix (so any tombstone) or another key is
      passed over. */
  function FindFrom<V>(cap: nat, st: seq<Kvp<V>>, base: nat, fk: FullKey, i: nat): (r: Option<nat>)
    requires 0 < cap == |st| && i <= MAX_PROBING
    ensures r.Some? ==> (r.value < cap && !st[r.value].IsNull()
                         && st[r.value].KeyPrefix() == fk.prefix && KeyEqual(fk.key, st[r.value].key))
    decreases MAX_PROBING - i
  {
    if i == MAX_PROBING then None
    else
      var idx := ProbeIFrom(cap, base, i);
      if st[idx].IsNull() then None
      else if st[idx].KeyPrefix() == fk.prefix && KeyEqual(fk.key, st[idx].key) then Some(idx)
      else FindFrom(cap, st, base, fk, i + 1)
  }

  // ---------------------------------------------------------------------------
  // Probe accounting

  /** How often the probe chain of the entry at t (its probe steps before the
      last) crosses slot s; 0 when t holds no entry. */
  ghost function ChainHits(cap: nat, e: ExtraStorageInfo, t: nat, s: nat): nat
    requires cap > 0
  {
    if e.IsValidProbesUsed() then Crossings(cap, BaseFromProbeI(cap, t, e.ProbesUsed()), 0, e.ProbesUsed(), s) else 0
  }

  ghost function HitsUpTo(cap: nat, ex: seq<ExtraStorageInfo>, m: nat, s: nat): nat
    requires cap > 0 && m <= |ex|
  {
    if m == 0 then 0 else HitsUpTo(cap, ex, m - 1, s) + ChainHits(cap, ex[m - 1], m - 1, s)
  }

  /** How many times slot s is crossed by the probe chains of all entries. */
  ghost function Hits(cap: nat, ex: seq<ExtraStorageInfo>, s: nat): nat
    requires cap > 0
  {
    HitsUpTo(cap, ex, |ex|, s)
  }

  /** Outside slot `except`, the same slots hold entries and with the same probe
      counts (a slot may still change between null and tombstone). */
  predicate SameChains(ex: seq<ExtraStorageInfo>, ex2: seq<ExtraStorageInfo>, except: int)
  {
    |ex| == |ex2|
    && forall u :: 0 <= u < |ex| && u != except ==>
         ex2[u].IsValidProbesUsed() == ex[u].IsValidProbesUsed()
         && (ex[u].IsValidProbesUsed() ==> ex2[u].ProbesUsed() == ex[u].ProbesUsed())
  }

  /** Changing slot t changes the hits by t's chains only. */
  lemma {:induction false} HitsUpdate(cap: nat, ex: seq<ExtraStorageInfo>, ex2: seq<ExtraStorageInfo>, t: int, m: nat, s: nat)
    requires cap > 0 && m <= |ex| && SameChains(ex, ex2, t)
    ensures 0 <= t < m ==> HitsUpTo(cap, ex2, m, s) + ChainHits(cap, ex[t], t, s) == HitsUpTo(cap, ex, m, s) + ChainHits(cap, ex2[t], t, s)
    ensures !(0 <= t < m) ==> HitsUpTo(cap, ex2, m, s) == HitsUpTo(cap, ex, m, s)
  {
    if m > 0 {
      HitsUpdate(cap, ex, ex2, t, m - 1, s);
    }
  }

  /** Hits depend only on which slots hold entries and their probe counts. */
  lemma HitsOfSameChains(cap: nat, ex: seq<ExtraStorageInfo>, ex2: seq<ExtraStorageInfo>, s: nat)
    requires cap > 0 && SameChains(ex, ex2, -1)
    ensures Hits(cap, ex2, s) == Hits(cap, ex, s)
  {
    HitsUpdate(cap, ex, ex2, -1, |ex|, s);
  }

  lemma {:induction false} ChainInHitsUpTo(cap: nat, ex: seq<ExtraStorageInfo>, t: nat, m: nat, s: nat)
    requires cap > 0 && t < m <= |ex|
    ensures ChainHits(cap, ex[t], t, s) <= HitsUpTo(cap, ex, m, s)
  {
    if m - 1 != t {
      ChainInHitsUpTo(cap, ex, t, m - 1, s);
    }
  }

  /** Every entry's chain is counted in the hits. */
  lemma ChainInHits(cap: nat, ex: seq<ExtraStorageInfo>, t: nat, s: nat)
    requires cap > 0 && t < |ex|
    ensures ChainHits(cap, ex[t], t, s) <= Hits(cap, ex, s)
  {
    ChainInHitsUpTo(cap, ex, t, |ex|, s);
  }

  // ---------------------------------------------------------------------------
  // Counting slots

  function CountValid(ex: seq<ExtraStorageInfo>): (r: nat)
    ensures r <= |ex|
  {
    if ex == [] then 0 else CountValid(ex[..|ex| - 1]) + (if ex[|ex| - 1].IsValidProbesUsed() then 1 else 0)
  }

  function CountTombstones(ex: seq<ExtraStorageInfo>): (r: nat)
    ensures r <= |ex|
  {
    if ex == [] then 0 else CountTombstones(ex[..|ex| - 1]) + (if ex[|ex| - 1].IsTombstone() then 1 else 0)
  }

  /** Rewriting one slot changes each count by that slot's old and new state. */
  lemma {:induction false} CountUpdate(ex: seq<ExtraStorageInfo>, t: nat, e: ExtraStorageInfo)
    requires t < |ex|
    ensures CountValid(ex[t := e]) + (if ex[t].IsValidProbesUsed() then 1 else 0)
         == CountValid(ex) + (if e.IsValidProbesUsed() then 1 else 0)
    ensures CountTombstones(ex[t := e]) + (if ex[t].IsTombstone() then 1 else 0)
         == CountTombstones(ex) + (if e.IsTombstone() then 1 else 0)
  {
    var last := |ex| - 1;
    if t < last {
      CountUpdate(ex[..last], t, e);
      assert ex[t := e][..last] == ex[..last][t := e];
    } else {
      assert ex[t := e][..last] == ex[..last];
    }
  }

  lemma {:induction false} CountValidOfSameChains(ex: seq<ExtraStorageInfo>, ex2: seq<ExtraStorageInfo>)
    requires SameChains(ex, ex2, -1)
    ensures CountValid(ex2) == CountValid(ex)
  {
    if ex != [] {
      var last := |ex| - 1;
      CountValidOfSameChains(ex[..last], ex2[..last]);
    }
  }

  lemma {:induction false} TombstoneCounted(ex: seq<ExtraStorageInfo>, t: nat)
    requires t < |ex| && ex[t].IsTombstone()
    ensures CountTombstones(ex) >= 1
  {
    if t < |ex| - 1 {
      TombstoneCounted(ex[..|ex| - 1], t);
    }
  }

  // ---------------------------------------------------------------------------
  // The table invariant

  /** store and extra_storage_info agree on null / tombstone / valid. */
  predicate InSync<V>(kvp: Kvp<V>, e: ExtraStorageInfo)
  {
    (e.IsNull() <==> kvp.IsNull()) && (e.IsTombstone() <==> kvp.IsTombstone())
  }

  /** A valid slot holds a well-formed key of a table type that hashes to the base
      of its probe chain, reached after probes_used steps and not earlier. */
  predicate Placed<V>(cap: nat, keyLengths: seq<nat>, hash: (nat, seq<bv32>) -> nat, kvp: Kvp<V>, e: ExtraStorageInfo, s: nat)
    requires cap > 0
  {
    e.IsValidProbesUsed() ==>
      var n := e.ProbesUsed();
      var h := HashIdx(cap, hash, FullKeyOf(kvp));
      n < MAX_PROBING && IsQuery(keyLengths, FullKeyOf(kvp))
      && BaseFromProbeI(cap, s, n) == h
      && forall j :: 0 <= j < n ==> ProbeIFrom(cap, h, j) != s
  }

  predicate SlotInv<V>(cap: nat, keyLengths: seq<nat>, hash: (nat, seq<bv32>) -> nat, kvp: Kvp<V>, e: ExtraStorageInfo, s: nat)
    requires cap > 0
  {
    InSync(kvp, e) && Consistent(kvp) && Placed(cap, keyLengths, hash, kvp, e, s)
    && (e.IsNull() ==> e.passing == 0)
    && (e.IsTombstone() ==> e.passing > 0)
  }

  /** Probe accounting: each slot's passing count is the number of entries' probe
      chains through it. */
  ghost predicate Accounted(cap: nat, ex: seq<ExtraStorageInfo>)
    requires cap > 0
  {
    forall s {:trigger Hits(cap, ex, s)} :: 0 <= s < |ex| ==> ex[s].passing == Hits(cap, ex, s)
  }

  /** `where` maps each stored full key to its slot, and back. */
  ghost predicate WhereInv<V>(cap: nat, st: seq<Kvp<V>>, ex: seq<ExtraStorageInfo>, where: map<FullKey, nat>)
    requires |st| == |ex| == cap
  {
    (forall fk :: fk in where ==> where[fk] < cap && ex[where[fk]].IsValidProbesUsed() && FullKeyOf(st[where[fk]]) == fk)
    && (forall s :: 0 <= s < cap && ex[s].IsValidProbesUsed() ==> FullKeyOf(st[s]) in where && where[FullKeyOf(st[s])] == s)
  }

  predicate Shape<V>(cap: nat, keyLengths: seq<nat>, st: seq<Kvp<V>>, ex: seq<ExtraStorageInfo>)
  {
    0 < cap && |st| == cap && |ex| == cap && |keyLengths| <= TOMBSTONE
  }

  ghost predicate Inv<V>(cap: nat, keyLengths: seq<nat>, hash: (nat, seq<bv32>) -> nat,
                         st: seq<Kvp<V>>, ex: seq<ExtraStorageInfo>,
                         validCount: nat, tombstoneCount: nat, where: map<FullKey, nat>)
  {
    Shape(cap, keyLengths, st, ex)
    && (forall s {:trigger SlotInv(cap, keyLengths, hash, st[s], ex[s], s)} :: 0 <= s < cap ==> SlotInv(cap, keyLengths, hash, st[s], ex[s], s))
    && Accounted(cap, ex)
    && validCount == CountValid(ex)
    && tombstoneCount >= CountTombstones(ex)
    && WhereInv(cap, st, ex, where)
  }

  /** The stored entries by full key. */
  ghost function Contents<V>(cap: nat, st: seq<Kvp<V>>, where: map<FullKey, nat>): map<FullKey, Kvp<V>>
    requires |st| == cap
  {
    map fk | fk in where :: if where[fk] < cap then st[where[fk]] else Empty()
  }

  /** Placing a new key in a slot no stored key uses adds exactly that pair to the
      contents. */
  lemma ContentsAfterPlace<V>(cap: nat, st0: seq<Kvp<V>>, st: seq<Kvp<V>>, where0: map<FullKey, nat>,
                              fk: FullKey, idx: nat)
    requires |st0| == |st| == cap && idx < cap
    requires forall k :: k in where0 ==> where0[k] < cap && where0[k] != idx
    requires forall s :: 0 <= s < cap && s != idx ==> st[s] == st0[s]
    ensures Contents(cap, st, where0[fk := idx]) == Contents(cap, st0, where0)[fk := st[idx]]
  {
    var c1, c2 := Contents(cap, st, where0[fk := idx]), Contents(cap, st0, where0)[fk := st[idx]];
    assert c1.Keys == c2.Keys;
    forall k | k in c1.Keys ensures c1[k] == c2[k] {
      if k != fk {
        assert where0[k] != idx;
      }
    }
  }

  // ---------------------------------------------------------------------------
  // Consequences of the invariant

  /** A slot on an entry's chain before its own slot is crossed by that chain, so
      it is never null. */
  lemma ChainSlotNotNull<V>(cap: nat, keyLengths: seq<nat>, hash: (nat, seq<bv32>) -> nat,
                            st: seq<Kvp<V>>, ex: seq<ExtraStorageInfo>, vc: nat, tc: nat,
                            where: map<FullKey, nat>, s: nat, j: nat)
    requires Inv(cap, keyLengths, hash, st, ex, vc, tc, where)
    requires s < cap && ex[s].IsValidProbesUsed() && j < ex[s].ProbesUsed()
    ensures var t := ProbeIFrom(cap, BaseFromProbeI(cap, s, ex[s].ProbesUsed()), j);
            ex[t].passing > 0 && !ex[t].IsNull() && !st[t].IsNull()
  {
    var n := ex[s].ProbesUsed();
    var base := BaseFromProbeI(cap, s, n);
    var t := ProbeIFrom(cap, base, j);
    CrossingsHas(cap, base, 0, n, j);
    ChainInHits(cap, ex, s, t);
    assert SlotInv(cap, keyLengths, hash, st[t], ex[t], t);
  }

  /** `where` and the valid slots describe each other: a stored key's slot holds
      it, and a slot holding an entry is where its key is recorded. */
  lemma SlotOfKey<V>(cap: nat, keyLengths: seq<nat>, hash: (nat, seq<bv32>) -> nat,
                     st: seq<Kvp<V>>, ex: seq<ExtraStorageInfo>, vc: nat, tc: nat,
                     where: map<FullKey, nat>)
    requires Inv(cap, keyLengths, hash, st, ex, vc, tc, where)
    ensures forall fk :: fk in where ==>
              where[fk] < cap && st[where[fk]].IsValidType() && FullKeyOf(st[where[fk]]) == fk
              && IsQuery(keyLengths, fk)
    ensures forall s :: 0 <= s < cap && st[s].IsValidType() ==>
              FullKeyOf(st[s]) in where && where[FullKeyOf(st[s])] == s
  {
    forall fk | fk in where
      ensures where[fk] < cap && st[where[fk]].IsValidType() && IsQuery(keyLengths, fk)
    {
      assert SlotInv(cap, keyLengths, hash, st[where[fk]], ex[where[fk]], where[fk]);
    }
    forall s | 0 <= s < cap && st[s].IsValidType()
      ensures FullKeyOf(st[s]) in where && where[FullKeyOf(st[s])] == s
    {
      assert SlotInv(cap, keyLengths, hash, st[s], ex[s], s);
    }
  }

  /** Constructing or replacing the value of a stored pair, with its header and
      key kept, keeps the invariant. */
  lemma SameKeyKeepsInv<V>(cap: nat, keyLengths: seq<nat>, hash: (nat, seq<bv32>) -> nat,
                           st: seq<Kvp<V>>, ex: seq<ExtraStorageInfo>, vc: nat, tc: nat,
                           where: map<FullKey, nat>, t: nat, k: Kvp<V>)
    requires Inv(cap, keyLengths, hash, st, ex, vc, tc, where) && t < cap
    requires k.header.typeId == st[t].header.typeId && k.key == st[t].key && Consistent(k)
    ensures Inv(cap, keyLengths, hash, st[t := k], ex, vc, tc, where)
  {
    var st2 := st[t := k];
    forall s | 0 <= s < cap
      ensures SlotInv(cap, keyLengths, hash, st2[s], ex[s], s)
    {
      assert SlotInv(cap, keyLengths, hash, st[s], ex[s], s);
      assert FullKeyOf(st2[s]) == FullKeyOf(st[s]);
    }
    assert forall s :: 0 <= s < cap ==> FullKeyOf(st2[s]) == FullKeyOf(st[s]);
  }

  /** Replacing the pair in the slot of exactly one stored key changes that key's
      entry in the contents and no other. */
  lemma ContentsAfterReplace<V>(cap: nat, st: seq<Kvp<V>>, where: map<FullKey, nat>, t: nat, k: Kvp<V>)
    requires |st| == cap && t < cap && FullKeyOf(k) in where && where[FullKeyOf(k)] == t
    requires forall fk :: fk in where && where[fk] == t ==> fk == FullKeyOf(k)
    ensures Contents(cap, st[t := k], where) == Contents(cap, st, where)[FullKeyOf(k) := k]
  {
    var c1, c2 := Contents(cap, st[t := k], where), Contents(cap, st, where)[FullKeyOf(k) := k];
    assert c1.Keys == c2.Keys;
    forall fk | fk in c1.Keys ensures c1[fk] == c2[fk] {
      if fk != FullKeyOf(k) {
        assert where[fk] != t;
      }
    }
  }

  /** Every tombstone has a chain passing through it: a tombstone is nulled as
      soon as its count reaches 0. */
  lemma TombstonesArePassedThrough<V>(cap: nat, keyLengths: seq<nat>, hash: (nat, seq<bv32>) -> nat,
                                      st: seq<Kvp<V>>, ex: seq<ExtraStorageInfo>, vc: nat, tc: nat,
                                      where: map<FullKey, nat>)
    requires Inv(cap, keyLengths, hash, st, ex, vc, tc, where)
    ensures forall s :: 0 <= s < cap && ex[s].IsTombstone() ==> ex[s].passing > 0
  {
    forall s | 0 <= s < cap && ex[s].IsTombstone()
      ensures ex[s].passing > 0
    {
      assert SlotInv(cap, keyLengths, hash, st[s], ex[s], s);
    }
  }

  /** Lookup is exact: the walk from the key's hash finds the slot holding it, and
      finds nothing for a key the table does not hold. */
  lemma FindIsExact<V>(cap: nat, keyLengths: seq<nat>, hash: (nat, seq<bv32>) -> nat,
                       st: seq<Kvp<V>>, ex: seq<ExtraStorageInfo>, vc: nat, tc: nat,
                       where: map<FullKey, nat>, fk: FullKey)
    requires Inv(cap, keyLengths, hash, st, ex, vc, tc, where) && IsQuery(keyLengths, fk)
    ensures FindFrom(cap, st, HashIdx(cap, hash, fk), fk, 0) == (if fk in where then Some(where[fk]) else None)
  {
    if fk in where {
      var s := where[fk];
      var n := ex[s].ProbesUsed();
      assert SlotInv(cap, keyLengths, hash, st[s], ex[s], s);
      FindReaches(cap, keyLengths, hash, st, ex, vc, tc, where, fk, 0);
    } else {
      FindMisses(cap, keyLengths, hash, st, ex, vc, tc, where, fk, 0);
    }
  }

  /** A slot matching a query holds that full key as a valid entry. */
  lemma MatchIsEntry<V>(cap: nat, keyLengths: seq<nat>, hash: (nat, seq<bv32>) -> nat,
                        st: seq<Kvp<V>>, ex: seq<ExtraStorageInfo>, vc: nat, tc: nat,
                        where: map<FullKey, nat>, fk: FullKey, t: nat)
    requires Inv(cap, keyLengths, hash, st, ex, vc, tc, where) && IsQuery(keyLengths, fk)
    requires t < cap && st[t].KeyPrefix() == fk.prefix && KeyEqual(fk.key, st[t].key)
    ensures ex[t].IsValidProbesUsed() && FullKeyOf(st[t]) == fk && fk in where && where[fk] == t
  {
    assert SlotInv(cap, keyLengths, hash, st[t], ex[t], t);
    assert st[t].IsValidType();
    assert |st[t].key| == |fk.key|;
    assert st[t].key == st[t].key[..|fk.key|];
  }

  /** At its own probe count the walk arrives at the entry's slot. */
  lemma FindArrives<V>(cap: nat, keyLengths: seq<nat>, hash: (nat, seq<bv32>) -> nat,
                       st: seq<Kvp<V>>, ex: seq<ExtraStorageInfo>, vc: nat, tc: nat,
                       where: map<FullKey, nat>, fk: FullKey)
    requires Inv(cap, keyLengths, hash, st, ex, vc, tc, where) && IsQuery(keyLengths, fk)
    requires fk in where
    ensures ex[where[fk]].ProbesUsed() < MAX_PROBING
    ensures ProbeIFrom(cap, HashIdx(cap, hash, fk), ex[where[fk]].ProbesUsed()) == where[fk]
    ensures !st[where[fk]].IsNull() && st[where[fk]].KeyPrefix() == fk.prefix && KeyEqual(fk.key, st[where[fk]].key)
  {
    var s := where[fk];
    var n := ex[s].ProbesUsed();
    assert SlotInv(cap, keyLengths, hash, st[s], ex[s], s);
    ChainArrives(cap, HashIdx(cap, hash, fk), s, n);
    assert st[s].key[..|fk.key|] == fk.key;
  }

  lemma {:induction false} FindReaches<V>(cap: nat, keyLengths: seq<nat>, hash: (nat, seq<bv32>) -> nat,
                                          st: seq<Kvp<V>>, ex: seq<ExtraStorageInfo>, vc: nat, tc: nat,
                                          where: map<FullKey, nat>, fk: FullKey, j: nat)
    requires Inv(cap, keyLengths, hash, st, ex, vc, tc, where) && IsQuery(keyLengths, fk)
    requires fk in where && j <= ex[where[fk]].ProbesUsed() && j < MAX_PROBING
    ensures FindFrom(cap, st, HashIdx(cap, hash, fk), fk, j) == Some(where[fk])
    decreases ex[where[fk]].ProbesUsed() - j
  {
    var s := where[fk];
    var n := ex[s].ProbesUsed();
    FindArrives(cap, keyLengths, hash, st, ex, vc, tc, where, fk);
    if j < n {
      FindPassesOver(cap, keyLengths, hash, st, ex, vc, tc, where, fk, j);
      FindReaches(cap, keyLengths, hash, st, ex, vc, tc, where, fk, j + 1);
    }
  }

  /** Before its own slot, the entry's chain crosses only slots that are not null
      and do not match the key. */
  lemma FindPassesOver<V>(cap: nat, keyLengths: seq<nat>, hash: (nat, seq<bv32>) -> nat,
                          st: seq<Kvp<V>>, ex: seq<ExtraStorageInfo>, vc: nat, tc: nat,
                          where: map<FullKey, nat>, fk: FullKey, j: nat)
    requires Inv(cap, keyLengths, hash, st, ex, vc, tc, where) && IsQuery(keyLengths, fk)
    requires fk in where && j < ex[where[fk]].ProbesUsed()
    ensures var t := ProbeIFrom(cap, HashIdx(cap, hash, fk), j);
            !st[t].IsNull() && !(st[t].KeyPrefix() == fk.prefix && KeyEqual(fk.key, st[t].key))
  {
    var s := where[fk];
    var n := ex[s].ProbesUsed();
    assert SlotInv(cap, keyLengths, hash, st[s], ex[s], s);
    var t := ProbeIFrom(cap, HashIdx(cap, hash, fk), j);
    assert t != s;
    ChainSlotNotNull(cap, keyLengths, hash, st, ex, vc, tc, where, s, j);
    if st[t].KeyPrefix() == fk.prefix && KeyEqual(fk.key, st[t].key) {
      MatchIsEntry(cap, keyLengths, hash, st, ex, vc, tc, where, fk, t);
    }
  }

  lemma {:induction false} FindMisses<V>(cap: nat, keyLengths: seq<nat>, hash: (nat, seq<bv32>) -> nat,
                                         st: seq<Kvp<V>>, ex: seq<ExtraStorageInfo>, vc: nat, tc: nat,
                                         where: map<FullKey, nat>, fk: FullKey, j: nat)
    requires Inv(cap, keyLengths, hash, st, ex, vc, tc, where) && IsQuery(keyLengths, fk)
    requires fk !in where && j <= MAX_PROBING
    ensures FindFrom(cap, st, HashIdx(cap, hash, fk), fk, j) == None
    decreases MAX_PROBING - j
  {
    if j < MAX_PROBING {
      var t := ProbeIFrom(cap, HashIdx(cap, hash, fk), j);
      if !st[t].IsNull() && st[t].KeyPrefix() == fk.prefix && KeyEqual(fk.key, st[t].key) {
        MatchIsEntry(cap, keyLengths, hash, st, ex, vc, tc, where, fk, t);
        assert false;
      }
      FindMisses(cap, keyLengths, hash, st, ex, vc, tc, where, fk, j + 1);
    }
  }

  /** Conservation: the passing counts add up to the probes used by all entries. */
  lemma Conservation<V>(cap: nat, keyLengths: seq<nat>, hash: (nat, seq<bv32>) -> nat,
                        st: seq<Kvp<V>>, ex: seq<ExtraStorageInfo>, vc: nat, tc: nat,
                        where: map<FullKey, nat>)
    requires Inv(cap, keyLengths, hash, st, ex, vc, tc, where)
    ensures SumPassing(ex) == SumProbesUsed(ex)
  {
    SumPassingIsHits(cap, ex, cap);
    HitsBelowIsProbesUsed(cap, ex, cap);
    assert ex[..cap] == ex;
  }

  function SumPassing(ex: seq<ExtraStorageInfo>): nat
  {
    if ex == [] then 0 else SumPassing(ex[..|ex| - 1]) + ex[|ex| - 1].passing
  }

  function SumProbesUsed(ex: seq<ExtraStorageInfo>): nat
  {
    if ex == [] then 0
    else SumProbesUsed(ex[..|ex| - 1]) + (if ex[|ex| - 1].IsValidProbesUsed() then ex[|ex| - 1].ProbesUsed() else 0)
  }

  /** The hits of slots 0 .. k-1 from the chains of entries 0 .. m-1, summed. */
  ghost function HitsBelow(cap: nat, ex: seq<ExtraStorageInfo>, m: nat, k: nat): nat
    requires cap > 0 && m <= |ex|
  {
    if k == 0 then 0 else HitsBelow(cap, ex, m, k - 1) + HitsUpTo(cap, ex, m, k - 1)
  }

  /** The crossings of slots 0 .. k-1 by one entry's chain, summed. */
  ghost function ChainBelow(cap: nat, e: ExtraStorageInfo, t: nat, k: nat): nat
    requires cap > 0
  {
    if k == 0 then 0 else ChainBelow(cap, e, t, k - 1) + ChainHits(cap, e, t, k - 1)
  }

  lemma {:induction false} SumPassingIsHits(cap: nat, ex: seq<ExtraStorageInfo>, k: nat)
    requires cap > 0 && k <= |ex| && Accounted(cap, ex)
    ensures SumPassing(ex[..k]) == HitsBelow(cap, ex, |ex|, k)
  {
    if k > 0 {
      SumPassingIsHits(cap, ex, k - 1);
      assert ex[..k][..k - 1] == ex[..k - 1];
      assert ex[k - 1].passing == Hits(cap, ex, k - 1);
    }
  }

  lemma {:induction false} HitsBelowStep(cap: nat, ex: seq<ExtraStorageInfo>, m: nat, k: nat)
    requires cap > 0 && 0 < m <= |ex|
    ensures HitsBelow(cap, ex, m, k) == HitsBelow(cap, ex, m - 1, k) + ChainBelow(cap, ex[m - 1], m - 1, k)
  {
    if k > 0 {
      HitsBelowStep(cap, ex, m, k - 1);
    }
  }

  lemma {:induction false} HitsBelowOfNone(cap: nat, ex: seq<ExtraStorageInfo>, k: nat)
    requires cap > 0
    ensures HitsBelow(cap, ex, 0, k) == 0
  {
    if k > 0 {
      HitsBelowOfNone(cap, ex, k - 1);
    }
  }

  lemma {:induction false} ChainBelowOfEmpty(cap: nat, e: ExtraStorageInfo, t: nat, k: nat)
    requires cap > 0 && !e.IsValidProbesUsed()
    ensures ChainBelow(cap, e, t, k) == 0
  {
    if k > 0 {
      ChainBelowOfEmpty(cap, e, t, k - 1);
    }
  }

  lemma {:induction false} ChainBelowIsCrossings(cap: nat, e: ExtraStorageInfo, t: nat, k: nat)
    requires cap > 0 && e.IsValidProbesUsed()
    ensures ChainBelow(cap, e, t, k) == CrossingsBelow(cap, BaseFromProbeI(cap, t, e.ProbesUsed()), 0, e.ProbesUsed(), k)
  {
    if k > 0 {
      ChainBelowIsCrossings(cap, e, t, k - 1);
    }
  }

  /** Each entry's chain contributes exactly its probes_used crossings. */
  lemma ChainTotal(cap: nat, e: ExtraStorageInfo, t: nat)
    requires cap > 0
    ensures ChainBelow(cap, e, t, cap) == if e.IsValidProbesUsed() then e.ProbesUsed() else 0
  {
    if e.IsValidProbesUsed() {
      ChainBelowIsCrossings(cap, e, t, cap);
      CrossingsTotal(cap, BaseFromProbeI(cap, t, e.ProbesUsed()), 0, e.ProbesUsed());
    } else {
      ChainBelowOfEmpty(cap, e, t, cap);
    }
  }

  lemma {:induction false} HitsBelowIsProbesUsed(cap: nat, ex: seq<ExtraStorageInfo>, m: nat)
    requires cap > 0 && m <= |ex|
    ensures HitsBelow(cap, ex, m, cap) == SumProbesUsed(ex[..m])
  {
    if m == 0 {
      HitsBelowOfNone(cap, ex, cap);
    } else {
      HitsBelowIsProbesUsed(cap, ex, m - 1);
      HitsBelowStep(cap, ex, m, cap);
      ChainTotal(cap, ex[m - 1], m - 1);
      assert ex[..m][..m - 1] == ex[..m - 1];
    }
  }
}
