/** The glyph rows and counts that operator<< of engine/unordered_map.h writes for
    the first slots of a table, as functions of snapshots of the two arrays. */
module TableDumps {
  import opened KeyValuePairs
  import opened ProbeTables

  /** head_size: at most this many slots are drawn per row. */
  const HEAD_SIZE: nat := 64

  function HeadLength(cap: nat): (r: nat)
    ensures r <= cap && r <= HEAD_SIZE && (r == cap || r == HEAD_SIZE)
  {
    if cap < HEAD_SIZE then cap else HEAD_SIZE
  }

  /** "..." after a row when slots were left out of it. */
  function Ellipsis(cap: nat): string
  {
    if cap > HEAD_SIZE then "..." else ""
  }

  /** The store row's glyph for slot i: '-' null, 't' tombstone, '#' an entry in
      the slot its key hashes to, '<' an entry that probed further. */
  function StoreGlyph<V>(cap: nat, hash: (nat, seq<bv32>) -> nat, kvp: Kvp<V>, i: nat): char
    requires cap > 0
  {
    if kvp.IsNull() then '-'
    else if kvp.IsTombstone() then 't'
    else if HashIdx(cap, hash, FullKeyOf(kvp)) == i then '#'
    else '<'
  }

  /** The extra row's glyph: the same classes, read from the metadata, with '#'
      for probes_used == 0. */
  function ExtraGlyph(e: ExtraStorageInfo): char
  {
    if e.IsNull() then '-'
    else if e.IsTombstone() then 't'
    else if e.ProbesUsed() == 0 then '#'
    else '<'
  }

  /** The passing row's glyph: '-' for no chain, the digit for 1 to 9, '+' above. */
  function PassingGlyph(passing: nat): (r: char)
    ensures r == '-' <==> passing == 0
    ensures 0 < passing < 10 ==> r as int - '0' as int == passing
    ensures passing >= 10 <==> r == '+'
  {
    if passing == 0 then '-'
    else if passing < 10 then ('0' as int + passing) as char
    else '+'
  }

  /** The glyphs of the first n slots, in slot order. */
  function StoreGlyphs<V>(cap: nat, hash: (nat, seq<bv32>) -> nat, st: seq<Kvp<V>>, n: nat): (r: string)
    requires 0 < cap && n <= |st|
    ensures |r| == n && forall i :: 0 <= i < n ==> r[i] == StoreGlyph(cap, hash, st[i], i)
  {
    seq(n, i requires 0 <= i < n => StoreGlyph(cap, hash, st[i], i))
  }

  function ExtraGlyphs(ex: seq<ExtraStorageInfo>, n: nat): (r: string)
    requires n <= |ex|
    ensures |r| == n && forall i :: 0 <= i < n ==> r[i] == ExtraGlyph(ex[i])
  {
    seq(n, i requires 0 <= i < n => ExtraGlyph(ex[i]))
  }

  function PassingGlyphs(ex: seq<ExtraStorageInfo>, n: nat): (r: string)
    requires n <= |ex|
    ensures |r| == n && forall i :: 0 <= i < n ==> r[i] == PassingGlyph(ex[i].passing)
  {
    seq(n, i requires 0 <= i < n => PassingGlyph(ex[i].passing))
  }

  /** "store head:": the first head_size slots' glyphs, then "..." if there are more. */
  function StoreRow<V>(cap: nat, hash: (nat, seq<bv32>) -> nat, st: seq<Kvp<V>>): string
    requires 0 < cap == |st|
  {
    StoreGlyphs(cap, hash, st, HeadLength(cap)) + Ellipsis(cap)
  }

  /** "extra head:". */
  function ExtraRow(cap: nat, ex: seq<ExtraStorageInfo>): string
    requires cap == |ex|
  {
    ExtraGlyphs(ex, HeadLength(cap)) + Ellipsis(cap)
  }

  /** The passing counts under "extra head:". */
  function PassingRow(cap: nat, ex: seq<ExtraStorageInfo>): string
    requires cap == |ex|
  {
    PassingGlyphs(ex, HeadLength(cap)) + Ellipsis(cap)
  }

  /** A slot in its invariant gets the same glyph in both rows: an entry sits at
      its hashed slot exactly when it used no probe step, since its chain does not
      pass its own slot before the last step. */
  lemma SlotGlyphsAgree<V>(cap: nat, keyLengths: seq<nat>, hash: (nat, seq<bv32>) -> nat,
                           kvp: Kvp<V>, e: ExtraStorageInfo, i: nat)
    requires 0 < cap && i < cap && SlotInv(cap, keyLengths, hash, kvp, e, i)
    ensures StoreGlyph(cap, hash, kvp, i) == ExtraGlyph(e)
  {
    if e.IsValidProbesUsed() {
      var h := HashIdx(cap, hash, FullKeyOf(kvp));
      if e.ProbesUsed() == 0 {
        StepZero(cap, i);
      } else {
        StepZero(cap, h);
      }
    }
  }

  /** The store row and the extra row draw the same picture of a table that keeps
      its invariant. */
  lemma StoreRowIsExtraRow<V>(cap: nat, keyLengths: seq<nat>, hash: (nat, seq<bv32>) -> nat,
                              st: seq<Kvp<V>>, ex: seq<ExtraStorageInfo>,
                              vc: nat, tc: nat, where: map<FullKey, nat>)
    requires cap > 0 && Inv(cap, keyLengths, hash, st, ex, vc, tc, where)
    ensures StoreRow(cap, hash, st) == ExtraRow(cap, ex)
  {
    var n := HeadLength(cap);
    var a, b := StoreGlyphs(cap, hash, st, n), ExtraGlyphs(ex, n);
    forall i | 0 <= i < n
      ensures a[i] == b[i]
    {
      assert SlotInv(cap, keyLengths, hash, st[i], ex[i], i);
      SlotGlyphsAgree(cap, keyLengths, hash, st[i], ex[i], i);
    }
  }

  // ---------------------------------------------------------------------------
  // The "null:" line

  function CountNull(ex: seq<ExtraStorageInfo>): (r: nat)
    ensures r <= |ex|
  {
    if ex == [] then 0 else CountNull(ex[..|ex| - 1]) + (if ex[|ex| - 1].IsNull() then 1 else 0)
  }

  /** Every slot is null, a tombstone or valid. */
  lemma {:induction false} SlotClassesPartition(ex: seq<ExtraStorageInfo>)
    ensures CountNull(ex) + CountTombstones(ex) + CountValid(ex) == |ex|
  {
    if ex != [] {
      SlotClassesPartition(ex[..|ex| - 1]);
    }
  }

  /** `capacity_ - tombstone_count - valid_count` on size_t. */
  function PrintedNullCount(cap: nat, tc: nat, vc: nat): (r: nat)
    ensures r < SIZE_T_MOD
    ensures tc + vc <= cap < SIZE_T_MOD ==> r == cap - tc - vc
    ensures tc + vc > cap && tc + vc - cap <= SIZE_T_MOD ==> r == SIZE_T_MOD - (tc + vc - cap)
  {
    (cap - tc - vc) % SIZE_T_MOD
  }

  /** With an exact tombstone_count the "null:" line is the number of null slots;
      every tombstone counted but no longer present makes it one too small. */
  lemma PrintedNullCountOfInv<V>(cap: nat, keyLengths: seq<nat>, hash: (nat, seq<bv32>) -> nat,
                                  st: seq<Kvp<V>>, ex: seq<ExtraStorageInfo>,
                                  vc: nat, tc: nat, where: map<FullKey, nat>)
    requires cap > 0 && Inv(cap, keyLengths, hash, st, ex, vc, tc, where) && cap < SIZE_T_MOD
    requires tc <= cap - vc
    ensures PrintedNullCount(cap, tc, vc) + (tc - CountTombstones(ex)) == CountNull(ex)
  {
    SlotClassesPartition(ex);
  }
}
