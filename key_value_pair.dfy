/** compiler/key_value_pair.h: the cache-line aligned slot of the probe table, a
    header (type id + constructed flag) followed by the key elements and, at an
    aligned offset, the value of the type the id names.

    The header and key-value pair are small structs updated in place; they are
    modelled as values (`Header`, `Kvp`) with one function per state transition,
    which is what the table stores in its arrays, and as the class `KeyValuePair`
    whose methods perform those transitions on a standalone pair. The value is
    abstract (type parameter V, tagged by the header's type id); the per-type
    copy/move/destroy calls made through the vtables are reported as `ValueOp`s. */
module KeyValuePairs {
  import opened Wrappers
  import Utils

  /** uint8_t(-1) and uint8_t(-2). */
  const NULL: nat := 255
  const TOMBSTONE: nat := 254

  /** sizeof(KeyValueHeader): two uint8_t fields in an alignas(8) struct. */
  const HEADER_SIZE: nat := 8
  const CACHE_LINE_LEN: nat := 64
  /** The key element type is the engine's uint32_t id. */
  const KEY_ELEMENT_SIZE: nat := 4

  /** The value of `x` converted to uint8_t. */
  function AsUint8(x: int): (r: nat)
    ensures r < 256 && (r - x) % 256 == 0
  {
    x % 256
  }

  lemma SentinelsAsUint8()
    ensures NULL == AsUint8(-1) && TOMBSTONE == AsUint8(-2)
  {
  }

  // ---------------------------------------------------------------------------
  // KeyValueHeader

  datatype Header = Header(typeId: nat, constructed: bool)
  {
    predicate IsNull() { typeId == NULL }
    predicate IsTombstone() { typeId == TOMBSTONE }
    predicate IsValidType() { !(typeId == NULL || typeId == TOMBSTONE) }
  }

  /** A header starts null and unconstructed. */
  const DEFAULT_HEADER := Header(NULL, false)

  /** Exactly one of null, tombstone and valid holds. */
  lemma HeaderStatesExclusive(h: Header)
    ensures h.IsNull() != h.IsTombstone() || (!h.IsNull() && !h.IsTombstone())
    ensures h.IsValidType() <==> !h.IsNull() && !h.IsTombstone()
    ensures DEFAULT_HEADER.IsNull() && !DEFAULT_HEADER.constructed
  {
  }

  function HeaderSetConstructed(h: Header, value: bool): (r: Header)
    requires h.IsValidType()
    ensures r.typeId == h.typeId && r.constructed == value
  {
    h.(constructed := value)
  }

  function HeaderDestructToTombstone(h: Header): (r: Header)
    ensures r.IsTombstone() && !r.constructed
  {
    Header(TOMBSTONE, false)
  }

  function HeaderTombstoneToNull(h: Header): (r: Header)
    requires h.IsTombstone()
    ensures r.IsNull() && r.constructed == h.constructed
  {
    h.(typeId := NULL)
  }

  function HeaderSetToTypeId(h: Header, idx: nat): (r: Header)
    requires !h.IsValidType()
    requires idx != NULL && idx != TOMBSTONE
    ensures r.IsValidType() && r.typeId == idx && r.constructed == h.constructed
  {
    h.(typeId := idx)
  }

  // ---------------------------------------------------------------------------
  // Layout: offset_for_value and length_for_key_and_value

  /** What the layout needs of a value type Q: Q::accompanying_key_n, sizeof(Q)
      and alignof(Q). */
  datatype TypeInfo = TypeInfo(keyN: nat, size: nat, align: nat)

  /** round_length_to_alignment's own requirement, with base alignment 64. */
  predicate AlignmentFits(t: TypeInfo)
  {
    t.align > 0 && CACHE_LINE_LEN % t.align == 0
  }

  /** offset_for_value<Q>(): where Q starts in the buffer after the header. The
      value comes after the key, with less than alignof(Q) bytes of padding, and
      header + offset is a multiple of alignof(Q). */
  function OffsetForValue(t: TypeInfo): (r: nat)
    requires AlignmentFits(t)
    ensures KEY_ELEMENT_SIZE * t.keyN <= r < KEY_ELEMENT_SIZE * t.keyN + t.align
    ensures (HEADER_SIZE + r) % t.align == 0
  {
    Utils.RoundLengthToAlignment(KEY_ELEMENT_SIZE * t.keyN, t.align, HEADER_SIZE, CACHE_LINE_LEN)
  }

  /** The static_assert in offset_for_value: no padding is needed between the
      header and the first key element. */
  lemma HeaderAlignsKeyElements()
    ensures HEADER_SIZE % KEY_ELEMENT_SIZE == 0
  {
  }

  /** length_for_key_and_value<Q>(): the key, the padding before the value
      (less than alignof(Q)), and the value, with the value's start aligned. */
  function LengthForKeyAndValue(t: TypeInfo): (r: nat)
    requires AlignmentFits(t)
    ensures KEY_ELEMENT_SIZE * t.keyN + t.size <= r < KEY_ELEMENT_SIZE * t.keyN + t.size + t.align
    ensures (HEADER_SIZE + r - t.size) % t.align == 0
  {
    OffsetForValue(t) + t.size
  }

  predicate AllAlignmentsFit(types: seq<TypeInfo>)
  {
    forall i :: 0 <= i < |types| ==> AlignmentFits(types[i])
  }

  function KeyAndValueLengths(types: seq<TypeInfo>): (r: seq<nat>)
    requires AllAlignmentsFit(types)
    ensures |r| == |types|
    ensures forall i :: 0 <= i < |types| ==> r[i] == LengthForKeyAndValue(types[i])
  {
    seq(|types|, i requires 0 <= i < |types| => LengthForKeyAndValue(types[i]))
  }

  /** max_len_key_and_value: the length of as_u8_array. */
  function MaxLenKeyAndValue(types: seq<TypeInfo>): nat
    requires AllAlignmentsFit(types)
  {
    Utils.Max(KeyAndValueLengths(types))
  }

  /** Every type's key and value fit in the buffer, and the buffer is no longer
      than the longest of them needs. */
  lemma BufferFitsEveryType(types: seq<TypeInfo>)
    requires AllAlignmentsFit(types)
    ensures forall i :: 0 <= i < |types| ==>
      OffsetForValue(types[i]) + types[i].size <= MaxLenKeyAndValue(types)
    ensures types != [] ==> exists i :: 0 <= i < |types| && LengthForKeyAndValue(types[i]) == MaxLenKeyAndValue(types)
  {
    var lens := KeyAndValueLengths(types);
    Utils.MaxIsGreatest(lens);
    if types != [] {
      var i :| 0 <= i < |lens| && lens[i] == Utils.Max(lens);
      assert LengthForKeyAndValue(types[i]) == MaxLenKeyAndValue(types);
    }
  }

  /** key_length_table: Qs::accompanying_key_n in type order. */
  function KeyLengthTable(types: seq<TypeInfo>): (r: seq<nat>)
    ensures |r| == |types|
    ensures forall i :: 0 <= i < |types| ==> r[i] == types[i].keyN
  {
    seq(|types|, i requires 0 <= i < |types| => types[i].keyN)
  }

  // ---------------------------------------------------------------------------
  // KeyValuePair as a value

  /** The per-type function called through dtor_vtable, mvctor_vtable or
      cpctor_vtable, or the in-place construction of a new value. */
  datatype ValueOp = Destroy(typeId: nat) | MoveConstruct(typeId: nat) | CopyConstruct(typeId: nat)
                   | Construct(typeId: nat)

  /** The state of a KeyValuePair: its header, the key elements at the front of
      as_u8_array, and the value at offset_for_value (Some exactly when it has been
      constructed). */
  datatype Kvp<V> = Kvp(header: Header, key: seq<bv32>, value: Option<V>)
  {
    predicate IsNull() { header.IsNull() }
    predicate IsTombstone() { header.IsTombstone() }
    predicate IsValidType() { header.IsValidType() }
    /** key_prefix() is an alias of the type id. */
    function KeyPrefix(): nat { header.typeId }
    /** is_type<Q>() for the type with index q. */
    predicate IsType(q: nat) { header.typeId == q }
  }

  /** The constructed flag tracks whether a live value is present, and only a
      valid type can have one. */
  predicate Consistent<V>(kvp: Kvp<V>)
  {
    (kvp.header.constructed <==> kvp.value.Some?) && (kvp.header.constructed ==> kvp.IsValidType())
  }

  /** The default constructor: null and unconstructed. */
  function Empty<V>(): (r: Kvp<V>)
    ensures r.IsNull() && !r.header.constructed && Consistent(r)
  {
    Kvp(DEFAULT_HEADER, [], None)
  }

  /** The call the copy or move constructor makes: one per-type copy/move, and
      only when the source holds a constructed value. */
  function TransferOp<V>(other: Kvp<V>, move: bool): (r: Option<ValueOp>)
    ensures r.Some? <==> other.IsValidType() && other.header.constructed
    ensures r.Some? ==> r.value == (if move then MoveConstruct(other.header.typeId) else CopyConstruct(other.header.typeId))
  {
    if other.IsValidType() && other.header.constructed then
      Some(if move then MoveConstruct(other.header.typeId) else CopyConstruct(other.header.typeId))
    else None
  }

  /** The call the destructor makes: the value's destructor, only when there is one. */
  function DestroyOp<V>(kvp: Kvp<V>): (r: Option<ValueOp>)
    ensures r.Some? <==> kvp.IsValidType() && kvp.header.constructed
    ensures r.Some? ==> r.value == Destroy(kvp.header.typeId)
  {
    if kvp.IsValidType() && kvp.header.constructed then Some(Destroy(kvp.header.typeId)) else None
  }

  /** operator=(self_t&&): only into a slot that holds no valid entry; the header
      and all bytes are taken from `other` (the moved-from value is left in
      `other`, whose own header still describes it). */
  function MoveAssign<V>(dest: Kvp<V>, other: Kvp<V>): (r: Kvp<V>)
    requires !dest.IsValidType()
    ensures r == other
  {
    other
  }

  /** operator=(self_t&&) is the move constructor on a slot that holds no
      entry: nothing of the destination survives, so moving into any two null or
      tombstone slots gives the same pair, the one the move constructor builds. */
  lemma MoveAssignIsMoveConstruction<V>(d1: Kvp<V>, d2: Kvp<V>, other: Kvp<V>)
    requires !d1.IsValidType() && !d2.IsValidType()
    ensures MoveAssign(d1, other) == MoveAssign(d2, other) == other
  {
  }

  /** destruct_to_tombstone(): the header becomes a tombstone and the value is
      gone; the key bytes stay in the buffer. */
  function DestructToTombstone<V>(kvp: Kvp<V>): (r: Kvp<V>)
    ensures r.IsTombstone() && !r.header.constructed && r.value.None? && Consistent(r)
    ensures r.key == kvp.key
  {
    Kvp(HeaderDestructToTombstone(kvp.header), kvp.key, None)
  }

  /** tombstone_to_null(): only from a tombstone. */
  function TombstoneToNull<V>(kvp: Kvp<V>): (r: Kvp<V>)
    requires kvp.IsTombstone()
    ensures r.IsNull() && r.key == kvp.key && r.value == kvp.value
    ensures Consistent(kvp) ==> Consistent(r) && !r.header.constructed
  {
    kvp.(header := HeaderTombstoneToNull(kvp.header))
  }

  /** The requirements of placement_new_key. */
  predicate CanPlaceKey<V>(kvp: Kvp<V>, typeId: nat, key: seq<bv32>, keyLengths: seq<nat>)
  {
    !kvp.IsValidType() && typeId != NULL && typeId != TOMBSTONE
    && typeId < |keyLengths| && |key| == keyLengths[typeId]
  }

  /** placement_new_key(): a null or tombstone slot takes the type id and the key;
      the value is not constructed yet. */
  function PlacementNewKey<V>(kvp: Kvp<V>, typeId: nat, key: seq<bv32>, keyLengths: seq<nat>): (r: Kvp<V>)
    requires CanPlaceKey(kvp, typeId, key, keyLengths)
    requires Consistent(kvp)
    ensures r.IsValidType() && r.IsType(typeId) && r.key == key
    ensures !r.header.constructed && r.value.None? && Consistent(r)
  {
    Kvp(HeaderSetToTypeId(kvp.header, typeId), key, kvp.value)
  }

  /** placement_new_value<Q>(args): only for the slot's own type and only once. */
  function PlacementNewValue<V>(kvp: Kvp<V>, q: nat, v: V): (r: Kvp<V>)
    requires kvp.IsValidType() && kvp.IsType(q) && !kvp.header.constructed
    ensures r.header.constructed && r.value == Some(v) && Consistent(r)
    ensures r.IsType(q) && r.key == kvp.key
  {
    Kvp(HeaderSetConstructed(kvp.header, true), kvp.key, Some(v))
  }

  /** get<Q>() / cget<Q>(): the value, for the slot's own type once constructed. */
  function Get<V>(kvp: Kvp<V>, q: nat): V
    requires kvp.IsType(q) && kvp.header.constructed && Consistent(kvp)
  {
    kvp.value.value
  }

  /** get_key_before<Q>() / cget_key_before<Q>(): the first accompanying_key_n
      elements of the buffer. */
  function KeyBefore<V>(kvp: Kvp<V>, q: nat, keyLengths: seq<nat>): (r: seq<bv32>)
    requires kvp.IsType(q) && q < |keyLengths| && keyLengths[q] <= |kvp.key|
    ensures |r| == keyLengths[q] && r == kvp.key[..keyLengths[q]]
  {
    kvp.key[..keyLengths[q]]
  }

  /** [cbegin_key(), cend_key()): as many elements as the header's type has. */
  function KeyRange<V>(kvp: Kvp<V>, keyLengths: seq<nat>): (r: seq<bv32>)
    requires kvp.header.typeId < |keyLengths| && keyLengths[kvp.header.typeId] <= |kvp.key|
    ensures |r| == keyLengths[kvp.header.typeId]
    ensures kvp.IsValidType() ==> r == KeyBefore(kvp, kvp.header.typeId, keyLengths)
  {
    kvp.key[..keyLengths[kvp.header.typeId]]
  }

  /** Two-phase construction: after placing key and value, the slot reads back
      the same type, key and value. */
  lemma TwoPhaseConstruction<V>(kvp: Kvp<V>, typeId: nat, key: seq<bv32>, keyLengths: seq<nat>, v: V)
    requires CanPlaceKey(kvp, typeId, key, keyLengths) && Consistent(kvp)
    ensures var withKey := PlacementNewKey(kvp, typeId, key, keyLengths);
            var full := PlacementNewValue(withKey, typeId, v);
            Get(full, typeId) == v && KeyBefore(full, typeId, keyLengths) == key
            && KeyRange(full, keyLengths) == key && DestroyOp(full) == Some(Destroy(typeId))
  {
    var full := PlacementNewValue(PlacementNewKey(kvp, typeId, key, keyLengths), typeId, v);
    assert full.key[..keyLengths[typeId]] == key;
  }

  /** A slot goes back to null only through a tombstone, and is then free to take
      a new key. */
  lemma DeleteCycle<V>(kvp: Kvp<V>, keyLengths: seq<nat>, typeId: nat, key: seq<bv32>)
    requires typeId != NULL && typeId != TOMBSTONE && typeId < |keyLengths| && |key| == keyLengths[typeId]
    ensures var t := DestructToTombstone(kvp);
            var n := TombstoneToNull(t);
            CanPlaceKey(t, typeId, key, keyLengths) && CanPlaceKey(n, typeId, key, keyLengths)
            && DestroyOp(t).None? && DestroyOp(n).None?
  {
  }

  // ---------------------------------------------------------------------------
  // KeyValuePair as an object

  /** One KeyValuePair with its buffer; `dispatched` records every per-type call
      made on it, in order. */
  class KeyValuePair<V> {
    var header: Header
    var key: seq<bv32>
    var value: Option<V>
    var dispatched: seq<ValueOp>
    const keyLengths: seq<nat>

    function State(): Kvp<V>
      reads this
    {
      Kvp(header, key, value)
    }

    ghost predicate Valid()
      reads this
    {
      Consistent(State())
    }

    /** KeyValuePair(): null and unconstructed. */
    constructor (keyLengths: seq<nat>)
      ensures Valid() && State() == Empty() && dispatched == []
      ensures this.keyLengths == keyLengths
    {
      header := DEFAULT_HEADER;
      key := [];
      value := None;
      dispatched := [];
      this.keyLengths := keyLengths;
    }

    /** KeyValuePair(self_t const&) and KeyValuePair(self_t&&): header and bytes
        from `other`, then the per-type copy or move when other holds a value. */
    constructor Transfer(other: KeyValuePair<V>, move: bool)
      ensures State() == old(other.State()) && keyLengths == other.keyLengths
      ensures dispatched == (if TransferOp(old(other.State()), move).Some? then [TransferOp(old(other.State()), move).value] else [])
    {
      header := other.header;
      key := other.key;
      value := other.value;
      keyLengths := other.keyLengths;
      var op := TransferOp(other.State(), move);
      dispatched := if op.Some? then [op.value] else [];
    }

    /** ~KeyValuePair(): the value's destructor, if there is a value. */
    method Destruct()
      modifies this
      ensures State() == old(State())
      ensures dispatched == old(dispatched) + (if DestroyOp(State()).Some? then [DestroyOp(State()).value] else [])
    {
      var op := DestroyOp(State());
      if op.Some? {
        dispatched := dispatched + [op.value];
      }
    }

    method MoveAssignFrom(other: KeyValuePair<V>)
      requires !header.IsValidType()
      modifies this
      ensures State() == MoveAssign(old(State()), old(other.State()))
      ensures dispatched == old(dispatched) + (if TransferOp(old(other.State()), true).Some? then [TransferOp(old(other.State()), true).value] else [])
    {
      header := other.header;
      key := other.key;
      value := other.value;
      var op := TransferOp(other.State(), true);
      if op.Some? {
        dispatched := dispatched + [op.value];
      }
    }

    method DestructToTombstoneInPlace()
      modifies this
      ensures State() == DestructToTombstone(old(State()))
      ensures dispatched == old(dispatched) + (if DestroyOp(old(State())).Some? then [DestroyOp(old(State())).value] else [])
    {
      var op := DestroyOp(State());
      if op.Some? {
        dispatched := dispatched + [op.value];
      }
      value := None;
      header := HeaderDestructToTombstone(header);
    }

    method TombstoneToNullInPlace()
      requires header.IsTombstone()
      modifies this
      ensures State() == TombstoneToNull(old(State())) && dispatched == old(dispatched)
    {
      header := HeaderTombstoneToNull(header);
    }

    method PlacementNewKeyInPlace(typeId: nat, keyIn: seq<bv32>)
      requires Valid() && CanPlaceKey(State(), typeId, keyIn, keyLengths)
      modifies this
      ensures Valid() && State() == PlacementNewKey(old(State()), typeId, keyIn, keyLengths)
      ensures dispatched == old(dispatched)
    {
      header := HeaderSetToTypeId(header, typeId);
      key := keyIn;
    }

    method PlacementNewValueInPlace(q: nat, v: V)
      requires header.IsValidType() && header.typeId == q && !header.constructed
      modifies this
      ensures Valid() && State() == PlacementNewValue(old(State()), q, v)
      ensures dispatched == old(dispatched) + [Construct(q)]
    {
      header := HeaderSetConstructed(header, true);
      value := Some(v);
      dispatched := dispatched + [Construct(q)];
    }

    method GetValue(q: nat) returns (v: V)
      requires Valid() && header.typeId == q && header.constructed
      ensures v == Get(State(), q)
    {
      v := value.value;
    }
  }
}
