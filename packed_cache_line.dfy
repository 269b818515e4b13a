/** packed_cache_line of compiler/packed_cache_line.h: a flag, then in the
    remaining bytes of a 64-byte line an array of ArrT whose length depends on the
    stored type, then the value itself with no padding in between. Types are
    named by the template pack Qs; sizes are parameters. The per-type functions
    reached through the vtables are recorded as ValueOps. */
module PackedCacheLines {
  import opened KeyValuePairs
  import Utils

  /** cache_line_len_bytes. */
  const CACHE_LINE_LEN_BYTES: nat := 64

  /** What the layout needs of one Q: its name in Qs, Q::accompanying_arr_n and
      sizeof(Q). */
  datatype PclType = PclType(name: string, arrN: nat, size: nat)

  /** The byte sizes of flag_t and ArrT, and sizeof(std::array<ArrT, 0>): an
      empty array still takes some bytes, as every C++ object does, and how many
      is up to the standard library. */
  datatype Sizes = Sizes(flagSize: nat, elemSize: nat, emptyArrSize: nat)

  /** Sizes a C++ implementation can have: ArrT and an empty array are not empty. */
  predicate SizesOk(sz: Sizes)
  {
    sz.elemSize > 0 && sz.emptyArrSize > 0
  }

  /** sizeof(std::array<ArrT, n>). */
  function ArrayBytes(sz: Sizes, n: nat): nat
  {
    if n == 0 then sz.emptyArrSize else sz.elemSize * n
  }

  /** is_small_enough<flag_t, ArrT, Q, max>(). */
  predicate IsSmallEnough(sz: Sizes, t: PclType, max: nat)
  {
    sz.flagSize + t.size + ArrayBytes(sz, t.arrN) <= max
  }

  /** The static_assert over every Q in Qs. */
  predicate AllSmallEnough(sz: Sizes, types: seq<PclType>)
  {
    forall i :: 0 <= i < |types| ==> IsSmallEnough(sz, types[i], CACHE_LINE_LEN_BYTES)
  }

  /** The length of as_u8_array. */
  function PayloadBytes(sz: Sizes): nat
  {
    if sz.flagSize <= CACHE_LINE_LEN_BYTES then CACHE_LINE_LEN_BYTES - sz.flagSize else 0
  }

  /** max_arr_len: the most ArrT elements that fit after the flag. */
  function MaxArrLen(sz: Sizes): (r: nat)
    requires sz.elemSize > 0 && sz.flagSize <= CACHE_LINE_LEN_BYTES
    ensures r * sz.elemSize <= PayloadBytes(sz) < (r + 1) * sz.elemSize
  {
    (CACHE_LINE_LEN_BYTES - sz.flagSize) / sz.elemSize
  }

  /** accompanying_arr_n_table: Qs::accompanying_arr_n in type order. */
  function ArrNTable(types: seq<PclType>): (r: seq<nat>)
    ensures |r| == |types| && forall i :: 0 <= i < |types| ==> r[i] == types[i].arrN
  {
    seq(|types|, i requires 0 <= i < |types| => types[i].arrN)
  }

  function Names(types: seq<PclType>): (r: seq<string>)
    ensures |r| == |types| && forall i :: 0 <= i < |types| ==> r[i] == types[i].name
  {
    seq(|types|, i requires 0 <= i < |types| => types[i].name)
  }

  /** The byte offset get<Q>() reads the value at: right after the array, with no
      alignment padding. */
  function ValueOffset(sz: Sizes, t: PclType): nat
  {
    ArrayBytes(sz, t.arrN)
  }

  /** A type that passes the static check fits: its array is no longer than
      max_arr_len, and its value ends inside as_u8_array. */
  lemma SmallEnoughFits(sz: Sizes, t: PclType)
    requires SizesOk(sz) && IsSmallEnough(sz, t, CACHE_LINE_LEN_BYTES)
    ensures t.arrN <= MaxArrLen(sz)
    ensures 0 < ValueOffset(sz, t) && ValueOffset(sz, t) + t.size <= PayloadBytes(sz)
  {
    var m := MaxArrLen(sz);
    MulMonotone(sz.elemSize, m + 1, t.arrN);
  }

  lemma MulMonotone(a: nat, x: nat, y: nat)
    ensures x <= y ==> a * x <= a * y
  {
  }

  class PackedCacheLine<A, V> {
    const types: seq<PclType>
    const sizes: Sizes
    /** flag.idx(): the position of the stored type in Qs. */
    var flag: nat
    /** The leading array of the stored type's length. */
    var arr: seq<A>
    var value: V
    /** The per-type functions called on this line, in order. */
    var dispatched: seq<ValueOp>

    ghost predicate Valid()
      reads this
    {
      SizesOk(sizes) && AllSmallEnough(sizes, types)
      && flag < |types| && |arr| == types[flag].arrN
    }

    /** is_type<Q>(): the flag is Q's position in Qs. */
    function IsType(q: string): (r: bool)
      requires q in Names(types)
      reads this
      ensures r ==> flag < |types| && types[flag].name == q
      ensures r <==> flag < |types| && types[flag].name == q && forall j :: 0 <= j < flag ==> types[j].name != q
    {
      flag == Utils.IndexOfType(q, Names(types))
    }

    /** The constructors from (arr, q) and (arr, std::move(q)): the flag is Q's
        index, the array is copied in, then Q is copy- or move-constructed. */
    constructor (types: seq<PclType>, sizes: Sizes, q: string, arrIn: seq<A>, v: V, move: bool)
      requires SizesOk(sizes) && AllSmallEnough(sizes, types) && q in Names(types)
      requires |arrIn| == types[Utils.IndexOfType(q, Names(types))].arrN
      ensures this.types == types && this.sizes == sizes && Valid()
      ensures flag == Utils.IndexOfType(q, Names(types)) && IsType(q)
      ensures arr == arrIn && value == v
      ensures dispatched == [if move then MoveConstruct(flag) else CopyConstruct(flag)]
    {
      this.types := types;
      this.sizes := sizes;
      flag := Utils.IndexOfType(q, Names(types));
      arr := arrIn;
      value := v;
      dispatched := [if move then MoveConstruct(Utils.IndexOfType(q, Names(types))) else CopyConstruct(Utils.IndexOfType(q, Names(types)))];
    }

    /** The copy and move constructors: the other line's flag, its array prefix,
        and the copy or move of its value selected through the flag. */
    constructor Transfer(other: PackedCacheLine<A, V>, move: bool)
      requires other.Valid()
      ensures types == other.types && sizes == other.sizes && Valid()
      ensures flag == other.flag && arr == other.arr && value == other.value
      ensures dispatched == [if move then MoveConstruct(flag) else CopyConstruct(flag)]
    {
      types := other.types;
      sizes := other.sizes;
      flag := other.flag;
      arr := other.arr;
      value := other.value;
      dispatched := [if move then MoveConstruct(other.flag) else CopyConstruct(other.flag)];
    }

    /** The destructor: there is no empty state, so the stored type's destructor
        always runs. */
    method Destruct()
      requires Valid()
      modifies this`dispatched
      ensures dispatched == old(dispatched) + [Destroy(flag)]
    {
      dispatched := dispatched + [Destroy(flag)];
    }

    /** get<Q>() / cget<Q>(). */
    method Get(q: string) returns (v: V)
      requires Valid() && q in Names(types) && IsType(q)
      ensures v == value
    {
      v := value;
    }

    /** get_array_before<Q>() / cget_array_before<Q>(): Q's accompanying array. */
    method GetArrayBefore(q: string) returns (a: seq<A>)
      requires Valid() && q in Names(types) && IsType(q)
      ensures a == arr
      ensures |a| == types[Utils.IndexOfType(q, Names(types))].arrN
    {
      a := arr;
    }

    /** begin_array() and end_array() as byte offsets into as_u8_array: the end is
        looked up in accompanying_arr_n_table by the flag, so the pair spans the
        stored array, and the value that follows it still fits in the line. */
    method ArrayBounds() returns (begin: nat, end: nat)
      requires Valid()
      ensures begin == 0 && end - begin == |arr| * sizes.elemSize
      ensures end + types[flag].size <= PayloadBytes(sizes)
    {
      begin := 0;
      end := ArrNTable(types)[flag] * sizes.elemSize;
      SmallEnoughFits(sizes, types[flag]);
    }
  }
}
