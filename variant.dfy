/** variant of compiler/variant.h: a const flag plus a union of the types T...,
    with the destructor, copy and move of the flagged member reached through
    vtables. A member may be a built-in array T[N], which variant_impl destroys,
    moves and copies element by element from the last element to the first. Each
    call of a constructor or destructor on one element is recorded. */
module Variants {
  import opened Wrappers
  import Utils

  /** One member type of the union: its name in T..., and N when it is an array
      type T[N]. */
  datatype Member = Member(name: string, arrayLen: Option<nat>)

  /** How many element objects the member holds. */
  function Width(m: Member): nat
  {
    if m.arrayLen.Some? then m.arrayLen.value else 1
  }

  function Names(members: seq<Member>): (r: seq<string>)
    ensures |r| == |members| && forall i :: 0 <= i < |members| ==> r[i] == members[i].name
  {
    seq(|members|, i requires 0 <= i < |members| => members[i].name)
  }

  datatype CallKind = DestroyCall | MoveCall | CopyCall

  /** One constructor or destructor call: on the whole member (elem None), or on
      element elem of an array member. */
  datatype Call = Call(kind: CallKind, typeId: nat, elem: Option<nat>)

  /** The calls destroy, move or copy makes on member typeId: once on a plain
      member, and on elements N-1 down to 0 of an array member. */
  function MemberCalls(kind: CallKind, typeId: nat, m: Member): (r: seq<Call>)
    ensures m.arrayLen.None? ==> r == [Call(kind, typeId, None)]
    ensures m.arrayLen.Some? ==> |r| == m.arrayLen.value
    ensures m.arrayLen.Some? ==> forall k :: 0 <= k < |r| ==> r[k] == Call(kind, typeId, Some(m.arrayLen.value - 1 - k))
  {
    if m.arrayLen.None? then [Call(kind, typeId, None)] else Descending(kind, typeId, m.arrayLen.value)
  }

  /** The element calls for elements n-1 down to 0. */
  function Descending(kind: CallKind, typeId: nat, n: nat): (r: seq<Call>)
    ensures |r| == n
    ensures forall k :: 0 <= k < n ==> r[k] == Call(kind, typeId, Some(n - 1 - k))
  {
    if n == 0 then [] else [Call(kind, typeId, Some(n - 1))] + Descending(kind, typeId, n - 1)
  }

  /** Every element of an array member is reached exactly once. */
  lemma DescendingOncePerElement(kind: CallKind, typeId: nat, n: nat, e: nat)
    requires e < n
    ensures exists k :: 0 <= k < n && Descending(kind, typeId, n)[k] == Call(kind, typeId, Some(e))
    ensures forall k, l :: 0 <= k < l < n ==> Descending(kind, typeId, n)[k] != Descending(kind, typeId, n)[l]
  {
    var r := Descending(kind, typeId, n);
    assert r[n - 1 - e] == Call(kind, typeId, Some(e));
  }

  class Variant<A> {
    const members: seq<Member>
    /** flag: the index of the stored type in T..., fixed at construction. */
    const flag: nat
    /** The live member: one element, or the N elements of an array member. */
    var payload: seq<A>
    /** Constructor and destructor calls made on the union, in order. */
    var calls: seq<Call>

    ghost predicate Valid()
      reads this
    {
      flag < |members| && |payload| == Width(members[flag])
    }

    /** flag_matches_type<Q>(). */
    function FlagMatchesType(q: string): (r: bool)
      requires q in Names(members)
      ensures r <==> flag < |members| && members[flag].name == q
                     && forall j :: 0 <= j < flag ==> members[j].name != q
    {
      flag == Utils.IndexOfType(q, Names(members))
    }

    /** variant(Q&) and variant(Q&&): the flag is Q's index and Q is copy- or
        move-constructed into the union. */
    constructor (members: seq<Member>, q: string, v: seq<A>, move: bool)
      requires q in Names(members)
      requires |v| == Width(members[Utils.IndexOfType(q, Names(members))])
      ensures this.members == members && Valid() && FlagMatchesType(q)
      ensures payload == v
      ensures calls == [Call(if move then MoveCall else CopyCall, flag, None)]
    {
      this.members := members;
      flag := Utils.IndexOfType(q, Names(members));
      payload := v;
      calls := [Call(if move then MoveCall else CopyCall, Utils.IndexOfType(q, Names(members)), None)];
    }

    /** variant(variant&) and variant(variant&&): the other's flag, then the copy
        or move selected by it. */
    constructor Transfer(other: Variant<A>, move: bool)
      requires other.Valid()
      ensures members == other.members && flag == other.flag && Valid()
      ensures payload == other.payload
      ensures calls == MemberCalls(if move then MoveCall else CopyCall, flag, members[flag])
    {
      members := other.members;
      flag := other.flag;
      new;
      payload, calls := TransferMember(other.members[other.flag], other.flag, other.payload,
                                       if move then MoveCall else CopyCall);
    }

    /** ~variant(): the destructor of the flagged member. */
    method Destruct()
      requires Valid()
      modifies this`calls
      ensures calls == old(calls) + MemberCalls(DestroyCall, flag, members[flag])
    {
      var m := members[flag];
      if m.arrayLen.None? {
        calls := calls + [Call(DestroyCall, flag, None)];
      } else {
        var i := m.arrayLen.value;
        while i > 0
          invariant 0 <= i <= m.arrayLen.value
          invariant calls == old(calls) + Descending(DestroyCall, flag, m.arrayLen.value)[..m.arrayLen.value - i]
        {
          i := i - 1;
          calls := calls + [Call(DestroyCall, flag, Some(i))];
          assert Descending(DestroyCall, flag, m.arrayLen.value)[..m.arrayLen.value - i]
              == Descending(DestroyCall, flag, m.arrayLen.value)[..m.arrayLen.value - i - 1] + [Call(DestroyCall, flag, Some(i))];
        }
      }
    }

    /** get<Q>() / cget<Q>(). */
    method Get(q: string) returns (v: seq<A>)
      requires Valid() && q in Names(members) && FlagMatchesType(q)
      ensures v == payload && |v| == Width(members[Utils.IndexOfType(q, Names(members))])
    {
      v := payload;
    }
  }

  /** variant_impl::move / copy of one member: a single call on a plain member;
      on an array member, element i = N-1 down to 0, building the new array from
      its end. */
  method TransferMember<A>(m: Member, typeId: nat, source: seq<A>, kind: CallKind)
    returns (dest: seq<A>, calls: seq<Call>)
    requires |source| == Width(m)
    ensures dest == source && calls == MemberCalls(kind, typeId, m)
  {
    if m.arrayLen.None? {
      return source, [Call(kind, typeId, None)];
    }
    var n := m.arrayLen.value;
    dest, calls := [], [];
    var i := n;
    while i > 0
      invariant 0 <= i <= n
      invariant dest == source[i..]
      invariant calls == Descending(kind, typeId, n)[..n - i]
    {
      i := i - 1;
      dest := [source[i]] + dest;
      calls := calls + [Call(kind, typeId, Some(i))];
      assert Descending(kind, typeId, n)[..n - i]
          == Descending(kind, typeId, n)[..n - i - 1] + [Call(kind, typeId, Some(i))];
    }
    assert Descending(kind, typeId, n)[..n] == Descending(kind, typeId, n);
  }
}
