/** ContiguousStore and VariableWidthContiguousStore of
    engine/variable_width_contiguous_store.h: the three vectors and free_ref are
    fields the operations update in place; the ghost block list and free list
    tie them to the value-level layout of ContiguousLayouts. */
module ContiguousStores {
  import opened Wrappers
  import opened ContiguousLayouts

  class ContiguousStore<E> {
    /** n_elements: the width of every stored block. */
    const nElements: nat
    /** The value-initialised element that data.resize pads with. */
    const zero: E

    var data: seq<E>
    var refToData: seq<nat>
    var dataToRef: seq<nat>
    var freeRef: nat

    ghost var blocks: seq<seq<E>>
    ghost var freeList: seq<nat>

    ghost function Layout(): Layout<E>
      reads this
    {
      ContiguousLayouts.Layout(blocks, refToData, dataToRef, freeRef, freeList)
    }

    /** The layout invariant, and data is the blocks laid end to end. */
    ghost predicate Valid()
      reads this
    {
      Wf(nElements, Layout()) && data == Flatten(blocks)
    }

    /** The block stored under each live ref. */
    ghost function Contents(): map<nat, seq<E>>
      reads this
    {
      ContiguousLayouts.Contents(Layout())
    }

    constructor(n: nat, zero: E)
      ensures nElements == n && this.zero == zero
      ensures Valid() && Contents() == map[] && refToData == [0] && freeRef == 0
    {
      nElements := n;
      this.zero := zero;
      data := [];
      dataToRef := [];
      refToData := [0];
      freeRef := 0;
      blocks := [];
      freeList := [];
      EmptyLayoutWf<E>(n);
    }

    /** size(): the number of stored blocks, which is the number of live refs,
        and the data vector holds that many blocks of n_elements each. */
    function Size(): (r: nat)
      reads this
      ensures Valid() ==> r == |Contents()| && |data| == r * nElements
    {
      SizeCounts();
      |dataToRef|
    }

    lemma SizeCounts()
      ensures Valid() ==> |dataToRef| == |Contents()| && |data| == |dataToRef| * nElements
    {
      if Valid() {
        ContentsKeys(Layout());
        RefsCount(refToData, dataToRef);
        FlattenLength(blocks, nElements);
      }
    }

    /** data_push_back: append the block, then pad it to n_elements. */
    method DataPushBack(block: seq<E>)
      requires |block| <= nElements
      modifies this`data
      ensures data == old(data) + Padded(block, nElements, zero)
    {
      data := data + block;
      var pad := nElements - |block|;
      data := data + seq(pad, _ => zero);
    }

    /** data_pop_back: n_elements single pops. */
    method DataPopBack()
      requires nElements <= |data|
      modifies this`data
      ensures data == old(data)[..|old(data)| - nElements]
    {
      for i := 0 to nElements
        invariant data == old(data)[..|old(data)| - i]
      {
        data := data[..|data| - 1];
      }
    }

    /** data_pop_back_into(idx): copy the last block over block idx, then pop the
        last block. */
    method DataPopBackInto(idx: nat)
      requires idx * nElements + nElements <= |data| && nElements <= |data|
      modifies this`data
      ensures var d := old(data);
              data == (d[..idx * nElements] + d[|d| - nElements..] + d[idx * nElements + nElements..])[..|d| - nElements]
    {
      data := data[..idx * nElements] + data[|data| - nElements..] + data[idx * nElements + nElements..];
      DataPopBack();
    }

    /** insert: take the head of the free list or a new ref, append the padded
        block, and record the two directions of the mapping. */
    method Insert(block: seq<E>) returns (ref: nat)
      requires Valid() && |block| <= nElements
      modifies this
      ensures Valid()
      ensures Layout() == InsertedLayout(nElements, old(Layout()), Padded(block, nElements, zero))
      ensures ref == NextRef(old(Layout())) && ref != 0 && ref !in old(Contents())
      ensures Contents() == old(Contents())[ref := Padded(block, nElements, zero)]
      ensures Size() == old(Size()) + 1
    {
      ghost var L := Layout();
      ghost var padded := Padded(block, nElements, zero);
      InsertKeepsWf(nElements, L, padded);
      ref := Place(block, L);
      assert (L.blocks + [padded])[..|L.blocks|] == L.blocks;
    }

    /** The steps of insert on the fields. */
    method Place(block: seq<E>, ghost L: Layout<E>) returns (ref: nat)
      requires L == Layout() && Wf(nElements, L) && |block| <= nElements
      modifies this
      ensures Layout() == InsertedLayout(nElements, L, Padded(block, nElements, zero))
      ensures data == old(data) + Padded(block, nElements, zero) && ref == NextRef(L)
    {
      if freeRef != 0 {
        ref := freeRef;
        freeRef := refToData[freeRef];
        freeList := freeList[1..];
      } else {
        refToData := refToData + [0];
        ref := |refToData| - 1;
      }
      DataPushBack(block);
      dataToRef := dataToRef + [ref];
      refToData := refToData[ref := |dataToRef| - 1];
      blocks := blocks + [Padded(block, nElements, zero)];
    }

    /** The data half of delete_, with the test `idx < size() - 1`: swap-remove
        block idx, or drop it when it is the last one. */
    method Unstore(ref: nat)
      requires Uniform(blocks, nElements) && data == Flatten(blocks)
      requires ref < |refToData| && refToData[ref] < |dataToRef| == |blocks|
      requires forall i :: 0 <= i < |dataToRef| ==> dataToRef[i] < |refToData|
      modifies this`data, this`dataToRef, this`refToData, this`blocks
      ensures Layout() == Unstored(old(Layout()), ref) && data == Flatten(blocks)
    {
      var idx := refToData[ref];
      var m := |dataToRef|;
      FlattenLength(blocks, nElements);
      if idx < m - 1 {
        PopBackIntoBlocks(blocks, nElements, idx);
        DataPopBackInto(idx);
        dataToRef := dataToRef[idx := dataToRef[m - 1]];
        dataToRef := dataToRef[..m - 1];
        refToData := refToData[dataToRef[idx] := idx];
        blocks := blocks[idx := blocks[m - 1]][..m - 1];
      } else {
        PopBackBlocks(blocks, nElements);
        DataPopBack();
        dataToRef := dataToRef[..m - 1];
        blocks := blocks[..m - 1];
      }
    }

    /** The ref half of delete_: push the ref onto the free list, or shrink the
        mapping when it is the highest ref. */
    method Release(ref: nat)
      requires 0 < |refToData| && ref < |refToData|
      modifies this`refToData, this`freeRef, this`freeList
      ensures Layout() == Freed(old(Layout()), ref)
    {
      if ref < |refToData| - 1 {
        refToData := refToData[ref := freeRef];
        freeRef := ref;
        freeList := [ref] + freeList;
      } else {
        refToData := refToData[..|refToData| - 1];
      }
    }

    /** delete_ of a live ref. */
    method Delete(ref: nat)
      requires Valid() && ref in Contents()
      modifies this
      ensures Valid()
      ensures Layout() == DeletedLayout(nElements, old(Layout()), ref)
      ensures Contents() == old(Contents()) - {ref}
      ensures Size() == old(Size()) - 1
      ensures ref < |old(refToData)| - 1 ==> freeRef == ref
    {
      ghost var L := Layout();
      ContentsKeys(L);
      StoredPositionBelowSize(nElements, L, ref);
      DeleteKeepsWf(nElements, L, ref);
      Unstore(ref);
      Release(ref);
    }
  }

  // ---------------------------------------------------------------------------
  // VariableWidthContiguousStore

  /** The handle insert returns: the key length and the ref inside its bucket. */
  class BucketRef {
    var refWithinBucket: nat
    var len: nat

    constructor(len: nat, ref: nat)
      ensures this.len == len && refWithinBucket == ref
    {
      this.len := len;
      refWithinBucket := ref;
    }

    /** The move constructor: take over the length and ref and leave the source
        with length 0. */
    constructor Move(other: BucketRef)
      modifies other
      ensures len == old(other.len) && refWithinBucket == old(other.refWithinBucket)
      ensures other.len == 0 && other.refWithinBucket == old(other.refWithinBucket)
    {
      len := other.len;
      refWithinBucket := other.refWithinBucket;
      other.len := 0;
    }
  }

  /** The position of the first bucket whose width fits a key of length len. */
  function FirstFit(widths: seq<nat>, len: nat): (r: Option<nat>)
    ensures r.Some? ==> r.value < |widths| && len <= widths[r.value]
                        && forall j :: 0 <= j < r.value ==> widths[j] < len
    ensures r.None? <==> forall j :: 0 <= j < |widths| ==> widths[j] < len
  {
    if widths == [] then None
    else if len <= widths[0] then Some(0)
    else match FirstFit(widths[1..], len)
      case None => None
      case Some(i) => Some(i + 1)
  }

  class VariableWidthContiguousStore<E> {
    /** bucket_key_lens, smallest first as the template pack lists them. */
    const bucketKeyLens: seq<nat>
    /** bucket_pyramid. */
    const buckets: seq<ContiguousStore<E>>

    ghost function Repr(): set<object>
    {
      set i | 0 <= i < |buckets| :: buckets[i]
    }

    /** One distinct, valid store per width. */
    ghost predicate Valid()
      reads Repr()
    {
      |buckets| == |bucketKeyLens|
      && (forall i :: 0 <= i < |buckets| ==> buckets[i].nElements == bucketKeyLens[i] && buckets[i].Valid())
      && (forall i, j :: 0 <= i < j < |buckets| ==> buckets[i] != buckets[j])
    }

    constructor(lens: seq<nat>, zero: E)
      ensures bucketKeyLens == lens && Valid() && fresh(Repr())
      ensures forall i :: 0 <= i < |buckets| ==> buckets[i].Contents() == map[]
    {
      var bs: seq<ContiguousStore<E>> := [];
      for k := 0 to |lens|
        invariant |bs| == k
        invariant forall i :: 0 <= i < k ==> fresh(bs[i])
        invariant forall i :: 0 <= i < k ==> bs[i].nElements == lens[i] && bs[i].Valid() && bs[i].Contents() == map[]
        invariant forall i, j :: 0 <= i < j < k ==> bs[i] != bs[j]
      {
        var b := new ContiguousStore(lens[k], zero);
        bs := bs + [b];
      }
      bucketKeyLens := lens;
      buckets := bs;
    }

    /** insert: the first bucket wide enough takes the key; None where the source
        aborts because no bucket is wide enough. */
    method Insert(key: seq<E>) returns (r: Option<BucketRef>)
      requires Valid()
      modifies Repr()
      ensures Valid()
      ensures r.None? <==> FirstFit(bucketKeyLens, |key|).None?
      ensures r.Some? ==> fresh(r.value) && r.value.len == |key|
      ensures r.Some? ==> var b := FirstFit(bucketKeyLens, |key|).value;
                          r.value.refWithinBucket !in old(buckets[b].Contents())
                          && buckets[b].Contents() == old(buckets[b].Contents())[r.value.refWithinBucket := Padded(key, bucketKeyLens[b], buckets[b].zero)]
      ensures forall i :: 0 <= i < |buckets| && Some(i) != FirstFit(bucketKeyLens, |key|) ==> unchanged(buckets[i])
    {
      var b := FindBucket(|key|);
      if b.None? {
        return None;
      }
      var ref := buckets[b.value].Insert(key);
      var handle := new BucketRef(|key|, ref);
      return Some(handle);
    }

    /** delete_: route the handle to the first bucket wide enough for its length;
        nothing happens when no bucket is. */
    method Delete(handle: BucketRef)
      requires Valid() && handle.len > 0
      requires FirstFit(bucketKeyLens, handle.len).Some? ==>
                 handle.refWithinBucket in buckets[FirstFit(bucketKeyLens, handle.len).value].Contents()
      modifies Repr()
      ensures Valid()
      ensures FirstFit(bucketKeyLens, handle.len).Some? ==>
                var b := FirstFit(bucketKeyLens, handle.len).value;
                buckets[b].Contents() == old(buckets[b].Contents()) - {handle.refWithinBucket}
      ensures forall i :: 0 <= i < |buckets| && Some(i) != FirstFit(bucketKeyLens, handle.len) ==> unchanged(buckets[i])
    {
      var b := FindBucket(handle.len);
      if b.Some? {
        buckets[b.value].Delete(handle.refWithinBucket);
      }
    }

    /** The loop over bucket_pyramid that both insert and delete_ run: the first
        bucket whose n_elements is at least len. */
    method FindBucket(len: nat) returns (r: Option<nat>)
      requires Valid()
      ensures r == FirstFit(bucketKeyLens, len)
    {
      for k := 0 to |buckets|
        invariant forall j :: 0 <= j < k ==> bucketKeyLens[j] < len
      {
        if len <= buckets[k].nElements {
          assert FirstFit(bucketKeyLens, len) == Some(k) by {
            assert len <= bucketKeyLens[k];
          }
          return Some(k);
        }
      }
      return None;
    }
  }
}
