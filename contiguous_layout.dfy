/** The bookkeeping of ContiguousStore in engine/variable_width_contiguous_store.h,
    stated over values: the stored blocks in data order, the two index maps
    between refs and block positions, and the free list threaded through unused
    entries of ref_to_data_mapping. */
module ContiguousLayouts {
  import opened Wrappers

  // ---------------------------------------------------------------------------
  // The flat data vector

  /** The data vector: the blocks one after another, n_elements each. */
  function Flatten<E>(blocks: seq<seq<E>>): seq<E>
  {
    if blocks == [] then [] else Flatten(blocks[..|blocks| - 1]) + blocks[|blocks| - 1]
  }

  predicate Uniform<E>(blocks: seq<seq<E>>, n: nat)
  {
    forall i :: 0 <= i < |blocks| ==> |blocks[i]| == n
  }

  /** data.size() == size() * n_elements. */
  lemma {:induction false} FlattenLength<E>(blocks: seq<seq<E>>, n: nat)
    requires Uniform(blocks, n)
    ensures |Flatten(blocks)| == |blocks| * n
  {
    if blocks != [] {
      var k := |blocks| - 1;
      FlattenLength(blocks[..k], n);
      assert |Flatten(blocks)| == |Flatten(blocks[..k])| + |blocks[k]|;
      assert k * n + n == (k + 1) * n;
    }
  }

  lemma {:induction false} FlattenConcat<E>(a: seq<seq<E>>, c: seq<seq<E>>)
    ensures Flatten(a + c) == Flatten(a) + Flatten(c)
    decreases |c|
  {
    if c != [] {
      var ac := a + c;
      assert ac[..|ac| - 1] == a + c[..|c| - 1];
      assert ac[|ac| - 1] == c[|c| - 1];
      FlattenConcat(a, c[..|c| - 1]);
    } else {
      assert a + c == a;
    }
  }

  lemma FlattenOne<E>(x: seq<E>)
    ensures Flatten([x]) == x
  {
    assert [x][..0] == [];
  }

  /** Block idx of a uniform block list sits at idx * n in the flat vector, between
      the blocks before it and the blocks after it. */
  lemma FlattenAround<E>(blocks: seq<seq<E>>, n: nat, idx: nat)
    requires Uniform(blocks, n) && idx < |blocks|
    ensures var data := Flatten(blocks);
            |data| == |blocks| * n && idx * n + n <= |data|
            && data == Flatten(blocks[..idx]) + blocks[idx] + Flatten(blocks[idx + 1..])
            && |Flatten(blocks[..idx])| == idx * n
  {
    var pre, post := blocks[..idx], blocks[idx + 1..];
    assert blocks == pre + [blocks[idx]] + post;
    FlattenConcat(pre + [blocks[idx]], post);
    FlattenConcat(pre, [blocks[idx]]);
    FlattenOne(blocks[idx]);
    FlattenLength(pre, n);
    FlattenLength(post, n);
    FlattenLength(blocks, n);
  }

  /** A block padded to n elements with value-initialised elements. */
  function Padded<E>(block: seq<E>, n: nat, zero: E): (r: seq<E>)
    requires |block| <= n
    ensures |r| == n && r[..|block|] == block
    ensures forall j :: |block| <= j < n ==> r[j] == zero
  {
    block + seq(n - |block|, _ => zero)
  }

  /** data_pop_back() on the flat vector drops the last block. */
  lemma PopBackBlocks<E>(blocks: seq<seq<E>>, n: nat)
    requires Uniform(blocks, n) && |blocks| > 0
    ensures var data := Flatten(blocks);
            n <= |data| && data[..|data| - n] == Flatten(blocks[..|blocks| - 1])
  {
  }

  /** Copying the last n elements over block idx gives the block list with block
      idx replaced by the last block. */
  lemma CopyLastOver<E>(blocks: seq<seq<E>>, n: nat, idx: nat)
    requires Uniform(blocks, n) && idx < |blocks|
    ensures var data, m := Flatten(blocks), |blocks|;
            idx * n + n <= |data| && n <= |data|
            && data[..idx * n] + data[|data| - n..] + data[idx * n + n..] == Flatten(blocks[idx := blocks[m - 1]])
  {
    var m := |blocks|;
    var data := Flatten(blocks);
    FlattenAround(blocks, n, idx);
    var pre, post := blocks[..idx], blocks[idx + 1..];
    assert data[..idx * n] == Flatten(pre);
    assert data[idx * n + n..] == Flatten(post);
    PopBackBlocks(blocks, n);
    assert data[|data| - n..] == blocks[m - 1] by {
      assert blocks[..m] == blocks;
    }
    var moved := blocks[idx := blocks[m - 1]];
    assert moved == pre + [blocks[m - 1]] + post;
    FlattenConcat(pre + [blocks[m - 1]], post);
    FlattenConcat(pre, [blocks[m - 1]]);
    FlattenOne(blocks[m - 1]);
  }

  /** data_pop_back_into(idx) on the flat vector: the last n elements copied over
      block idx, then the last n elements dropped. That is the block list with
      the last block moved into position idx. */
  lemma PopBackIntoBlocks<E>(blocks: seq<seq<E>>, n: nat, idx: nat)
    requires Uniform(blocks, n) && idx < |blocks|
    ensures var data, m := Flatten(blocks), |blocks|;
            idx * n + n <= |data| && n <= |data|
            && (data[..idx * n] + data[|data| - n..] + data[idx * n + n..])[..|data| - n]
               == Flatten(blocks[idx := blocks[m - 1]][..m - 1])
  {
    var m := |blocks|;
    var data := Flatten(blocks);
    var moved := blocks[idx := blocks[m - 1]];
    var fm, fm1 := Flatten(moved), Flatten(moved[..m - 1]);
    assert idx * n + n <= |data| && n <= |data|
           && data[..idx * n] + data[|data| - n..] + data[idx * n + n..] == fm by {
      CopyLastOver(blocks, n, idx);
    }
    assert |data| - n <= |fm| && fm[..|data| - n] == fm1 by {
      assert Uniform(moved, n);
      FlattenLength(blocks, n);
      FlattenLength(moved, n);
      PopBackBlocks(moved, n);
    }
    TakeOfEqual(data[..idx * n] + data[|data| - n..] + data[idx * n + n..], fm, fm1, |data| - n);
  }

  lemma TakeOfEqual<E>(x: seq<E>, y: seq<E>, z: seq<E>, k: nat)
    requires x == y && k <= |y| && y[..k] == z
    ensures x[..k] == z
  {
  }

  // ---------------------------------------------------------------------------
  // The index maps and the free list

  /** The store's state: the blocks in data order, ref_to_data_mapping,
      data_to_ref_mapping, free_ref, and the free list that free_ref heads. */
  datatype Layout<E> = Layout(blocks: seq<seq<E>>, refToData: seq<nat>, dataToRef: seq<nat>,
                              freeRef: nat, freeList: seq<nat>)

  /** The refs of the stored blocks. */
  function Refs(dataToRef: seq<nat>): set<nat>
  {
    set i | 0 <= i < |dataToRef| :: dataToRef[i]
  }

  /** ref_to_data_mapping[data_to_ref_mapping[i]] == i for every stored position,
      with refs other than the reserved 0. */
  predicate Inverse(refToData: seq<nat>, dataToRef: seq<nat>)
  {
    forall i :: 0 <= i < |dataToRef| ==> 0 < dataToRef[i] < |refToData| && refToData[dataToRef[i]] == i
  }

  /** The entry of ref_to_data_mapping of the k-th free ref: the next free ref, or
      0 after the last. */
  function NextFree(freeList: seq<nat>, k: nat): nat
  {
    if k + 1 < |freeList| then freeList[k + 1] else 0
  }

  /** The free list: free_ref is its head (0 when empty), each entry's
      ref_to_data_mapping slot holds the next, and the entries are distinct refs
      other than 0. */
  predicate FreeChain(refToData: seq<nat>, freeRef: nat, freeList: seq<nat>)
  {
    (if freeList == [] then freeRef == 0 else freeRef == freeList[0])
    && (forall k :: 0 <= k < |freeList| ==> 0 < freeList[k] < |refToData| && refToData[freeList[k]] == NextFree(freeList, k))
    && (forall k, l :: 0 <= k < l < |freeList| ==> freeList[k] != freeList[l])
  }

  predicate Disjoint(dataToRef: seq<nat>, freeList: seq<nat>)
  {
    forall i, k :: 0 <= i < |dataToRef| && 0 <= k < |freeList| ==> dataToRef[i] != freeList[k]
  }

  /** The store's invariant: index 0 of ref_to_data_mapping is reserved, every
      block has n elements, the two maps are inverse on the stored blocks, and the
      free list holds no stored ref. */
  ghost predicate Wf<E>(n: nat, L: Layout<E>)
  {
    |L.refToData| >= 1 && Uniform(L.blocks, n) && |L.blocks| == |L.dataToRef|
    && Inverse(L.refToData, L.dataToRef)
    && FreeChain(L.refToData, L.freeRef, L.freeList)
    && Disjoint(L.dataToRef, L.freeList)
  }

  /** The stored block of each ref. */
  ghost function Contents<E>(L: Layout<E>): map<nat, seq<E>>
  {
    map r | r in Refs(L.dataToRef) && r < |L.refToData| && L.refToData[r] < |L.blocks| :: L.blocks[L.refToData[r]]
  }

  lemma ContentsKeys<E>(L: Layout<E>)
    requires Inverse(L.refToData, L.dataToRef) && |L.blocks| == |L.dataToRef|
    ensures Contents(L).Keys == Refs(L.dataToRef)
    ensures forall i :: 0 <= i < |L.dataToRef| ==> Contents(L)[L.dataToRef[i]] == L.blocks[i]
  {
  }

  /** Contents is determined by which block each stored position holds. */
  lemma ContentsOfPositions<E>(L: Layout<E>, M: map<nat, seq<E>>)
    requires Inverse(L.refToData, L.dataToRef) && |L.blocks| == |L.dataToRef|
    requires M.Keys == Refs(L.dataToRef)
    requires forall i :: 0 <= i < |L.dataToRef| ==> L.dataToRef[i] in M && M[L.dataToRef[i]] == L.blocks[i]
    ensures Contents(L) == M
  {
    ContentsKeys(L);
    forall r | r in M
      ensures Contents(L)[r] == M[r]
    {
      var i :| 0 <= i < |L.dataToRef| && L.dataToRef[i] == r;
    }
  }

  /** The maps being inverse makes the stored refs distinct, so size() counts
      them. */
  lemma {:induction false} RefsCount(refToData: seq<nat>, dataToRef: seq<nat>)
    requires Inverse(refToData, dataToRef)
    ensures |Refs(dataToRef)| == |dataToRef|
  {
    if dataToRef != [] {
      var m := |dataToRef|;
      var p := dataToRef[..m - 1];
      assert Inverse(refToData, p) by {
        forall i | 0 <= i < |p|
          ensures 0 < p[i] < |refToData| && refToData[p[i]] == i
        {
          assert p[i] == dataToRef[i];
        }
      }
      RefsCount(refToData, p);
      assert Refs(dataToRef) == Refs(p) + {dataToRef[m - 1]} by {
        forall r | r in Refs(dataToRef)
          ensures r in Refs(p) || r == dataToRef[m - 1]
        {
          var i :| 0 <= i < m && dataToRef[i] == r;
          if i < m - 1 {
            assert p[i] == r;
          }
        }
      }
      assert dataToRef[m - 1] !in Refs(p);
    }
  }

  /** The empty store the constructor makes. */
  lemma EmptyLayoutWf<E>(n: nat)
    ensures var L: Layout<E> := Layout([], [0], [], 0, []);
            Wf(n, L) && Contents(L) == map[]
  {
  }

  // ---------------------------------------------------------------------------
  // Steps on the free list

  /** Writing a ref_to_data_mapping slot that is not on the free list, or growing
      the mapping, leaves the chain intact. */
  lemma FreeChainUntouched(refToData: seq<nat>, refToData': seq<nat>, freeRef: nat, freeList: seq<nat>)
    requires FreeChain(refToData, freeRef, freeList) && |refToData| <= |refToData'|
    requires forall k :: 0 <= k < |freeList| ==> refToData'[freeList[k]] == refToData[freeList[k]]
    ensures FreeChain(refToData', freeRef, freeList)
  {
  }

  /** insert popping the head of the free list. */
  lemma FreeChainPop(refToData: seq<nat>, freeList: seq<nat>, v: nat)
    requires freeList != [] && FreeChain(refToData, freeList[0], freeList)
    ensures FreeChain(refToData[freeList[0] := v], refToData[freeList[0]], freeList[1..])
  {
    var rest := freeList[1..];
    forall k | 0 <= k < |rest|
      ensures refToData[freeList[0] := v][rest[k]] == NextFree(rest, k)
    {
      assert rest[k] == freeList[k + 1] != freeList[0];
      assert NextFree(rest, k) == NextFree(freeList, k + 1);
    }
  }

  /** delete_ pushing a freed ref onto the free list. */
  lemma FreeChainPush(refToData: seq<nat>, freeRef: nat, freeList: seq<nat>, ref: nat)
    requires FreeChain(refToData, freeRef, freeList) && 0 < ref < |refToData|
    requires forall k :: 0 <= k < |freeList| ==> freeList[k] != ref
    ensures FreeChain(refToData[ref := freeRef], ref, [ref] + freeList)
  {
    var fl := [ref] + freeList;
    var rd := refToData[ref := freeRef];
    forall k | 0 <= k < |fl|
      ensures 0 < fl[k] < |rd| && rd[fl[k]] == NextFree(fl, k)
    {
      if k > 0 {
        assert fl[k] == freeList[k - 1];
        assert NextFree(fl, k) == NextFree(freeList, k - 1);
      }
    }
    forall k, l | 0 <= k < l < |fl|
      ensures fl[k] != fl[l]
    {
      assert fl[l] == freeList[l - 1];
      if k > 0 {
        assert fl[k] == freeList[k - 1];
      }
    }
  }

  /** delete_ shrinking ref_to_data_mapping past a ref not on the free list. */
  lemma FreeChainShrink(refToData: seq<nat>, freeRef: nat, freeList: seq<nat>)
    requires FreeChain(refToData, freeRef, freeList) && |refToData| > 0
    requires forall k :: 0 <= k < |freeList| ==> freeList[k] != |refToData| - 1
    ensures FreeChain(refToData[..|refToData| - 1], freeRef, freeList)
  {
  }

  // ---------------------------------------------------------------------------
  // insert

  /** The ref insert hands out: the head of the free list, or a new one at the end
      of ref_to_data_mapping. */
  function NextRef<E>(L: Layout<E>): nat
  {
    if L.freeRef != 0 then L.freeRef else |L.refToData|
  }

  ghost function InsertedLayout<E>(n: nat, L: Layout<E>, block: seq<E>): Layout<E>
    requires Wf(n, L)
  {
    var ref := NextRef(L);
    if L.freeRef != 0 then
      Layout(L.blocks + [block], L.refToData[ref := |L.dataToRef|], L.dataToRef + [ref],
             L.refToData[L.freeRef], L.freeList[1..])
    else
      Layout(L.blocks + [block], (L.refToData + [0])[ref := |L.dataToRef|], L.dataToRef + [ref],
             L.freeRef, L.freeList)
  }

  /** A new stored ref at the end of data_to_ref_mapping keeps the maps inverse. */
  lemma InverseAppend(refToData: seq<nat>, refToData': seq<nat>, dataToRef: seq<nat>, ref: nat)
    requires Inverse(refToData, dataToRef) && |refToData| <= |refToData'| && 0 < ref < |refToData'|
    requires refToData'[..|refToData|] == refToData
    requires forall i :: 0 <= i < |dataToRef| ==> dataToRef[i] != ref
    ensures Inverse(refToData'[ref := |dataToRef|], dataToRef + [ref])
  {
    var d := dataToRef + [ref];
    forall i | 0 <= i < |d|
      ensures 0 < d[i] < |refToData'| && refToData'[ref := |dataToRef|][d[i]] == i
    {
      if i < |dataToRef| {
        assert refToData'[dataToRef[i]] == refToData'[..|refToData|][dataToRef[i]];
      }
    }
  }

  /** The ref insert hands out is not 0 and not stored. */
  lemma NextRefIsFree<E>(n: nat, L: Layout<E>)
    requires Wf(n, L)
    ensures 0 < NextRef(L) <= |L.refToData| && NextRef(L) != 0
    ensures forall i :: 0 <= i < |L.dataToRef| ==> L.dataToRef[i] != NextRef(L)
    ensures NextRef(L) == |L.refToData| ==> L.freeList == []
  {
    if L.freeRef != 0 {
      assert L.freeList != [] && L.freeRef == L.freeList[0];
    }
  }

  lemma InsertedWf<E>(n: nat, L: Layout<E>, block: seq<E>)
    requires Wf(n, L) && |block| == n
    ensures Wf(n, InsertedLayout(n, L, block))
  {
    var ref := NextRef(L);
    var L' := InsertedLayout(n, L, block);
    NextRefIsFree(n, L);
    if L.freeRef != 0 {
      InverseAppend(L.refToData, L.refToData, L.dataToRef, ref);
      FreeChainPop(L.refToData, L.freeList, |L.dataToRef|);
      assert Disjoint(L'.dataToRef, L'.freeList) by {
        forall i, k | 0 <= i < |L'.dataToRef| && 0 <= k < |L'.freeList|
          ensures L'.dataToRef[i] != L'.freeList[k]
        {
          assert L'.freeList[k] == L.freeList[k + 1];
          if i == |L.dataToRef| {
            assert L.freeList[0] != L.freeList[k + 1];
          }
        }
      }
    } else {
      assert (L.refToData + [0])[..|L.refToData|] == L.refToData;
      InverseAppend(L.refToData, L.refToData + [0], L.dataToRef, ref);
      FreeChainUntouched(L.refToData, L'.refToData, L.freeRef, L.freeList);
    }
    assert Uniform(L'.blocks, n);
  }

  /** insert keeps the invariant, never hands out ref 0 or a stored ref, and adds
      exactly the new block under its ref. */
  lemma InsertKeepsWf<E>(n: nat, L: Layout<E>, block: seq<E>)
    requires Wf(n, L) && |block| == n
    ensures var ref := NextRef(L);
            Wf(n, InsertedLayout(n, L, block)) && ref != 0 && ref !in Contents(L)
            && Contents(InsertedLayout(n, L, block)) == Contents(L)[ref := block]
  {
    var ref := NextRef(L);
    var L' := InsertedLayout(n, L, block);
    NextRefIsFree(n, L);
    InsertedWf(n, L, block);
    ContentsKeys(L);
    var M := Contents(L)[ref := block];
    assert L'.dataToRef == L.dataToRef + [ref];
    RefsAppend(L.dataToRef, ref);
    forall i | 0 <= i < |L'.dataToRef|
      ensures L'.dataToRef[i] in M && M[L'.dataToRef[i]] == L'.blocks[i]
    {
      if i < |L.dataToRef| {
        assert L'.dataToRef[i] == L.dataToRef[i] && L'.blocks[i] == L.blocks[i];
      }
    }
    ContentsOfPositions(L', M);
  }

  lemma RefsAppend(dataToRef: seq<nat>, ref: nat)
    ensures Refs(dataToRef + [ref]) == Refs(dataToRef) + {ref}
  {
    var d := dataToRef + [ref];
    assert forall i :: 0 <= i < |dataToRef| ==> d[i] == dataToRef[i];
    assert d[|dataToRef|] == ref;
  }

  // ---------------------------------------------------------------------------
  // delete_

  /** The last part of delete_: the freed ref goes on the front of the free list,
      unless it is the highest ref, in which case ref_to_data_mapping shrinks. */
  function Freed<E>(L: Layout<E>, ref: nat): Layout<E>
    requires 0 < |L.refToData| && ref < |L.refToData|
  {
    if ref < |L.refToData| - 1 then L.(refToData := L.refToData[ref := L.freeRef], freeRef := ref, freeList := [ref] + L.freeList)
    else L.(refToData := L.refToData[..|L.refToData| - 1])
  }

  /** The data part of delete_ with the evidently intended test
      `idx < size() - 1`: the last block moves into the hole and its ref is
      redirected, unless the hole is the last block, which is simply dropped. */
  function Unstored<E>(L: Layout<E>, ref: nat): Layout<E>
    requires ref < |L.refToData| && L.refToData[ref] < |L.dataToRef| == |L.blocks|
    requires forall i :: 0 <= i < |L.dataToRef| ==> L.dataToRef[i] < |L.refToData|
  {
    var m := |L.dataToRef|;
    var idx := L.refToData[ref];
    if idx < m - 1 then
      L.(blocks := L.blocks[idx := L.blocks[m - 1]][..m - 1],
         dataToRef := L.dataToRef[idx := L.dataToRef[m - 1]][..m - 1],
         refToData := L.refToData[L.dataToRef[m - 1] := idx])
    else
      L.(blocks := L.blocks[..m - 1], dataToRef := L.dataToRef[..m - 1])
  }

  /** A stored ref's position is below size(), so the test delete_ makes at
      line 93 as written is always true. */
  lemma StoredPositionBelowSize<E>(n: nat, L: Layout<E>, ref: nat)
    requires Wf(n, L) && ref in Refs(L.dataToRef)
    ensures ref < |L.refToData| && L.refToData[ref] < |L.dataToRef| && L.dataToRef[L.refToData[ref]] == ref
  {
    var i :| 0 <= i < |L.dataToRef| && L.dataToRef[i] == ref;
  }

  /** delete_ of a stored ref, as evidently intended. */
  ghost function DeletedLayout<E>(n: nat, L: Layout<E>, ref: nat): Layout<E>
    requires Wf(n, L) && ref in Refs(L.dataToRef)
  {
    StoredPositionBelowSize(n, L, ref);
    var L1 := Unstored(L, ref);
    Freed(L1, ref)
  }

  /** Freeing a ref that is neither stored nor free keeps the invariant and the
      contents. */
  lemma FreedKeepsWf<E>(n: nat, L: Layout<E>, ref: nat)
    requires Wf(n, L) && 0 < ref < |L.refToData|
    requires forall i :: 0 <= i < |L.dataToRef| ==> L.dataToRef[i] != ref
    requires forall k :: 0 <= k < |L.freeList| ==> L.freeList[k] != ref
    ensures Wf(n, Freed(L, ref)) && Contents(Freed(L, ref)) == Contents(L)
  {
    FreedWf(n, L, ref);
    ContentsKeys(L);
    ContentsOfPositions(Freed(L, ref), Contents(L));
  }

  lemma FreedWf<E>(n: nat, L: Layout<E>, ref: nat)
    requires Wf(n, L) && 0 < ref < |L.refToData|
    requires forall i :: 0 <= i < |L.dataToRef| ==> L.dataToRef[i] != ref
    requires forall k :: 0 <= k < |L.freeList| ==> L.freeList[k] != ref
    ensures Wf(n, Freed(L, ref))
  {
    var L' := Freed(L, ref);
    InverseUntouched(L.refToData, L.dataToRef, ref, L.freeRef);
    if ref < |L.refToData| - 1 {
      FreeChainPush(L.refToData, L.freeRef, L.freeList, ref);
      DisjointPush(L.dataToRef, L.freeList, ref);
    } else {
      FreeChainShrink(L.refToData, L.freeRef, L.freeList);
    }
  }

  /** Changing or dropping the ref_to_data_mapping entry of a ref that is not
      stored keeps the maps inverse. */
  lemma InverseUntouched(refToData: seq<nat>, dataToRef: seq<nat>, ref: nat, v: nat)
    requires Inverse(refToData, dataToRef) && ref < |refToData|
    requires forall i :: 0 <= i < |dataToRef| ==> dataToRef[i] != ref
    ensures Inverse(refToData[ref := v], dataToRef)
    ensures ref == |refToData| - 1 ==> Inverse(refToData[..ref], dataToRef)
  {
  }

  lemma DisjointPush(dataToRef: seq<nat>, freeList: seq<nat>, ref: nat)
    requires Disjoint(dataToRef, freeList)
    requires forall i :: 0 <= i < |dataToRef| ==> dataToRef[i] != ref
    ensures Disjoint(dataToRef, [ref] + freeList)
  {
    var fl := [ref] + freeList;
    forall i, k | 0 <= i < |dataToRef| && 0 <= k < |fl|
      ensures dataToRef[i] != fl[k]
    {
      if k > 0 {
        assert fl[k] == freeList[k - 1];
      }
    }
  }

  /** Moving the last block into the hole at idx keeps the maps inverse. */
  lemma UnstoredInverse<E>(n: nat, L: Layout<E>, ref: nat)
    requires Wf(n, L) && ref in Refs(L.dataToRef)
    ensures ref < |L.refToData| && L.refToData[ref] < |L.dataToRef|
    ensures var L1 := Unstored(L, ref);
            Inverse(L1.refToData, L1.dataToRef) && |L1.refToData| == |L.refToData|
            && forall i :: 0 <= i < |L1.dataToRef| ==> L1.dataToRef[i] != ref
  {
    StoredPositionBelowSize(n, L, ref);
    var L1 := Unstored(L, ref);
    var m, idx := |L.dataToRef|, L.refToData[ref];
    forall i | 0 <= i < |L1.dataToRef|
      ensures 0 < L1.dataToRef[i] < |L1.refToData| && L1.refToData[L1.dataToRef[i]] == i && L1.dataToRef[i] != ref
    {
      if i == idx {
        assert L1.dataToRef[i] == L.dataToRef[m - 1];
      } else {
        assert L1.dataToRef[i] == L.dataToRef[i];
        assert L.dataToRef[i] != L.dataToRef[m - 1];
      }
    }
  }

  /** Moving the last entry of data_to_ref_mapping over position idx and
      dropping the last leaves exactly the other refs. */
  lemma MovedRefs(refToData: seq<nat>, dataToRef: seq<nat>, idx: nat)
    requires Inverse(refToData, dataToRef) && idx < |dataToRef|
    ensures var m := |dataToRef|;
            Refs(dataToRef[idx := dataToRef[m - 1]][..m - 1]) == Refs(dataToRef) - {dataToRef[idx]}
            && Refs(dataToRef[..m - 1]) == Refs(dataToRef) - {dataToRef[m - 1]}
  {
    var m := |dataToRef|;
    var d1 := dataToRef[idx := dataToRef[m - 1]][..m - 1];
    forall i | 0 <= i < |d1|
      ensures d1[i] in Refs(dataToRef) && d1[i] != dataToRef[idx]
    {
      if i == idx {
        assert d1[i] == dataToRef[m - 1];
      } else {
        assert d1[i] == dataToRef[i];
      }
    }
    forall r | r in Refs(dataToRef) && r != dataToRef[idx]
      ensures r in Refs(d1)
    {
      var i :| 0 <= i < m && dataToRef[i] == r;
      if i == m - 1 {
        assert d1[idx] == r;
      } else {
        assert d1[i] == r;
      }
    }
    var d2 := dataToRef[..m - 1];
    forall r | r in Refs(dataToRef) && r != dataToRef[m - 1]
      ensures r in Refs(d2)
    {
      var i :| 0 <= i < m && dataToRef[i] == r;
      assert d2[i] == r;
    }
  }

  /** Which stored refs remain after the data part of delete_. */
  lemma UnstoredRefs<E>(n: nat, L: Layout<E>, ref: nat)
    requires Wf(n, L) && ref in Refs(L.dataToRef)
    ensures ref < |L.refToData| && L.refToData[ref] < |L.dataToRef|
    ensures Refs(Unstored(L, ref).dataToRef) == Refs(L.dataToRef) - {ref}
    ensures forall i :: 0 <= i < |Unstored(L, ref).dataToRef| ==>
              Unstored(L, ref).blocks[i] == Contents(L)[Unstored(L, ref).dataToRef[i]]
  {
    StoredPositionBelowSize(n, L, ref);
    MovedRefs(L.refToData, L.dataToRef, L.refToData[ref]);
    UnstoredBlocks(L, ref);
  }

  lemma UnstoredBlocks<E>(L: Layout<E>, ref: nat)
    requires Inverse(L.refToData, L.dataToRef) && |L.blocks| == |L.dataToRef|
    requires ref < |L.refToData| && L.refToData[ref] < |L.dataToRef|
    ensures forall i :: 0 <= i < |Unstored(L, ref).dataToRef| ==>
              Unstored(L, ref).blocks[i] == Contents(L)[Unstored(L, ref).dataToRef[i]]
  {
    ContentsKeys(L);
    var L1 := Unstored(L, ref);
    var m, idx := |L.dataToRef|, L.refToData[ref];
    forall i | 0 <= i < |L1.dataToRef|
      ensures L1.blocks[i] == Contents(L)[L1.dataToRef[i]]
    {
      if i == idx {
        assert L1.dataToRef[i] == L.dataToRef[m - 1] && L1.blocks[i] == L.blocks[m - 1];
      } else {
        assert L1.dataToRef[i] == L.dataToRef[i] && L1.blocks[i] == L.blocks[i];
      }
    }
  }

  /** The data part of delete_ keeps the invariant and removes exactly the deleted
      ref's block, leaving the ref neither stored nor free. */
  lemma UnstoredWf<E>(n: nat, L: Layout<E>, ref: nat)
    requires Wf(n, L) && ref in Refs(L.dataToRef)
    ensures ref < |L.refToData| && L.refToData[ref] < |L.dataToRef|
    ensures var L1 := Unstored(L, ref);
            Wf(n, L1) && Contents(L1) == Contents(L) - {ref} && |L1.dataToRef| == |L.dataToRef| - 1
            && 0 < ref < |L1.refToData|
            && (forall i :: 0 <= i < |L1.dataToRef| ==> L1.dataToRef[i] != ref)
            && (forall k :: 0 <= k < |L1.freeList| ==> L1.freeList[k] != ref)
  {
    StoredPositionBelowSize(n, L, ref);
    UnstoredInverse(n, L, ref);
    UnstoredRefs(n, L, ref);
    var L1 := Unstored(L, ref);
    var m, idx := |L.dataToRef|, L.refToData[ref];
    assert forall k :: 0 <= k < |L.freeList| ==> L.freeList[k] != ref && L.freeList[k] != L.dataToRef[m - 1];
    FreeChainUntouched(L.refToData, L1.refToData, L.freeRef, L.freeList);
    assert Disjoint(L1.dataToRef, L1.freeList) by {
      forall i, k | 0 <= i < |L1.dataToRef| && 0 <= k < |L1.freeList|
        ensures L1.dataToRef[i] != L1.freeList[k]
      {
        if i == idx {
          assert L1.dataToRef[i] == L.dataToRef[m - 1];
        } else {
          assert L1.dataToRef[i] == L.dataToRef[i];
        }
      }
    }
    assert Uniform(L1.blocks, n);
    ContentsOfPositions(L1, Contents(L) - {ref});
  }

  /** delete_ keeps the invariant and removes exactly the deleted ref. */
  lemma DeleteKeepsWf<E>(n: nat, L: Layout<E>, ref: nat)
    requires Wf(n, L) && ref in Refs(L.dataToRef)
    ensures Wf(n, DeletedLayout(n, L, ref))
    ensures Contents(DeletedLayout(n, L, ref)) == Contents(L) - {ref}
    ensures |DeletedLayout(n, L, ref).dataToRef| == |L.dataToRef| - 1
  {
    UnstoredWf(n, L, ref);
    FreedKeepsWf(n, Unstored(L, ref), ref);
  }

  /** LIFO reuse: a ref freed onto the free list is the next one insert hands out. */
  lemma FreedRefIsReusedFirst<E>(n: nat, L: Layout<E>, ref: nat)
    requires Wf(n, L) && ref in Refs(L.dataToRef) && ref < |L.refToData| - 1
    ensures NextRef(DeletedLayout(n, L, ref)) == ref
  {
    UnstoredWf(n, L, ref);
  }

  // ---------------------------------------------------------------------------
  // delete_ as written

  /** delete_ as the code reads, on any layout whose ref and positions are in
      range: the test `idx < size()` sends every stored ref down the general path;
      after data_to_ref_mapping.pop_back() the read data_to_ref_mapping[idx] is
      past the end when idx was the last position (None). */
  function DeleteAsWritten<E>(L: Layout<E>, ref: nat): Option<Layout<E>>
    requires ref < |L.refToData| && 0 < |L.dataToRef| == |L.blocks|
    requires forall i :: 0 <= i < |L.dataToRef| ==> L.dataToRef[i] < |L.refToData|
  {
    var m := |L.dataToRef|;
    var idx := L.refToData[ref];
    if idx < m then
      var dataToRef := L.dataToRef[idx := L.dataToRef[m - 1]][..m - 1];
      if idx < |dataToRef| then
        Some(Freed(L.(blocks := L.blocks[idx := L.blocks[m - 1]][..m - 1], dataToRef := dataToRef,
                      refToData := L.refToData[dataToRef[idx] := idx]), ref))
      else
        None
    else
      Some(Freed(L.(blocks := L.blocks[..m - 1], dataToRef := L.dataToRef[..m - 1]), ref))
  }

  /** Deleting the block stored last reads data_to_ref_mapping past its end. */
  lemma DeleteAsWrittenReadsPastEnd<E>(n: nat, L: Layout<E>, ref: nat)
    requires Wf(n, L) && ref in Refs(L.dataToRef)
    requires ref < |L.refToData| && L.refToData[ref] == |L.dataToRef| - 1
    ensures DeleteAsWritten(L, ref).None?
  {
  }

  /** Any other stored block is deleted as intended. */
  lemma DeleteAsWrittenElsewhere<E>(n: nat, L: Layout<E>, ref: nat)
    requires Wf(n, L) && ref in Refs(L.dataToRef)
    requires ref < |L.refToData| && L.refToData[ref] < |L.dataToRef| - 1
    ensures DeleteAsWritten(L, ref) == Some(DeletedLayout(n, L, ref))
  {
  }
}
