/** Batch proofs against a vector commitment: bit-reversed positions, one shared path. */
module VcBatch {
  import opened Bytes
  import opened Bits
  import opened Hashing
  import opened MerkleTree
  import opened OrderedMap
  import opened BatchProof
  import opened VcTree

  /** The batch with external indices replaced by tree positions. */
  function Internal(elems: seq<Elem>, depth: nat): (r: seq<Elem>)
    ensures |r| == |elems|
    ensures forall i :: 0 <= i < |r| ==> r[i] == Entry(VcIndex(elems[i].key, depth), elems[i].value)
  {
    seq(|elems|, i requires 0 <= i < |elems| => Entry(VcIndex(elems[i].key, depth), elems[i].value))
  }

  predicate VcBatchAccepts(h: HashFn, elems: seq<Elem>, depth: nat, path: seq<Digest>, root: Digest) {
    BatchAccepts(h, Internal(elems, depth), depth, path, root)
  }

  /** An empty batch computes no index, so it cannot overflow. */
  method VerifyBatchVc(h: HashFn, build: Build, proof: Proof, elems: seq<Elem>, root: Digest) returns (r: Answer)
    ensures r == if elems != [] && Overflows(build, proof.treeDepth) then Overflow
                 else Answers(VcBatchAccepts(h, elems, proof.treeDepth, proof.path, root))
  {
    hide VcIndex, BatchAccepts;
    var mapped: seq<Elem> := [];
    var i := 0;
    while i < |elems|
      invariant 0 <= i <= |elems| && mapped == Internal(elems, proof.treeDepth)[..i]
      invariant i > 0 ==> !Overflows(build, proof.treeDepth)
    {
      if Overflows(build, proof.treeDepth) { return Overflow; }
      mapped := mapped + [Entry(VcIndex(elems[i].key, proof.treeDepth), elems[i].value)];
      i := i + 1;
    }
    assert mapped == Internal(elems, proof.treeDepth);
    var ok := VerifyBatch(h, proof, mapped, root);
    r := Answers(ok);
  }

  // ---------------------------------------------------------------- slots

  /** No later entry addresses the same slot. */
  ghost predicate LastInSlot(elems: seq<Elem>, depth: nat, i: nat) {
    && i < |elems|
    && forall j :: i < j < |elems| ==> SlotOf(elems[j].key, depth) != SlotOf(elems[i].key, depth)
  }

  /** In every slot that the batch addresses, the last entry is what the commitment to `leaves` holds there. */
  ghost predicate LastOpensCommitted(h: HashFn, leaves: seq<Digest>, depth: nat, elems: seq<Elem>) {
    forall i: nat :: LastInSlot(elems, depth, i) ==>
      elems[i].value == Committed(h, leaves, SlotOf(elems[i].key, depth))
  }

  /** The inputs hashed by a batch verification against a vector commitment. */
  function VcBatchPreimages(h: HashFn, elems: seq<Elem>, depth: nat, path: seq<Digest>): set<seq<Byte>> {
    BatchPreimages(h, Internal(elems, depth), depth, path)
  }

  /** The path of absent siblings for a batch against the commitment to `leaves`. */
  ghost function VcBatchPath(h: HashFn, leaves: seq<Digest>, elems: seq<Elem>): seq<Digest>
    requires leaves != [] && Addressable(leaves)
  {
    BatchPath(VcLevels(h, leaves), Keys(Internal(elems, CeilLog2(|leaves|))))
  }

  /** Two indices have one tree position exactly if they address one slot. */
  lemma SamePosition(k: nat, l: nat, d: nat)
    requires d <= USIZE_BITS
    ensures VcIndex(k, d) == VcIndex(l, d) <==> SlotOf(k, d) == SlotOf(l, d)
  {
    hide VcIndex, SlotOf;
    VcIndexOfSlot(k, d);
    VcIndexOfSlot(l, d);
  }

  lemma InternalLast(elems: seq<Elem>, d: nat, i: nat)
    requires d <= USIZE_BITS
    ensures IsLast(Internal(elems, d), i) <==> LastInSlot(elems, d, i)
  {
    hide VcIndex, SlotOf;
    if i < |elems| {
      forall j | i < j < |elems|
        ensures Internal(elems, d)[j].key == Internal(elems, d)[i].key
           <==> SlotOf(elems[j].key, d) == SlotOf(elems[i].key, d)
      {
        SamePosition(elems[j].key, elems[i].key, d);
      }
    }
  }

  lemma InternalBelow(elems: seq<Elem>, d: nat)
    requires d <= USIZE_BITS
    ensures Below(Internal(elems, d), Pow2(d))
  {
    hide VcIndex, SlotOf, Pow2;
    forall i | 0 <= i < |elems|
      ensures Internal(elems, d)[i].key < Pow2(d)
    {
      VcIndexOfSlot(elems[i].key, d);
    }
  }

  /** Against the leaf level of a commitment, matching nodes is opening committed values. */
  lemma MatchesIsOpens(h: HashFn, leaves: seq<Digest>, d: nat, elems: seq<Elem>)
    requires d <= USIZE_BITS
    ensures LastMatches(Internal(elems, d), LeafLevel(h, leaves, d)) <==> LastOpensCommitted(h, leaves, d, elems)
  {
    hide VcIndex, SlotOf, Pow2, LeafAt;
    var r, level := Internal(elems, d), LeafLevel(h, leaves, d);
    forall i: nat | i < |r|
      ensures r[i].key < |level| && level[r[i].key] == Committed(h, leaves, SlotOf(elems[i].key, d))
      ensures IsLast(r, i) <==> LastInSlot(elems, d, i)
    {
      LeafLevelHolds(h, leaves, d, elems[i].key);
      InternalLast(elems, d, i);
    }
    hide Committed;
    if LastMatches(r, level) {
      forall i: nat | LastInSlot(elems, d, i)
        ensures elems[i].value == Committed(h, leaves, SlotOf(elems[i].key, d))
      {
        assert IsLast(r, i);
      }
    }
  }

  /** A batch whose last entries open committed values is accepted with the path of absent siblings. */
  lemma VcBatchCompleteness(h: HashFn, leaves: seq<Digest>, elems: seq<Elem>)
    requires leaves != [] && Addressable(leaves) && elems != []
    requires LastOpensCommitted(h, leaves, CeilLog2(|leaves|), elems)
    ensures VcBatchAccepts(h, elems, CeilLog2(|leaves|), VcBatchPath(h, leaves, elems), VcRoot(h, leaves))
  {
    hide LastMatches, LastOpensCommitted, BatchAccepts, BatchPath, Keys, Levels, Root;
    var d := CeilLog2(|leaves|);
    DepthInRange(leaves);
    MatchesIsOpens(h, leaves, d, elems);
    BatchCompleteness(h, LeafLevel(h, leaves, d), BottomLeaf(h), d, Internal(elems, d));
  }

  /**
   An accepted batch holds, in the last entry for every slot it addresses, what the commitment holds there,
   along exactly the path of absent siblings; otherwise a collision is exposed. Indices may be repeated and
   may exceed the capacity.
   */
  lemma VcBatchBinding(h: HashFn, leaves: seq<Digest>, elems: seq<Elem>, path: seq<Digest>)
    requires h.Valid() && leaves != [] && Addressable(leaves) && h.Sized(leaves)
    requires SizedLevel(h, elems) && h.Sized(path) && elems != []
    requires VcBatchAccepts(h, elems, CeilLog2(|leaves|), path, VcRoot(h, leaves))
    ensures (LastOpensCommitted(h, leaves, CeilLog2(|leaves|), elems) && path == VcBatchPath(h, leaves, elems))
         || h.CollisionBetween(VcBatchPreimages(h, elems, CeilLog2(|leaves|), path), VcPreimages(h, leaves))
  {
    hide LastMatches, LastOpensCommitted, BatchAccepts, BatchPath, Keys, Levels, Root, BatchPreimages, TreePreimages;
    var d := CeilLog2(|leaves|);
    DepthInRange(leaves);
    InternalBelow(elems, d);
    LeafLevelSized(h, leaves, d);
    MatchesIsOpens(h, leaves, d, elems);
    assert SizedLevel(h, Internal(elems, d));
    BatchBinding(h, LeafLevel(h, leaves, d), BottomLeaf(h), d, Internal(elems, d), path);
  }

  lemma VcBatchPathSized(h: HashFn, leaves: seq<Digest>, elems: seq<Elem>)
    requires h.Valid() && leaves != [] && Addressable(leaves) && h.Sized(leaves)
    ensures h.Sized(VcBatchPath(h, leaves, elems))
  {
    hide Levels, BatchPath, Keys;
    var d := CeilLog2(|leaves|);
    DepthInRange(leaves);
    LeafLevelSized(h, leaves, d);
    BatchPathSized(h, LeafLevel(h, leaves, d), BottomLeaf(h), Keys(Internal(elems, d)));
  }

  /** Such a batch makes the verifier hash only what was hashed to commit. */
  lemma VcBatchInputsInTree(h: HashFn, leaves: seq<Digest>, elems: seq<Elem>)
    requires leaves != [] && Addressable(leaves) && elems != []
    requires LastOpensCommitted(h, leaves, CeilLog2(|leaves|), elems)
    ensures VcBatchPreimages(h, elems, CeilLog2(|leaves|), VcBatchPath(h, leaves, elems)) <= VcPreimages(h, leaves)
  {
    hide LastMatches, LastOpensCommitted, BatchPath, Keys, Levels, BatchPreimages, TreePreimages;
    var d := CeilLog2(|leaves|);
    DepthInRange(leaves);
    MatchesIsOpens(h, leaves, d, elems);
    BatchInputsInTree(h, LeafLevel(h, leaves, d), BottomLeaf(h), d, Internal(elems, d));
  }

  // ---------------------------------------------------------------- repeated slots

  /**
   Nothing binds an entry whose slot is named again later in the batch: it can be dropped, or replaced by
   any other digest at any index of the same slot, without changing the verdict.
   */
  lemma AliasedEntryIgnored(
    h: HashFn, pre: seq<Elem>, e: Elem, rest: seq<Elem>, j: nat, depth: nat, path: seq<Digest>, root: Digest)
    requires depth <= USIZE_BITS && j < |rest| && SlotOf(rest[j].key, depth) == SlotOf(e.key, depth)
    ensures VcBatchAccepts(h, pre + [e] + rest, depth, path, root) <==> VcBatchAccepts(h, pre + rest, depth, path, root)
  {
    hide VcIndex, SlotOf, BatchAccepts;
    var mapped := Entry(VcIndex(e.key, depth), e.value);
    var before, after := Internal(pre, depth), Internal(rest, depth);
    assert Internal(pre + [e] + rest, depth) == before + [mapped] + after;
    assert Internal(pre + rest, depth) == before + after;
    SamePosition(e.key, rest[j].key, depth);
    EntryOverwritten(before, mapped, after, j);
    BatchLastWins(h, before + [mapped] + after, before + after, depth, path, root);
  }

  lemma {:induction false} EntryOverwritten(pre: seq<Elem>, e: Elem, rest: seq<Elem>, j: nat)
    requires j < |rest| && rest[j].key == e.key
    ensures LastWins(pre + [e] + rest) == LastWins(pre + rest)
    decreases |rest|
  {
    var init, last := rest[..|rest| - 1], rest[|rest| - 1];
    SplitLast(pre, e, rest);
    if j < |rest| - 1 {
      EntryOverwritten(pre, e, init, j);
    } else {
      EntryElsewhere(pre, e, init);
      UpdateAway(LastWins(pre + [e] + init), LastWins(pre + init), e.key, last.key, last.value);
    }
  }

  lemma SplitLast(pre: seq<Elem>, e: Elem, rest: seq<Elem>)
    requires rest != []
    ensures var init, last := rest[..|rest| - 1], rest[|rest| - 1];
            && LastWins(pre + [e] + rest) == LastWins(pre + [e] + init)[last.key := last.value]
            && LastWins(pre + rest) == LastWins(pre + init)[last.key := last.value]
  {
    var init, last := rest[..|rest| - 1], rest[|rest| - 1];
    var with, without := pre + [e] + rest, pre + rest;
    assert with[..|with| - 1] == pre + [e] + init && with[|with| - 1] == last;
    assert without[..|without| - 1] == pre + init && without[|without| - 1] == last;
  }

  /** Maps that agree off `k` agree off `k` after the same update, and everywhere once `k` is updated. */
  lemma UpdateAway(m: map<nat, Digest>, n: map<nat, Digest>, k: nat, l: nat, v: Digest)
    requires m - {k} == n - {k}
    ensures m[l := v] - {k} == n[l := v] - {k}
    ensures l == k ==> m[l := v] == n[l := v]
  {
    forall x | x != k
      ensures x in m <==> x in n
      ensures x in m ==> m[x] == n[x]
    {
      assert x in m - {k} <==> x in n - {k};
      assert x in m - {k} ==> (m - {k})[x] == (n - {k})[x];
    }
  }

  lemma {:induction false} EntryElsewhere(pre: seq<Elem>, e: Elem, rest: seq<Elem>)
    ensures LastWins(pre + [e] + rest) - {e.key} == LastWins(pre + rest) - {e.key}
    decreases |rest|
  {
    if rest == [] {
      var with := pre + [e];
      assert with + rest == with && pre + rest == pre;
      assert with[..|with| - 1] == pre;
    } else {
      var init, last := rest[..|rest| - 1], rest[|rest| - 1];
      SplitLast(pre, e, rest);
      EntryElsewhere(pre, e, init);
      UpdateAway(LastWins(pre + [e] + init), LastWins(pre + init), e.key, last.key, last.value);
    }
  }
}
