/** Vector commitments: Merkle trees of power-of-two width whose leaves sit at bit-reversed positions. */
module VcTree {
  import opened Bytes
  import opened Bits
  import opened Hashing
  import opened MerkleTree

  const USIZE_BITS: nat := 64

  /**
   The tree position of external index `idx`: a full-word reversal shifted down. For a depth above the
   word size the shift amount wraps, as it does in a build without overflow checks.
   */
  function VcIndex(idx: nat, depth: nat): nat {
    if depth == 0 then 0 else ShiftRight(ReverseBits(USIZE_BITS, idx), (USIZE_BITS - depth) % USIZE_BITS)
  }

  /** How the program was built: with a panic on arithmetic overflow, or without. */
  datatype Build = OverflowChecked | Wrapping

  /** The subtraction in the index computation panics. */
  predicate Overflows(build: Build, depth: nat) {
    build.OverflowChecked? && depth > USIZE_BITS
  }

  /** What a check returns, unless it panics. */
  datatype Answer = Answers(ok: bool) | Overflow

  /** `VcIndex` reverses exactly the `depth` low bits of the index and ignores all others. */
  lemma VcIndexReverses(idx: nat, depth: nat)
    requires depth <= USIZE_BITS
    ensures VcIndex(idx, depth) == ReverseBits(depth, idx) < Pow2(depth)
    ensures VcIndex(idx, depth) == VcIndex(idx % Pow2(depth), depth)
  {
    hide VcIndex, ReverseBits, Pow2;
    VcIndexIsReversal(idx, depth);
    VcIndexIsReversal(idx % Pow2(depth), depth);
    ReverseLowBits(depth, idx);
  }

  lemma VcIndexIsReversal(idx: nat, depth: nat)
    requires depth <= USIZE_BITS
    ensures VcIndex(idx, depth) == ReverseBits(depth, idx)
  {
    hide ShiftRight;
    if depth > 0 {
      hide ReverseBits;
      assert (USIZE_BITS - depth) % USIZE_BITS == USIZE_BITS - depth;
      ReversalShifted(USIZE_BITS, idx, depth);
    }
  }

  lemma ReversalShifted(width: nat, idx: nat, depth: nat)
    requires depth <= width
    ensures ShiftRight(ReverseBits(width, idx), width - depth) == ReverseBits(depth, idx)
  {
    ShiftDivides(ReverseBits(width, idx), width - depth);
    ReverseThenShift(width, depth, idx);
  }

  /** On positions of the tree it is its own inverse, hence a permutation. */
  lemma VcIndexInvolution(idx: nat, depth: nat)
    requires depth <= USIZE_BITS && idx < Pow2(depth)
    ensures VcIndex(VcIndex(idx, depth), depth) == idx
  {
    VcIndexReverses(idx, depth);
    VcIndexReverses(VcIndex(idx, depth), depth);
    ReverseInvolution(depth, idx);
  }

  function BottomLeaf(h: HashFn): Digest {
    h.digest(MERKLE_VC_BOTTOM_LEAF)
  }

  /** What tree position `p` holds: the leaf whose reversed index is `p`, or the bottom leaf. */
  function LeafAt(h: HashFn, leaves: seq<Digest>, depth: nat, p: nat): Digest {
    if VcIndex(p, depth) < |leaves| then leaves[VcIndex(p, depth)] else BottomLeaf(h)
  }

  function LeafLevel(h: HashFn, leaves: seq<Digest>, depth: nat): (level: seq<Digest>)
    ensures |level| == Pow2(depth)
    ensures forall p :: 0 <= p < |level| ==> level[p] == LeafAt(h, leaves, depth, p)
  {
    seq(Pow2(depth), p requires 0 <= p < Pow2(depth) => LeafAt(h, leaves, depth, p))
  }

  datatype VcTree = VcTree(levels: seq<seq<Digest>>, leafCount: nat) {
    ghost predicate Over(h: HashFn, leaves: seq<Digest>)
      requires Addressable(leaves)
    {
      && leafCount == |leaves|
      && levels == if leaves == [] then [] else VcLevels(h, leaves)
    }
  }

  const MAX_LEAVES: nat := 0x8000_0000_0000_0000

  /** Vectors longer than this do not fit into memory, and `next_power_of_two` overflows beyond. */
  ghost predicate Addressable<T>(leaves: seq<T>) {
    |leaves| <= MAX_LEAVES
  }

  lemma SmallPowers()
    ensures Pow2(7) == 128 && Pow2(8) == 256
  {
  }

  lemma MaxLeavesIsPow2()
    ensures Pow2(USIZE_BITS - 1) == MAX_LEAVES
  {
    hide Pow2;
    SmallPowers();
    Pow2Add(8, 8);
    Pow2Add(16, 16);
    Pow2Add(7, 8);
    Pow2Add(15, 16);
    Pow2Add(31, 32);
  }

  lemma DepthInRange<T>(leaves: seq<T>)
    requires leaves != [] && Addressable(leaves)
    ensures CeilLog2(|leaves|) < USIZE_BITS
  {
    var d := CeilLog2(|leaves|);
    MaxLeavesIsPow2();
    if d > USIZE_BITS { Pow2Monotone(USIZE_BITS - 1, d - 1); }
  }

  /** The levels of the commitment to `leaves`. */
  ghost function VcLevels(h: HashFn, leaves: seq<Digest>): seq<seq<Digest>>
    requires leaves != [] && Addressable(leaves)
  {
    DepthInRange(leaves);
    Levels(h, LeafLevel(h, leaves, CeilLog2(|leaves|)), BottomLeaf(h))
  }

  ghost function VcRoot(h: HashFn, leaves: seq<Digest>): Digest
    requires leaves != [] && Addressable(leaves)
  {
    DepthInRange(leaves);
    Root(VcLevels(h, leaves))
  }

  method NextPowerOfTwo(n: nat) returns (capacity: nat, depth: nat)
    requires n > 0
    ensures depth == CeilLog2(n) && capacity == Pow2(depth)
  {
    capacity, depth := 1, 0;
    while capacity < n
      invariant capacity == Pow2(depth) && (depth > 0 ==> Pow2(depth - 1) < n)
      decreases n - capacity
    {
      capacity, depth := 2 * capacity, depth + 1;
    }
    CeilLog2Unique(n, depth);
  }

  lemma NothingPlaced(h: HashFn, level: seq<Digest>, depth: nat)
    requires forall p :: 0 <= p < |level| ==> level[p] == BottomLeaf(h)
    ensures forall p :: 0 <= p < |level| ==> level[p] == LeafAt(h, [], depth, p)
  {
  }

  /** Places every leaf at its reversed index over a level of bottom leaves. */
  method PlaceLeaves(h: HashFn, leaves: seq<Digest>, capacity: nat, depth: nat) returns (level: seq<Digest>)
    requires depth <= USIZE_BITS && capacity == Pow2(depth) && |leaves| <= capacity
    ensures level == LeafLevel(h, leaves, depth)
  {
    hide VcIndex, Pow2;
    level := seq(capacity, _ => BottomLeaf(h));
    NothingPlaced(h, level, depth);
    var i := 0;
    while i < |leaves|
      invariant 0 <= i <= |leaves| && |level| == capacity
      invariant forall p :: 0 <= p < capacity ==> level[p] == LeafAt(h, leaves[..i], depth, p)
    {
      var slot := VcIndex(i, depth);
      VcIndexReverses(i, depth);
      VcIndexInvolution(i, depth);
      assert leaves[..i + 1] == leaves[..i] + [leaves[i]];
      var updated := level[slot := leaves[i]];
      forall p | 0 <= p < capacity
        ensures updated[p] == LeafAt(h, leaves[..i + 1], depth, p)
      {
        VcIndexInvolution(p, depth);
      }
      level := updated;
      i := i + 1;
    }
    assert leaves[..i] == leaves;
  }

  method BuildVcTree(h: HashFn, leaves: seq<seq<Byte>>) returns (t: VcTree)
    requires Addressable(LeafDigests(h, leaves))
    ensures t.Over(h, LeafDigests(h, leaves))
  {
    if leaves == [] { return VcTree([], 0); }
    var digests := LeafDigests(h, leaves);
    var capacity, depth := NextPowerOfTwo(|leaves|);
    DepthInRange(digests);
    var level := PlaceLeaves(h, digests, capacity, depth);
    var levels := BuildLevels(h, level, BottomLeaf(h));
    t := VcTree(levels, |leaves|);
  }

  // ---------------------------------------------------------------- perfect trees

  /** Over a power-of-two leaf level every level has a power-of-two width. */
  lemma {:induction false} PerfectLevels(h: HashFn, leaves: seq<Digest>, pad: Digest, d: nat, k: nat)
    requires |leaves| == Pow2(d) && k <= d
    ensures |Levels(h, leaves, pad)| == d + 1
    ensures |Levels(h, leaves, pad)[k]| == Pow2(d - k)
    decreases d
  {
    if d > 0 {
      PerfectLevels(h, Parents(h, leaves, pad), pad, d - 1, if k > 0 then k - 1 else 0);
    }
  }

  lemma {:induction false} AncestorInRange(i: nat, d: nat, k: nat)
    requires i < Pow2(d) && k <= d
    ensures Ancestor(i, k) < Pow2(d - k)
    ensures k < d ==> Sibling(Ancestor(i, k)) < Pow2(d - k)
    decreases k
  {
    if k > 0 { AncestorInRange(i / 2, d - 1, k - 1); }
  }

  /** Climbing from `start`, every node has a sibling inside its level. */
  ghost predicate SiblingsInBounds(levels: seq<seq<Digest>>, start: nat) {
    forall k :: 0 <= k < |levels| - 1 ==> Sibling(Ancestor(start, k)) < |levels[k]|
  }

  lemma PerfectSiblingsInBounds(h: HashFn, leaves: seq<Digest>, pad: Digest, d: nat, start: nat)
    requires |leaves| == Pow2(d) && start < Pow2(d)
    ensures |Levels(h, leaves, pad)| == d + 1 && SiblingsInBounds(Levels(h, leaves, pad), start)
  {
    PerfectLevels(h, leaves, pad, d, 0);
    forall k | 0 <= k < d
      ensures Sibling(Ancestor(start, k)) < |Levels(h, leaves, pad)[k]|
    {
      PerfectLevels(h, leaves, pad, d, k);
      AncestorInRange(start, d, k);
    }
  }

  /** Collects siblings without any bounds check. */
  method CollectSiblings(levels: seq<seq<Digest>>, start: nat, ghost pad: Digest) returns (path: seq<Digest>)
    requires |levels| > 0 && SiblingsInBounds(levels, start)
    ensures path == SiblingPath(levels, start, pad)
  {
    path := [];
    var idx, k := start, 0;
    while k < |levels| - 1
      invariant 0 <= k <= |levels| - 1 && idx == Ancestor(start, k)
      invariant path == SiblingPath(levels[..k + 1], start, pad)
    {
      path := path + [levels[k][Sibling(idx)]];
      SiblingPathAppend(levels[..k + 1], levels[k + 1], start, pad);
      assert levels[..k + 2] == levels[..k + 1] + [levels[k + 1]];
      AncestorStep(start, k);
      idx := idx / 2;
      k := k + 1;
    }
    assert levels[..k + 1] == levels;
  }

  /** The sibling path of external index `index`. */
  method ProveInVcTree(h: HashFn, t: VcTree, index: nat, ghost leaves: seq<Digest>) returns (proof: Option<Proof>)
    requires Addressable(leaves) && t.Over(h, leaves)
    ensures proof.None? <==> index >= |leaves|
    ensures proof.Some? ==>
              && CeilLog2(|leaves|) < USIZE_BITS
              && proof.value.treeDepth == CeilLog2(|leaves|)
              && proof.value.path
              == SiblingPath(VcLevels(h, leaves), VcIndex(index, CeilLog2(|leaves|)), BottomLeaf(h))
  {
    if t.levels == [] || index >= t.leafCount { return None; }
    DepthInRange(leaves);
    VcIndexReverses(index, CeilLog2(|leaves|));
    PerfectSiblingsInBounds(h, LeafLevel(h, leaves, CeilLog2(|leaves|)), BottomLeaf(h), CeilLog2(|leaves|),
                            VcIndex(index, CeilLog2(|leaves|)));
    var last := |t.levels| - 1;
    var path := CollectSiblings(t.levels, VcIndex(index, last), BottomLeaf(h));
    proof := Some(Proof(last, path));
  }

  method VerifyVcWith(h: HashFn, build: Build, proof: Proof, leaf: Digest, index: nat, root: Digest) returns (r: Answer)
    ensures r == if Overflows(build, proof.treeDepth) then Overflow
                 else Answers(Climb(h, leaf, VcIndex(index, proof.treeDepth), proof.path) == root)
  {
    if Overflows(build, proof.treeDepth) { return Overflow; }
    var ok := VerifyWith(h, proof, leaf, VcIndex(index, proof.treeDepth), root);
    r := Answers(ok);
  }

  // ---------------------------------------------------------------- completeness and binding

  /** Every leaf of every non-empty vector is proved by its own sibling path. */
  lemma VcCompleteness(h: HashFn, leaves: seq<Digest>, i: nat)
    requires Addressable(leaves) && i < |leaves|
    ensures CeilLog2(|leaves|) < USIZE_BITS
    ensures var p := VcIndex(i, CeilLog2(|leaves|));
            Climb(h, leaves[i], p, SiblingPath(VcLevels(h, leaves), p, BottomLeaf(h))) == VcRoot(h, leaves)
  {
    DepthInRange(leaves);
    var d := CeilLog2(|leaves|);
    VcIndexReverses(i, d);
    VcIndexInvolution(i, d);
    ClimbCompleteness(h, LeafLevel(h, leaves, d), BottomLeaf(h), VcIndex(i, d));
  }

  lemma CeilLog2OfPow2(d: nat)
    ensures CeilLog2(Pow2(d)) == d
  {
    CeilLog2Unique(Pow2(d), d);
  }

  lemma LeafLevelSized(h: HashFn, leaves: seq<Digest>, d: nat)
    requires h.Valid() && h.Sized(leaves)
    ensures h.Sized(LeafLevel(h, leaves, d))
  {
  }

  /** The inputs hashed inside the commitment to `leaves`. */
  ghost function VcPreimages(h: HashFn, leaves: seq<Digest>): set<seq<Byte>>
    requires leaves != [] && Addressable(leaves)
  {
    DepthInRange(leaves);
    TreePreimages(h, LeafLevel(h, leaves, CeilLog2(|leaves|)), BottomLeaf(h))
  }

  /** What external index `i` of the commitment is bound to. */
  function Committed(h: HashFn, leaves: seq<Digest>, i: nat): Digest {
    if i < |leaves| then leaves[i] else BottomLeaf(h)
  }

  /** The slot that an external index addresses: only its low bits count. */
  function SlotOf(index: nat, depth: nat): (slot: nat)
    ensures slot < Pow2(depth)
  {
    index % Pow2(depth)
  }

  lemma SlotBelowCapacity(index: nat, depth: nat)
    requires index < Pow2(depth)
    ensures SlotOf(index, depth) == index
  {
    QuotientUnique(index, 0, index, Pow2(depth));
  }

  lemma VcIndexOfSlot(index: nat, depth: nat)
    requires depth <= USIZE_BITS
    ensures VcIndex(index, depth) == VcIndex(SlotOf(index, depth), depth) < Pow2(depth)
    ensures VcIndex(VcIndex(index, depth), depth) == SlotOf(index, depth)
  {
    VcIndexReverses(index, depth);
    VcIndexInvolution(SlotOf(index, depth), depth);
  }

  /** Tree position `VcIndex(i)` holds what the slot of external index `i` is bound to. */
  lemma LeafLevelHolds(h: HashFn, leaves: seq<Digest>, d: nat, i: nat)
    requires d <= USIZE_BITS
    ensures VcIndex(i, d) < Pow2(d) && LeafLevel(h, leaves, d)[VcIndex(i, d)] == Committed(h, leaves, SlotOf(i, d))
  {
    hide VcIndex, SlotOf;
    VcIndexOfSlot(i, d);
  }

  /** The path that the commitment's own tree has for an external index. */
  ghost function VcPath(h: HashFn, leaves: seq<Digest>, i: nat): seq<Digest>
    requires leaves != [] && Addressable(leaves)
  {
    SiblingPath(VcLevels(h, leaves), VcIndex(i, CeilLog2(|leaves|)), BottomLeaf(h))
  }

  /**
   A full-length path accepted for external index `i` is the tree's own path and opens exactly the value
   committed in the slot of `i` (the bottom leaf past the end of the vector), or exposes a collision.
   */
  lemma VcBinding(h: HashFn, leaves: seq<Digest>, i: nat, leaf: Digest, path: seq<Digest>)
    requires h.Valid() && leaves != [] && Addressable(leaves) && h.Sized(leaves)
    requires |leaf| == h.size && h.Sized(path) && |path| == CeilLog2(|leaves|)
    requires Climb(h, leaf, VcIndex(i, CeilLog2(|leaves|)), path) == VcRoot(h, leaves)
    ensures (leaf == Committed(h, leaves, SlotOf(i, CeilLog2(|leaves|))) && path == VcPath(h, leaves, i))
         || h.CollisionBetween(ClimbPreimages(h, leaf, VcIndex(i, CeilLog2(|leaves|)), path), VcPreimages(h, leaves))
  {
    var d := CeilLog2(|leaves|);
    DepthInRange(leaves);
    LeafLevelHolds(h, leaves, d, i);
    LeafLevelSized(h, leaves, d);
    CeilLog2OfPow2(d);
    hide VcIndex, Pow2, CeilLog2, Levels, Climb, ClimbPreimages, TreePreimages, Addressable, Root, LeafAt, SlotOf;
    TreeBinding(h, LeafLevel(h, leaves, d), BottomLeaf(h), VcIndex(i, d), leaf, path);
  }
}
