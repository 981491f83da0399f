/** Opening one index of a vector commitment made over leaf inputs. */
module VcOpening {
  import opened Bytes
  import opened Bits
  import opened Hashing
  import opened MerkleTree
  import opened VcTree
  import opened DepthBinding

  /** The root that a proof leads to from a leaf input at an external index. */
  function ProvenRoot(h: HashFn, leaf: seq<Byte>, index: nat, proof: Proof): Digest {
    Climb(h, h.digest(leaf), VcIndex(index, proof.treeDepth), proof.path)
  }

  /** Every input hashed on the way to that root. */
  function ProofInputs(h: HashFn, leaf: seq<Byte>, index: nat, proof: Proof): set<seq<Byte>> {
    {leaf} + ClimbPreimages(h, h.digest(leaf), VcIndex(index, proof.treeDepth), proof.path)
  }

  // ---------------------------------------------------------------- which slot a proof is about

  /** Where the climb starts in a tree as high as the path is long. */
  function StartPosition(index: nat, proof: Proof): nat {
    VcIndex(index, proof.treeDepth) % Pow2(|proof.path|)
  }

  /** The slot at that position. */
  function ProvenSlot(index: nat, proof: Proof): nat {
    ReverseBits(|proof.path|, VcIndex(index, proof.treeDepth))
  }

  /** The climb starts where the index belongs in a tree as high as the path is long. */
  predicate StartsRight(index: nat, proof: Proof) {
    StartPosition(index, proof) == VcIndex(index, |proof.path|)
  }

  /** The declared depth is the length of the path: what a caller can check of a proof. */
  predicate WellFormed(proof: Proof) {
    proof.treeDepth == |proof.path| <= USIZE_BITS
  }

  lemma ProvenSlotPosition(index: nat, proof: Proof)
    requires |proof.path| <= USIZE_BITS
    ensures ProvenSlot(index, proof) < Pow2(|proof.path|)
    ensures VcIndex(ProvenSlot(index, proof), |proof.path|) == StartPosition(index, proof)
  {
    hide VcIndex, ReverseBits, Pow2;
    var p, i := |proof.path|, VcIndex(index, proof.treeDepth);
    VcIndexReverses(ProvenSlot(index, proof), p);
    ReverseLowBits(p, i);
    ReverseInvolution(p, i % Pow2(p));
  }

  /** It starts right exactly if the proven slot is that of the index. */
  lemma StartsRightIff(index: nat, proof: Proof)
    requires |proof.path| <= USIZE_BITS
    ensures StartsRight(index, proof) <==> ProvenSlot(index, proof) == SlotOf(index, |proof.path|)
  {
    hide VcIndex, ReverseBits, Pow2, StartPosition, ProvenSlot, SlotOf;
    var p := |proof.path|;
    ProvenSlotPosition(index, proof);
    VcIndexOfSlot(index, p);
    VcIndexInvolution(ProvenSlot(index, proof), p);
  }

  lemma WellFormedStartsRight(index: nat, proof: Proof)
    requires WellFormed(proof)
    ensures StartsRight(index, proof)
  {
    hide VcIndex, Pow2;
    VcIndexReverses(index, |proof.path|);
    QuotientUnique(VcIndex(index, |proof.path|), 0, VcIndex(index, |proof.path|), Pow2(|proof.path|));
  }

  // ---------------------------------------------------------------- two proofs of one commitment

  /** Two proofs about one place that lead to one root are one path from one leaf, or collide. */
  lemma ProofsAgree(h: HashFn, a: seq<Byte>, i: nat, p: Proof, b: seq<Byte>, j: nat, q: Proof)
    requires h.Valid() && h.Sized(p.path) && h.Sized(q.path)
    requires |p.path| == |q.path| && StartPosition(i, p) == StartPosition(j, q)
    requires ProvenRoot(h, a, i, p) == ProvenRoot(h, b, j, q)
    ensures (a == b && p.path == q.path) || h.CollisionBetween(ProofInputs(h, a, i, p), ProofInputs(h, b, j, q))
  {
    hide VcIndex, Climb, ClimbPreimages, Pow2;
    var at := StartPosition(i, p);
    ClimbModulo(h, h.digest(a), VcIndex(i, p.treeDepth), p.path);
    ClimbModulo(h, h.digest(b), VcIndex(j, q.treeDepth), q.path);
    PathBinding(h, h.digest(a), p.path, h.digest(b), q.path, at);
    if h.CollisionBetween(ClimbPreimages(h, h.digest(a), at, p.path), ClimbPreimages(h, h.digest(b), at, q.path)) {
      CollisionMonotone(h, ClimbPreimages(h, h.digest(a), at, p.path), ClimbPreimages(h, h.digest(b), at, q.path),
                        ProofInputs(h, a, i, p), ProofInputs(h, b, j, q));
    } else if a != b {
      assert h.Collide(a, b);
    }
  }

  /** A climb that is shorter from the same index meets a leaf with an inner node. */
  lemma ShorterProofCollides(h: HashFn, a: seq<Byte>, p: Proof, b: seq<Byte>, q: Proof, index: nat)
    requires h.Valid() && h.Sized(p.path) && h.Sized(q.path) && !IsNodeInput(a)
    requires WellFormed(p) && WellFormed(q) && |p.path| < |q.path|
    requires ProvenRoot(h, a, index, p) == ProvenRoot(h, b, index, q)
    ensures h.CollisionBetween(ProofInputs(h, a, index, p), ProofInputs(h, b, index, q))
  {
    hide VcIndex, Climb, ClimbPreimages, Pow2, ReverseBits, ShiftRight;
    var n := |q.path| - |p.path|;
    var i, j := VcIndex(index, |p.path|), VcIndex(index, |q.path|);
    VcIndexReverses(index, |p.path|);
    VcIndexReverses(index, |q.path|);
    ReverseThenShift(|q.path|, |p.path|, index);
    ShiftDivides(j, n);
    ClimbSplit(h, h.digest(b), j, q.path, n);
    var low := q.path[..n];
    var node := ClimbTop(h, h.digest(b), j, low);
    var mid := Climb(h, h.digest(b), j, low);
    PathBinding(h, h.digest(a), p.path, mid, q.path[n..], i);
    var ours, theirs := ProofInputs(h, a, index, p), ProofInputs(h, b, index, q);
    if h.digest(a) == mid {
      assert a in ours && node in theirs && h.Collide(a, node);
    } else {
      CollisionMonotone(h, ClimbPreimages(h, h.digest(a), i, p.path), ClimbPreimages(h, mid, i, q.path[n..]),
                        ours, theirs);
    }
  }

  /**
   Two proofs for one index whose declared depths are the lengths of their paths, whatever these are, are one
   proof of one leaf, or collide.
   */
  lemma WellFormedProofsAgree(h: HashFn, a: seq<Byte>, p: Proof, b: seq<Byte>, q: Proof, index: nat)
    requires h.Valid() && h.Sized(p.path) && h.Sized(q.path) && !IsNodeInput(a) && !IsNodeInput(b)
    requires WellFormed(p) && WellFormed(q) && ProvenRoot(h, a, index, p) == ProvenRoot(h, b, index, q)
    ensures (a == b && p == q) || h.CollisionBetween(ProofInputs(h, a, index, p), ProofInputs(h, b, index, q))
  {
    hide ProvenRoot, ProofInputs, StartPosition;
    if |p.path| < |q.path| {
      ShorterProofCollides(h, a, p, b, q, index);
    } else if |q.path| < |p.path| {
      ShorterProofCollides(h, b, q, a, p, index);
      CollisionSymmetric(h, ProofInputs(h, b, index, q), ProofInputs(h, a, index, p));
    } else {
      WellFormedStartsRight(index, p);
      WellFormedStartsRight(index, q);
      ProofsAgree(h, a, index, p, b, index, q);
    }
  }

  // ---------------------------------------------------------------- against what was committed

  /** The inputs hashed to commit to a vector of leaf inputs. */
  ghost function VectorInputs(h: HashFn, leaves: seq<seq<Byte>>): set<seq<Byte>>
    requires leaves != [] && Addressable(LeafDigests(h, leaves))
  {
    VectorLeaves(leaves) + VcPreimages(h, LeafDigests(h, leaves))
  }

  function VectorLeaves(leaves: seq<seq<Byte>>): set<seq<Byte>> {
    (set i | 0 <= i < |leaves| :: leaves[i]) + {MERKLE_VC_BOTTOM_LEAF}
  }

  /** What a slot of the committed vector holds: past its end, the filler. */
  function HeldIn(leaves: seq<seq<Byte>>, slot: nat): seq<Byte> {
    if slot < |leaves| then leaves[slot] else MERKLE_VC_BOTTOM_LEAF
  }

  /** The commitment is the root over these leaves. */
  ghost predicate CommitsToLeaves(h: HashFn, commitment: Digest, leaves: seq<seq<Byte>>) {
    leaves != [] && Addressable(LeafDigests(h, leaves)) && commitment == VcRoot(h, LeafDigests(h, leaves))
  }

  /** Leaf inputs carry a tag other than that of inner nodes. */
  ghost predicate Tagged(leaves: seq<seq<Byte>>) {
    forall i :: 0 <= i < |leaves| ==> !IsNodeInput(leaves[i])
  }

  /** A path of another length than the committed vector's takes a leaf for a node or a node for a leaf. */
  lemma PathLengthForced(h: HashFn, leaves: seq<seq<Byte>>, leaf: seq<Byte>, index: nat, proof: Proof)
    requires h.Valid() && leaves != [] && Addressable(LeafDigests(h, leaves)) && h.Sized(proof.path)
    requires Tagged(leaves) && !IsNodeInput(leaf) && |proof.path| != CeilLog2(|leaves|)
    requires ProvenRoot(h, leaf, index, proof) == VcRoot(h, LeafDigests(h, leaves))
    ensures h.CollisionBetween(ProofInputs(h, leaf, index, proof), VectorInputs(h, leaves))
  {
    hide VcIndex, Climb, ClimbPreimages, Pow2, CeilLog2, TreePreimages, Levels, AllLeaves, VectorLeaves;
    var D, at, digests := CeilLog2(|leaves|), StartPosition(index, proof), LeafDigests(h, leaves);
    ClimbModulo(h, h.digest(leaf), VcIndex(index, proof.treeDepth), proof.path);
    LeafLevelSized(h, digests, D);
    LeavesFromVector(h, leaves);
    FillerInVector(leaves);
    LeafLevelIsLeaves(h, digests, D, VectorLeaves(leaves));
    assert LeafFrom(h, h.digest(leaf), {leaf}) by { assert leaf in {leaf}; }
    DepthInRange(digests);
    ClimbLengthForced(h, LeafLevel(h, digests, D), BottomLeaf(h), D, at, h.digest(leaf), proof.path,
                      {leaf}, VectorLeaves(leaves));
  }

  lemma FillerInVector(leaves: seq<seq<Byte>>)
    ensures MERKLE_VC_BOTTOM_LEAF in VectorLeaves(leaves)
  {
  }

  lemma LeavesFromVector(h: HashFn, leaves: seq<seq<Byte>>)
    requires Tagged(leaves)
    ensures AllLeaves(h, LeafDigests(h, leaves), VectorLeaves(leaves))
  {
    forall i | 0 <= i < |leaves|
      ensures LeafFrom(h, h.digest(leaves[i]), VectorLeaves(leaves))
    {
      assert leaves[i] in VectorLeaves(leaves);
    }
  }

  /**
   Whatever its declared depth and the length of its path, a proof accepted against the commitment to a vector has
   a path of the vector's depth, and proves what the vector holds in the slot at which the climb starts, along the
   tree's own path; or it exposes a collision. Nothing but the filler can be proved past the end.
   */
  lemma ProvenIsCommitted(h: HashFn, leaves: seq<seq<Byte>>, leaf: seq<Byte>, index: nat, proof: Proof)
    requires h.Valid() && leaves != [] && Addressable(LeafDigests(h, leaves)) && h.Sized(proof.path)
    requires Tagged(leaves) && !IsNodeInput(leaf)
    requires ProvenRoot(h, leaf, index, proof) == VcRoot(h, LeafDigests(h, leaves))
    ensures || (&& |proof.path| == CeilLog2(|leaves|) && leaf == HeldIn(leaves, ProvenSlot(index, proof))
                && proof.path == VcPath(h, LeafDigests(h, leaves), ProvenSlot(index, proof)))
            || h.CollisionBetween(ProofInputs(h, leaf, index, proof), VectorInputs(h, leaves))
  {
    hide Climb, ClimbPreimages, VcRoot, VcPreimages, Pow2, CeilLog2, Addressable, VcPath, StartPosition;
    hide Tagged, ProvenSlot;
    if |proof.path| != CeilLog2(|leaves|) {
      PathLengthForced(h, leaves, leaf, index, proof);
    } else {
      SlotBinding(h, leaves, leaf, index, proof);
    }
  }

  /** The same for a path of the right length, for leaves of any form. */
  lemma SlotBinding(h: HashFn, leaves: seq<seq<Byte>>, leaf: seq<Byte>, index: nat, proof: Proof)
    requires h.Valid() && leaves != [] && Addressable(LeafDigests(h, leaves)) && h.Sized(proof.path)
    requires |proof.path| == CeilLog2(|leaves|)
    requires ProvenRoot(h, leaf, index, proof) == VcRoot(h, LeafDigests(h, leaves))
    ensures (leaf == HeldIn(leaves, ProvenSlot(index, proof))
             && proof.path == VcPath(h, LeafDigests(h, leaves), ProvenSlot(index, proof)))
         || h.CollisionBetween(ProofInputs(h, leaf, index, proof), VectorInputs(h, leaves))
  {
    hide VcIndex, Climb, ClimbPreimages, VcRoot, VcPreimages, Pow2, CeilLog2, VcPath, ProvenSlot, SlotOf;
    var digests, slot := LeafDigests(h, leaves), ProvenSlot(index, proof);
    var held := HeldIn(leaves, slot);
    DepthInRange(digests);
    ProvenSlotPosition(index, proof);
    SlotBelowCapacity(slot, |proof.path|);
    ClimbModulo(h, h.digest(leaf), VcIndex(index, proof.treeDepth), proof.path);
    VcBinding(h, digests, slot, h.digest(leaf), proof.path);
    if h.digest(leaf) == Committed(h, digests, slot) && proof.path == VcPath(h, digests, slot) {
      assert held in VectorInputs(h, leaves) && leaf in ProofInputs(h, leaf, index, proof);
      assert leaf != held ==> h.Collide(leaf, held);
    } else {
      CollisionMonotone(h, ClimbPreimages(h, h.digest(leaf), StartPosition(index, proof), proof.path),
                        VcPreimages(h, digests), ProofInputs(h, leaf, index, proof), VectorInputs(h, leaves));
    }
  }

  /** If the climb starts right, the slot is that of the index. */
  lemma ProvenAtIndex(h: HashFn, leaves: seq<seq<Byte>>, leaf: seq<Byte>, index: nat, proof: Proof)
    requires h.Valid() && leaves != [] && Addressable(LeafDigests(h, leaves)) && h.Sized(proof.path)
    requires Tagged(leaves) && !IsNodeInput(leaf) && StartsRight(index, proof)
    requires ProvenRoot(h, leaf, index, proof) == VcRoot(h, LeafDigests(h, leaves))
    ensures leaf == HeldIn(leaves, SlotOf(index, CeilLog2(|leaves|)))
         || h.CollisionBetween(ProofInputs(h, leaf, index, proof), VectorInputs(h, leaves))
  {
    hide ProvenRoot, ProofInputs, VectorInputs, StartsRight, ProvenSlot, VcPath, CeilLog2, SlotOf;
    ProvenIsCommitted(h, leaves, leaf, index, proof);
    DepthInRange(LeafDigests(h, leaves));
    if |proof.path| == CeilLog2(|leaves|) { StartsRightIff(index, proof); }
  }

  /** What the tree over these leaves returns as the proof of this index. */
  ghost predicate OwnProof(h: HashFn, index: nat, proof: Proof, leaves: seq<seq<Byte>>) {
    var digests := LeafDigests(h, leaves);
    && leaves != [] && Addressable(digests) && proof.treeDepth == CeilLog2(|leaves|)
    && proof.path == VcPath(h, digests, index)
  }

  lemma OwnProofLeads(h: HashFn, leaves: seq<seq<Byte>>, index: nat, proof: Proof)
    requires OwnProof(h, index, proof, leaves) && SlotOf(index, proof.treeDepth) < |leaves|
    ensures ProvenRoot(h, leaves[SlotOf(index, proof.treeDepth)], index, proof) == VcRoot(h, LeafDigests(h, leaves))
  {
    hide VcIndex, Climb, VcRoot, SlotOf, Addressable, CeilLog2;
    DepthInRange(LeafDigests(h, leaves));
    VcIndexOfSlot(index, proof.treeDepth);
    VcCompleteness(h, LeafDigests(h, leaves), SlotOf(index, proof.treeDepth));
  }
}
