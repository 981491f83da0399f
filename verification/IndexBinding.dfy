/**
 Which proofs bind an index. The check takes the position of a leaf from the declared depth and the number of
 steps from the path, and does not compare them. Exactly where the two disagree about an index, a proof of one leaf
 is accepted for the index of another.
 */
module IndexBinding {
  import opened Bytes
  import opened Bits
  import opened Hashing
  import opened MerkleTree
  import opened VcTree
  import opened VcOpening
  import opened DepthBinding

  /** A proof of this depth and path length, accepted for this index, proves what the committed vector holds there. */
  ghost predicate Binds(h: HashFn, leaves: seq<seq<Byte>>, leaf: seq<Byte>, index: nat, proof: Proof)
    requires leaves != [] && Addressable(LeafDigests(h, leaves))
  {
    || leaf == HeldIn(leaves, SlotOf(index, CeilLog2(|leaves|)))
    || h.CollisionBetween(ProofInputs(h, leaf, index, proof), VectorInputs(h, leaves))
  }

  /** A proof of a tagged leaf that the check accepts against the commitment to tagged leaves. */
  ghost predicate AcceptedProof(h: HashFn, leaves: seq<seq<Byte>>, leaf: seq<Byte>, index: nat, proof: Proof) {
    && h.Valid() && leaves != [] && Addressable(LeafDigests(h, leaves)) && h.Sized(proof.path)
    && Tagged(leaves) && !IsNodeInput(leaf)
    && ProvenRoot(h, leaf, index, proof) == VcRoot(h, LeafDigests(h, leaves))
  }

  /** Every accepted proof with this depth and path length binds this index. */
  ghost predicate BindsIndex(index: nat, depth: Byte, length: nat) {
    forall h: HashFn, leaves: seq<seq<Byte>>, leaf: seq<Byte>, proof: Proof ::
      AcceptedProof(h, leaves, leaf, index, proof) && proof.treeDepth == depth && |proof.path| == length ==>
        Binds(h, leaves, leaf, index, proof)
  }

  /** The climb that such a proof makes starts where the index belongs. */
  predicate Agree(index: nat, depth: Byte, length: nat) {
    VcIndex(index, depth) % Pow2(length) == VcIndex(index, length)
  }

  lemma AgreeBinds(index: nat, depth: Byte, length: nat)
    requires Agree(index, depth, length)
    ensures BindsIndex(index, depth, length)
  {
    hide ProvenRoot, VcRoot, ProofInputs, VectorInputs, Tagged, CeilLog2, SlotOf, VcIndex, Pow2, Addressable;
    forall h: HashFn, leaves: seq<seq<Byte>>, leaf: seq<Byte>, proof: Proof |
      AcceptedProof(h, leaves, leaf, index, proof) && proof.treeDepth == depth && |proof.path| == length
      ensures Binds(h, leaves, leaf, index, proof)
    {
      assert StartsRight(index, proof);
      ProvenAtIndex(h, leaves, leaf, index, proof);
    }
  }

  // ---------------------------------------------------------------- the smallest input

  /** A proof of depth zero with one path entry is accepted for index one although it proves leaf zero. */
  lemma WrongIndexAccepted(h: HashFn, a: seq<Byte>, b: seq<Byte>)
    ensures ProvenRoot(h, a, 1, Proof(0, [h.digest(b)])) == VcRoot(h, LeafDigests(h, [a, b]))
    ensures CeilLog2(2) == 1 && HeldIn([a, b], SlotOf(1, 1)) == b
  {
    hide VcIndex, ReverseBits;
    var proof := Proof(0, [h.digest(b)]);
    CeilLog2Unique(2, 1);
    SlotBelowCapacity(1, 1);
    SlotBelowCapacity(0, 1);
    StartOfTwo();
    assert LeafDigests(h, [a, b]) == [h.digest(a), h.digest(b)];
    VcCompleteness(h, LeafDigests(h, [a, b]), 0);
    PathOfTwo(h, h.digest(a), h.digest(b));
  }

  /** The leaf that belongs there is accepted for the same index, with the depth declared right. */
  lemma RightIndexAccepted(h: HashFn, a: seq<Byte>, b: seq<Byte>)
    ensures ProvenRoot(h, b, 1, Proof(1, [h.digest(a)])) == VcRoot(h, LeafDigests(h, [a, b]))
  {
    hide VcIndex, ReverseBits;
    CeilLog2Unique(2, 1);
    assert LeafDigests(h, [a, b]) == [h.digest(a), h.digest(b)];
    VcCompleteness(h, LeafDigests(h, [a, b]), 1);
    PathOfTwo(h, h.digest(a), h.digest(b));
  }

  lemma StartOfTwo()
    ensures VcIndex(1, 0) == 0 && VcIndex(0, 1) == 0
  {
    VcIndexReverses(0, 1);
    assert ReverseBits(1, 0) == TopBit(1, 0) + ReverseBits(0, 0);
  }

  /** In a tree over two leaves the path of the first is the second. */
  lemma PathOfTwo(h: HashFn, a: Digest, b: Digest)
    ensures CeilLog2(2) == 1 && VcIndex(1, 1) == 1
    ensures SiblingPath(VcLevels(h, [a, b]), 0, BottomLeaf(h)) == [b]
    ensures SiblingPath(VcLevels(h, [a, b]), 1, BottomLeaf(h)) == [a]
  {
    hide VcIndex;
    CeilLog2Unique(2, 1);
    var level := LeafLevel(h, [a, b], 1);
    VcIndexOfSlot(1, 1);
    SlotBelowCapacity(1, 1);
    LeafLevelHolds(h, [a, b], 1, 0);
    LeafLevelHolds(h, [a, b], 1, 1);
    StartOfTwo();
    assert VcIndex(1, 1) == 1 by { VcIndexInvolution(1, 1); }
    SlotBelowCapacity(0, 1);
    assert level[0] == a && level[1] == b;
    assert VcLevels(h, [a, b]) == [level] + Levels(h, Parents(h, level, BottomLeaf(h)), BottomLeaf(h));
    assert Levels(h, Parents(h, level, BottomLeaf(h)), BottomLeaf(h)) == [Parents(h, level, BottomLeaf(h))];
    assert VcLevels(h, [a, b])[1..] == [Parents(h, level, BottomLeaf(h))];
    assert SiblingPath([Parents(h, level, BottomLeaf(h))], 0, BottomLeaf(h)) == [];
    assert Sibling(0) == 1 && Sibling(1) == 0;
  }

  // ---------------------------------------------------------------- a hash without collisions on a marked tree

  /** Digests record the height of a node and whether the marked leaf is below it. */
  function Mark(height: Byte, marked: bool): Digest {
    [height, if marked then 1 else 0]
  }

  function MarkDigest(m: seq<Byte>): (d: Digest)
    ensures |d| == 2
  {
    if |m| == 6 && IsNodeInput(m) then
      var height: nat := m[2];
      Mark((height + 1) % 256, m[3] == 1 || m[5] == 1)
    else if |m| == 1 then Mark(0, m[0] == 1)
    else Mark(255, false)
  }

  function MarkHash(): HashFn {
    HashFn(2, MarkDigest)
  }

  const MARKED: seq<Byte> := [1]
  const PLAIN: seq<Byte> := [0]

  /** The input of the node at height `k + 1` above two unmarked nodes, or above the marked one at `a`. */
  function NodeOver(k: Byte, a: nat, marked: bool): seq<Byte> {
    StepPreimage(Mark(k, marked), a, Mark(k, false))
  }

  lemma NodeOverDigest(k: Byte, a: nat, marked: bool)
    requires k < 100
    ensures MarkDigest(NodeOver(k, a, marked)) == Mark(k + 1, marked) && IsNodeInput(NodeOver(k, a, marked))
  {
    var m := NodeOver(k, a, marked);
    assert |m| == 6 && m[0] == 0x4d && m[1] == 0x41 && m[2] == k;
    assert m[..2] == MERKLE_INTERNAL_NODE;
    if a % 2 == 0 {
      assert m[3] == (if marked then 1 else 0) && m[5] == 0;
    } else {
      assert m[3] == 0 && m[5] == if marked then 1 else 0;
    }
  }

  /** The inputs hashed in the tree whose leaf at position `q` is marked. */
  ghost predicate InMarkedTree(m: seq<Byte>, q: nat) {
    || m == MARKED || m == PLAIN || m == MERKLE_VC_BOTTOM_LEAF
    || exists k: Byte, marked: bool :: k < 100 && m == NodeOver(k, Ancestor(q, k), marked)
  }

  lemma LeafDigestsDiffer()
    ensures MarkDigest(MARKED) == Mark(0, true) && MarkDigest(PLAIN) == Mark(0, false)
    ensures MarkDigest(MERKLE_VC_BOTTOM_LEAF) == Mark(255, false)
    ensures !IsNodeInput(MARKED) && !IsNodeInput(PLAIN)
  {
    NoNode(MERKLE_VC_BOTTOM_LEAF);
  }

  lemma NoCollisionInMarkedTree(A: set<seq<Byte>>, B: set<seq<Byte>>, q: nat)
    requires forall m :: m in A || m in B ==> InMarkedTree(m, q)
    ensures !MarkHash().CollisionBetween(A, B)
  {
    hide MarkDigest, NodeOver, Ancestor;
    LeafDigestsDiffer();
    forall k: Byte, marked: bool | k < 100
      ensures MarkDigest(NodeOver(k, Ancestor(q, k), marked)) == Mark(k + 1, marked)
    {
      NodeOverDigest(k, Ancestor(q, k), marked);
    }
    forall a, b | a in A && b in B && MarkDigest(a) == MarkDigest(b)
      ensures a == b
    {
      SameInput(a, b, q);
    }
  }

  lemma SameInput(a: seq<Byte>, b: seq<Byte>, q: nat)
    requires InMarkedTree(a, q) && InMarkedTree(b, q) && MarkDigest(a) == MarkDigest(b)
    requires forall k: Byte, marked: bool :: k < 100 ==>
               MarkDigest(NodeOver(k, Ancestor(q, k), marked)) == Mark(k + 1, marked)
    ensures a == b
  {
    hide MarkDigest, NodeOver, Ancestor;
    LeafDigestsDiffer();
    if a != MARKED && a != PLAIN && a != MERKLE_VC_BOTTOM_LEAF {
      var k: Byte, marked: bool :| k < 100 && a == NodeOver(k, Ancestor(q, k), marked);
      assert MarkDigest(a) == Mark(k + 1, marked);
    }
    if b != MARKED && b != PLAIN && b != MERKLE_VC_BOTTOM_LEAF {
      var k: Byte, marked: bool :| k < 100 && b == NodeOver(k, Ancestor(q, k), marked);
      assert MarkDigest(b) == Mark(k + 1, marked);
    }
  }

  // ---------------------------------------------------------------- the marked tree

  /** A level in which only position `a` is marked. */
  function MarkedLevel(n: nat, a: nat, k: Byte): (level: seq<Digest>)
    ensures |level| == n && forall x :: 0 <= x < n ==> level[x] == Mark(k, x == a)
  {
    seq(n, x => Mark(k, x == a))
  }

  lemma MarkedParents(n: nat, a: nat, k: Byte, pad: Digest)
    requires n % 2 == 0 && a < n && k < 100
    ensures Parents(MarkHash(), MarkedLevel(n, a, k), pad) == MarkedLevel(n / 2, a / 2, k + 1)
    ensures forall m :: m in LevelPreimages(MarkedLevel(n, a, k), pad) ==>
              m == NodeOver(k, a, true) || m == NodeOver(k, a, false)
  {
    hide Mark, MarkDigest;
    var row := MarkedLevel(n, a, k);
    NodeOverDigest(k, a, true);
    NodeOverDigest(k, a, false);
    forall x | 0 <= x < n / 2
      ensures ParentPreimage(row, x, pad) == NodeOver(k, a, x == a / 2)
    {
      if x == a / 2 { StepIsParent(row, a, pad); }
    }
  }

  ghost predicate AllInMarkedTree(inputs: set<seq<Byte>>, q: nat) {
    forall m :: m in inputs ==> InMarkedTree(m, q)
  }

  lemma {:induction false} MarkedTreeInputs(d: nat, q: nat, k: Byte, pad: Digest)
    requires k + d < 100 && Ancestor(q, k) < Pow2(d)
    ensures AllInMarkedTree(TreePreimages(MarkHash(), MarkedLevel(Pow2(d), Ancestor(q, k), k), pad), q)
    decreases d
  {
    hide Mark, MarkHash, MarkedLevel, TreePreimages, Parents, NodeOver, LevelPreimages, InMarkedTree, Pow2, Ancestor;
    PowerZero();
    var a, row := Ancestor(q, k), MarkedLevel(Pow2(d), Ancestor(q, k), k);
    if d == 0 {
      SingleHashesNothing(MarkHash(), row, pad);
    } else {
      AncestorStep(q, k);
      WidthHalves(d);
      MarkedTreeInputs(d - 1, q, k + 1, pad);
      MarkedParents(Pow2(d), a, k, pad);
      TreeInputsUnfold(MarkHash(), row, pad);
      forall m | m in TreePreimages(MarkHash(), row, pad)
        ensures InMarkedTree(m, q)
      {
        if m in LevelPreimages(row, pad) { NodeInMarkedTree(m, q, k); }
      }
    }
  }

  lemma NodeInMarkedTree(m: seq<Byte>, q: nat, k: Byte)
    requires k < 100 && (m == NodeOver(k, Ancestor(q, k), true) || m == NodeOver(k, Ancestor(q, k), false))
    ensures InMarkedTree(m, q)
  {
    hide NodeOver, Ancestor;
  }

  lemma SingleHashesNothing(h: HashFn, leaves: seq<Digest>, pad: Digest)
    requires |leaves| == 1
    ensures TreePreimages(h, leaves, pad) == {}
  {
  }

  // ---------------------------------------------------------------- the exact condition

  /** A full vector of `2^p` leaves, of which only that in slot `s` is marked. */
  function MarkedVector(p: nat, s: nat): (leaves: seq<seq<Byte>>)
    ensures |leaves| == Pow2(p) && forall i :: 0 <= i < |leaves| ==> leaves[i] == if i == s then MARKED else PLAIN
  {
    seq(Pow2(p), i => if i == s then MARKED else PLAIN)
  }

  lemma MarkedVectorFits(p: nat, s: nat)
    requires p < USIZE_BITS
    ensures Addressable(LeafDigests(MarkHash(), MarkedVector(p, s))) && MarkedVector(p, s) != []
    ensures CeilLog2(|MarkedVector(p, s)|) == p
  {
    hide Pow2, MarkHash;
    MaxLeavesIsPow2();
    if p < USIZE_BITS - 1 { Pow2Monotone(p, USIZE_BITS - 1); }
    CeilLog2OfPow2(p);
  }

  /** The slots of the marked vector are the marked leaf level. */
  lemma MarkedVectorLevel(p: nat, s: nat)
    requires p < USIZE_BITS && s < Pow2(p)
    ensures LeafLevel(MarkHash(), LeafDigests(MarkHash(), MarkedVector(p, s)), p)
         == MarkedLevel(Pow2(p), VcIndex(s, p), 0)
  {
    hide VcIndex, Pow2, MarkDigest, Mark;
    LeafDigestsDiffer();
    var digests := LeafDigests(MarkHash(), MarkedVector(p, s));
    forall x | 0 <= x < Pow2(p)
      ensures LeafAt(MarkHash(), digests, p, x) == Mark(0, x == VcIndex(s, p))
    {
      VcIndexReverses(x, p);
      VcIndexInvolution(x, p);
      VcIndexInvolution(s, p);
    }
  }

  /** The marked leaf with the tree's own path for its slot, under whatever depth makes the climb start there. */
  ghost function MarkedProof(index: nat, depth: Byte, p: nat): Proof
    requires p < USIZE_BITS
  {
    var s := ReverseBits(p, VcIndex(index, depth));
    MarkedVectorFits(p, s);
    Proof(depth, VcPath(MarkHash(), LeafDigests(MarkHash(), MarkedVector(p, s)), s))
  }

  lemma MarkedPathLength(p: nat, s: nat)
    requires p < USIZE_BITS && s < Pow2(p)
    ensures Addressable(LeafDigests(MarkHash(), MarkedVector(p, s))) && MarkedVector(p, s) != []
    ensures var path := VcPath(MarkHash(), LeafDigests(MarkHash(), MarkedVector(p, s)), s);
            |path| == p && MarkHash().Sized(path)
  {
    hide VcIndex, Pow2, MarkDigest;
    var digests := LeafDigests(MarkHash(), MarkedVector(p, s));
    MarkedVectorFits(p, s);
    LeafLevelSized(MarkHash(), digests, p);
    PerfectLevels(MarkHash(), LeafLevel(MarkHash(), digests, p), BottomLeaf(MarkHash()), p, 0);
    SiblingPathSized(MarkHash(), LeafLevel(MarkHash(), digests, p), BottomLeaf(MarkHash()), VcIndex(s, p));
  }

  /** The marked proof is accepted, and what is hashed on either side is in the marked tree. */
  lemma MarkedProofAccepted(index: nat, depth: Byte, p: nat)
    requires p < USIZE_BITS
    ensures var s, proof := ReverseBits(p, VcIndex(index, depth)), MarkedProof(index, depth, p);
            && |proof.path| == p && AcceptedProof(MarkHash(), MarkedVector(p, s), MARKED, index, proof)
            && AllInMarkedTree(ProofInputs(MarkHash(), MARKED, index, proof), VcIndex(s, p))
            && AllInMarkedTree(VectorInputs(MarkHash(), MarkedVector(p, s)), VcIndex(s, p))
  {
    hide VcIndex, Pow2, MarkDigest, Climb, ClimbPreimages, ReverseBits, InMarkedTree, TreePreimages, CeilLog2, Levels;
    var i, s, proof := VcIndex(index, depth), ReverseBits(p, VcIndex(index, depth)), MarkedProof(index, depth, p);
    var leaves := MarkedVector(p, s);
    var digests := LeafDigests(MarkHash(), leaves);
    MarkedVectorFits(p, s);
    MarkedPathLength(p, s);
    ProvenSlotPosition(index, proof);
    assert VcIndex(s, p) == i % Pow2(p);
    ClimbModulo(MarkHash(), MarkHash().digest(MARKED), i, proof.path);
    LeafDigestsDiffer();
    VcCompleteness(MarkHash(), digests, s);
    MarkedInputs(p, s);
    var level := LeafLevel(MarkHash(), digests, p);
    LeafLevelHolds(MarkHash(), digests, p, s);
    SlotBelowCapacity(s, p);
    ClimbPreimagesInTree(MarkHash(), level, BottomLeaf(MarkHash()), VcIndex(s, p));
    LeavesInMarkedTree(p, s);
  }

  lemma MarkedInputs(p: nat, s: nat)
    requires p < USIZE_BITS && s < Pow2(p)
    ensures Addressable(LeafDigests(MarkHash(), MarkedVector(p, s))) && MarkedVector(p, s) != []
    ensures AllInMarkedTree(VcPreimages(MarkHash(), LeafDigests(MarkHash(), MarkedVector(p, s))), VcIndex(s, p))
  {
    hide VcIndex, Pow2, MarkDigest, InMarkedTree, TreePreimages;
    MarkedVectorFits(p, s);
    MarkedVectorLevel(p, s);
    VcIndexReverses(s, p);
    MarkedTreeInputs(p, VcIndex(s, p), 0, BottomLeaf(MarkHash()));
  }

  lemma LeavesInMarkedTree(p: nat, s: nat)
    ensures AllInMarkedTree(VectorLeaves(MarkedVector(p, s)) + {MARKED}, VcIndex(s, p)) && Tagged(MarkedVector(p, s))
  {
    hide VcIndex, Pow2, NodeOver;
    LeafDigestsDiffer();
  }

  lemma DisagreeBreaks(index: nat, depth: Byte, p: nat)
    requires p < USIZE_BITS && !Agree(index, depth, p)
    ensures !BindsIndex(index, depth, p)
  {
    hide VcIndex, Pow2, ReverseBits, MarkDigest, AllInMarkedTree, ProofInputs, VectorInputs, AcceptedProof, SlotOf;
    var s, proof := ReverseBits(p, VcIndex(index, depth)), MarkedProof(index, depth, p);
    var leaves := MarkedVector(p, s);
    MarkedVectorFits(p, s);
    MarkedProofAccepted(index, depth, p);
    NoneInMarkedTree(index, proof, p, s);
    StartsRightIff(index, proof);
    assert SlotOf(index, p) != s;
    assert HeldIn(leaves, SlotOf(index, p)) == PLAIN;
    assert !Binds(MarkHash(), leaves, MARKED, index, proof);
  }

  lemma NoneInMarkedTree(index: nat, proof: Proof, p: nat, s: nat)
    requires MarkedVector(p, s) != [] && Addressable(LeafDigests(MarkHash(), MarkedVector(p, s)))
    requires AllInMarkedTree(ProofInputs(MarkHash(), MARKED, index, proof), VcIndex(s, p))
    requires AllInMarkedTree(VectorInputs(MarkHash(), MarkedVector(p, s)), VcIndex(s, p))
    ensures !MarkHash().CollisionBetween(ProofInputs(MarkHash(), MARKED, index, proof),
                                         VectorInputs(MarkHash(), MarkedVector(p, s)))
  {
    hide VcIndex, ProofInputs, VectorInputs, InMarkedTree, MarkDigest;
    NoCollisionInMarkedTree(ProofInputs(MarkHash(), MARKED, index, proof),
                            VectorInputs(MarkHash(), MarkedVector(p, s)), VcIndex(s, p));
  }

  /**
   The exact condition for one index: accepted proofs with this depth and path length prove what the vector holds
   at the index (or collide) if and only if both put the index at the same place of a tree of that height.
   */
  lemma BindsIndexIff(index: nat, depth: Byte, length: nat)
    requires length < USIZE_BITS
    ensures BindsIndex(index, depth, length) <==> Agree(index, depth, length)
  {
    hide BindsIndex, Agree;
    if Agree(index, depth, length) {
      AgreeBinds(index, depth, length);
    } else {
      DisagreeBreaks(index, depth, length);
    }
  }

  // ---------------------------------------------------------------- indices past the tree

  /** Accepted proofs of this shape prove what the vector holds at this very index: past its end, nothing. */
  ghost predicate BindsExactly(index: nat, depth: Byte, length: nat) {
    forall h: HashFn, leaves: seq<seq<Byte>>, leaf: seq<Byte>, proof: Proof ::
      AcceptedProof(h, leaves, leaf, index, proof) && proof.treeDepth == depth && |proof.path| == length ==>
        leaf == HeldIn(leaves, index) || h.CollisionBetween(ProofInputs(h, leaf, index, proof), VectorInputs(h, leaves))
  }

  /** The check keeps the low bits of an index only, so a proof holds for larger indices too. */
  lemma LargerIndexAccepted(h: HashFn, leaf: seq<Byte>, index: nat, proof: Proof)
    requires proof.treeDepth <= USIZE_BITS
    ensures ProvenRoot(h, leaf, index + Pow2(proof.treeDepth), proof) == ProvenRoot(h, leaf, index, proof)
  {
    hide VcIndex, Pow2, ReverseBits;
    var d := proof.treeDepth;
    VcIndexOfSlot(index, d);
    VcIndexOfSlot(index + Pow2(d), d);
    DivideSum(1, index, Pow2(d));
    QuotientUnique(Pow2(d) + index, index / Pow2(d) + 1, index % Pow2(d), Pow2(d));
  }

  lemma AgreeBindsExactly(index: nat, depth: Byte, length: nat)
    requires Agree(index, depth, length) && index < Pow2(length) && length <= USIZE_BITS
    ensures BindsExactly(index, depth, length)
  {
    hide ProvenRoot, VcRoot, ProofInputs, VectorInputs, Tagged, CeilLog2, SlotOf, VcIndex, Pow2, Addressable, VcPath;
    hide ProvenSlot;
    forall h: HashFn, leaves: seq<seq<Byte>>, leaf: seq<Byte>, proof: Proof |
      AcceptedProof(h, leaves, leaf, index, proof) && proof.treeDepth == depth && |proof.path| == length
      ensures leaf == HeldIn(leaves, index)
           || h.CollisionBetween(ProofInputs(h, leaf, index, proof), VectorInputs(h, leaves))
    {
      ProvenIsCommitted(h, leaves, leaf, index, proof);
      assert StartsRight(index, proof);
      StartsRightIff(index, proof);
      SlotBelowCapacity(index, length);
    }
  }

  /** Past the tree, or where depth and path disagree, the marked proof is accepted for an index that is not marked. */
  lemma OtherwiseNotExactly(index: nat, depth: Byte, p: nat)
    requires p < USIZE_BITS && !(Agree(index, depth, p) && index < Pow2(p))
    ensures !BindsExactly(index, depth, p)
  {
    hide VcIndex, Pow2, ReverseBits, MarkDigest, AllInMarkedTree, ProofInputs, VectorInputs, AcceptedProof, SlotOf;
    var s, proof := ReverseBits(p, VcIndex(index, depth)), MarkedProof(index, depth, p);
    var leaves := MarkedVector(p, s);
    MarkedVectorFits(p, s);
    MarkedProofAccepted(index, depth, p);
    NoneInMarkedTree(index, proof, p, s);
    if index < Pow2(p) {
      StartsRightIff(index, proof);
      SlotBelowCapacity(index, p);
      assert HeldIn(leaves, index) == PLAIN;
    }
    assert HeldIn(leaves, index) != MARKED;
  }

  /** The exact condition for the very index: depth and path length agree on it, and it lies within the tree. */
  lemma BindsExactlyIff(index: nat, depth: Byte, length: nat)
    requires length < USIZE_BITS
    ensures BindsExactly(index, depth, length) <==> Agree(index, depth, length) && index < Pow2(length)
  {
    hide BindsExactly, Agree, Pow2;
    if Agree(index, depth, length) && index < Pow2(length) {
      AgreeBindsExactly(index, depth, length);
    } else {
      OtherwiseNotExactly(index, depth, length);
    }
  }

  // ---------------------------------------------------------------- the exact condition for every index

  /** How many bits of the index the declared depth keeps: the depth itself unless the shift amount wraps. */
  function KeptBits(depth: Byte): (k: nat)
    ensures depth <= USIZE_BITS ==> k == depth
  {
    if depth == 0 then 0 else USIZE_BITS - (USIZE_BITS - depth) % USIZE_BITS
  }

  lemma KeptBitsIndex(index: nat, depth: Byte)
    ensures VcIndex(index, depth) == VcIndex(index, KeptBits(depth))
  {
    if depth > 0 {
      var k := KeptBits(depth);
      assert 0 < k <= USIZE_BITS;
      assert (USIZE_BITS - k) % USIZE_BITS == (USIZE_BITS - depth) % USIZE_BITS;
    }
  }

  lemma {:induction false} ReverseOne(k: nat)
    requires k > 0
    ensures ReverseBits(k, 1) == Pow2(k - 1)
  {
    ReverseStep(k, 1);
    ReverseZero(k - 1);
  }

  lemma {:induction false} ReverseZero(k: nat)
    ensures ReverseBits(k, 0) == 0
  {
    if k > 0 { ReverseZero(k - 1); }
  }

  /** Index one already tells different numbers of kept bits apart. */
  lemma IndexOneTells(depth: Byte, length: nat)
    requires 0 < length < USIZE_BITS && Agree(1, depth, length)
    ensures KeptBits(depth) == length
  {
    hide VcIndex, ReverseBits, Pow2;
    var k := KeptBits(depth);
    KeptBitsIndex(1, depth);
    VcIndexReverses(1, length);
    ReverseOne(length);
    VcIndexReverses(1, k);
    if k == 0 {
      VcIndexAtZero(1);
      QuotientUnique(0, 0, 0, Pow2(length));
    } else {
      ReverseOne(k);
      if k < length {
        Pow2Monotone(k - 1, length - 1);
        HalfBelow(length);
        QuotientUnique(Pow2(k - 1), 0, Pow2(k - 1), Pow2(length));
      } else if k > length {
        Pow2Add(k - 1 - length, length);
        QuotientUnique(Pow2(k - 1), Pow2(k - 1 - length), 0, Pow2(length));
      }
    }
  }

  lemma VcIndexAtZero(index: nat)
    ensures VcIndex(index, 0) == 0
  {
  }

  lemma PowerZero()
    ensures Pow2(0) == 1
  {
  }

  lemma HalfBelow(n: nat)
    requires n > 0
    ensures Pow2(n - 1) < Pow2(n)
  {
  }

  lemma KeptAgree(index: nat, depth: Byte, length: nat)
    requires length < USIZE_BITS && (length == 0 || KeptBits(depth) == length)
    ensures Agree(index, depth, length)
  {
    hide VcIndex, Pow2;
    if length == 0 {
      VcIndexAtZero(index);
      PowerZero();
    } else {
      KeptBitsIndex(index, depth);
      VcIndexReverses(index, length);
      QuotientUnique(VcIndex(index, length), 0, VcIndex(index, length), Pow2(length));
    }
  }

  /**
   The exact condition for all indices: accepted proofs of this depth and path length bind every index if and only
   if the path is empty or the depth, as far as it is kept, is the length of the path.
   */
  lemma BindsEveryIndexIff(depth: Byte, length: nat)
    requires length < USIZE_BITS
    ensures (forall index: nat :: BindsIndex(index, depth, length)) <==> length == 0 || KeptBits(depth) == length
    ensures depth <= USIZE_BITS ==>
              ((forall index: nat :: BindsIndex(index, depth, length)) <==> length == 0 || depth == length)
  {
    hide BindsIndex, Agree;
    if length == 0 || KeptBits(depth) == length {
      forall index: nat
        ensures BindsIndex(index, depth, length)
      {
        KeptAgree(index, depth, length);
        BindsIndexIff(index, depth, length);
      }
    } else if BindsIndex(1, depth, length) {
      BindsIndexIff(1, depth, length);
      IndexOneTells(depth, length);
    }
  }
}
