/**
 The depth of a tree is bound by its root. Verification runs as many rounds as the proof declares; if that is not
 the number of levels of the committed tree, a leaf is taken for an inner node or an inner node for a leaf, and
 the domain tags turn this into a collision.
 */
module DepthBinding {
  import opened Bytes
  import opened Bits
  import opened Hashing
  import opened MerkleTree
  import opened OrderedMap
  import opened BatchProof
  import opened VcTree
  import opened VcBatch

  /** Every digest of the list was made from a leaf input in this stock. */
  ghost predicate AllLeaves(h: HashFn, ds: seq<Digest>, stock: set<seq<Byte>>) {
    forall i :: 0 <= i < |ds| ==> LeafFrom(h, ds[i], stock)
  }

  ghost predicate AllLeafElems(h: HashFn, elems: seq<Elem>, stock: set<seq<Byte>>) {
    forall i :: 0 <= i < |elems| ==> LeafFrom(h, elems[i].value, stock)
  }

  // ---------------------------------------------------------------- too few rounds

  lemma ParentsSized(h: HashFn, leaves: seq<Digest>, pad: Digest)
    requires h.Valid()
    ensures h.Sized(Parents(h, leaves, pad))
  {
  }

  lemma TreeInputsAbove(h: HashFn, leaves: seq<Digest>, pad: Digest)
    requires |leaves| > 1
    ensures LevelPreimages(leaves, pad) <= TreePreimages(h, leaves, pad)
    ensures TreePreimages(h, Parents(h, leaves, pad), pad) <= TreePreimages(h, leaves, pad)
  {
    hide LevelPreimages, Parents;
  }

  /** A leaf entry that matches a node above the leaves collides with that node's input. */
  lemma EntryIsNode(h: HashFn, leaves: seq<Digest>, pad: Digest, elems: seq<Elem>, A: set<seq<Byte>>)
    requires |leaves| > 1 && elems != [] && LastMatches(elems, Parents(h, leaves, pad)) && AllLeafElems(h, elems, A)
    ensures h.CollisionBetween(A, TreePreimages(h, leaves, pad))
  {
    hide TreePreimages;
    var i := LastExists(elems, 0);
    assert IsLast(elems, i);
    var k := elems[i].key;
    var node := ParentPreimage(leaves, k, pad);
    TreeInputsAbove(h, leaves, pad);
    assert node in LevelPreimages(leaves, pad) && IsNodeInput(node);
    LeafIsNoNode(h, elems[i].value, A, node, TreePreimages(h, leaves, pad));
  }

  /** With fewer rounds than levels the batch can only match inner nodes. */
  lemma {:induction false} TooShallow(
    h: HashFn, leaves: seq<Digest>, pad: Digest, D: nat, elems: seq<Elem>, d: nat, path: seq<Digest>, A: set<seq<Byte>>)
    requires h.Valid() && |pad| == h.size && h.Sized(leaves) && SizedLevel(h, elems) && h.Sized(path)
    requires |leaves| == Pow2(D) && d < D && elems != [] && Below(elems, Pow2(d)) && AllLeafElems(h, elems, A)
    requires BatchAccepts(h, elems, d, path, Root(Levels(h, leaves, pad)))
    ensures h.CollisionBetween(A + BatchPreimages(h, elems, d, path), TreePreimages(h, leaves, pad))
    decreases D
  {
    hide BatchAccepts, BatchPreimages, TreePreimages, Levels, Root, LastMatches, BatchPath, AllLeafElems, SizedLevel;
    hide Below;
    var next := Parents(h, leaves, pad);
    var ours, trees := A + BatchPreimages(h, elems, d, path), TreePreimages(h, leaves, pad);
    WidthHalves(D);
    RootUnfold(h, leaves, pad);
    ParentsSized(h, leaves, pad);
    TreeInputsAbove(h, leaves, pad);
    if d < D - 1 {
      TooShallow(h, next, pad, D - 1, elems, d, path, A);
      CollisionMonotone(h, ours, TreePreimages(h, next, pad), ours, trees);
    } else {
      BatchBinding(h, next, pad, d, elems, path);
      if h.CollisionBetween(BatchPreimages(h, elems, d, path), TreePreimages(h, next, pad)) {
        CollisionMonotone(h, BatchPreimages(h, elems, d, path), TreePreimages(h, next, pad), ours, trees);
      } else {
        EntryIsNode(h, leaves, pad, elems, A);
        CollisionMonotone(h, A, trees, ours, trees);
      }
    }
  }

  lemma WidthHalves(D: nat)
    requires D > 0
    ensures Pow2(D) == 2 * Pow2(D - 1) && Pow2(D) > 1
  {
  }

  // ---------------------------------------------------------------- too many rounds

  /** A combined node that matches a leaf collides with that leaf's input. */
  lemma NodeIsLeaf(
    h: HashFn, leaves: seq<Digest>, level: seq<Elem>, path: seq<Digest>, B: set<seq<Byte>>)
    requires level != [] && Round(h, level, path).Done? && AllLeaves(h, leaves, B)
    requires Matches(Round(h, level, path).level, leaves)
    ensures h.CollisionBetween(RoundPreimages(h, level, path), B)
  {
    var up := Round(h, level, path).level;
    var node := FirstPreimage(level, path);
    assert up[0] == Combined(h, level, path);
    assert up[0].key < |leaves| && up[0].value == leaves[up[0].key];
    assert node in RoundPreimages(h, level, path) && IsNodeInput(node);
    LeafIsNoNode(h, up[0].value, B, node, RoundPreimages(h, level, path));
  }

  lemma RoundsInputsUnfold(h: HashFn, level: seq<Elem>, d: nat, path: seq<Digest>)
    requires d > 0 && Round(h, level, path).Done?
    ensures var o := Round(h, level, path);
            RoundsPreimages(h, level, d, path)
            == RoundPreimages(h, level, path) + RoundsPreimages(h, o.level, d - 1, o.path)
  {
  }

  /** One round keeps the shape of a batch and halves its width. */
  lemma RoundHalves(h: HashFn, level: seq<Elem>, path: seq<Digest>, width: nat)
    requires h.Valid() && width % 2 == 0 && Batch(h, level, path, width) && Round(h, level, path).Done?
    ensures Batch(h, Round(h, level, path).level, Round(h, level, path).path, width / 2)
  {
    hide Round, Batch;
    RoundPreservesShape(h, seq(width, _ => h.Zero()), level, path);
  }

  /** With more rounds than levels an inner node of the batch is taken for a leaf. */
  lemma {:induction false} TooDeep(
    h: HashFn, leaves: seq<Digest>, pad: Digest, D: nat, level: seq<Elem>, d: nat, path: seq<Digest>, B: set<seq<Byte>>)
    requires h.Valid() && |pad| == h.size && h.Sized(leaves) && AllLeaves(h, leaves, B)
    requires |leaves| == Pow2(D) && D < d && Batch(h, level, path, Pow2(d))
    requires ReachesRoot(h, level, d, path, Root(Levels(h, leaves, pad)))
    ensures h.CollisionBetween(RoundsPreimages(h, level, d, path), B + TreePreimages(h, leaves, pad))
    decreases d
  {
    hide Round, RoundPreimages, RoundsPreimages, TreePreimages, Levels, Root, Matches, AllLeaves, Batch, Opens;
    hide BatchPath;
    var o := Round(h, level, path);
    var ours, theirs := RoundsPreimages(h, level, d, path), B + TreePreimages(h, leaves, pad);
    WidthHalves(d);
    BatchNonEmpty(h, level, path, Pow2(d));
    RoundHalves(h, level, path, Pow2(d));
    RoundsInputsUnfold(h, level, d, path);
    var above := RoundsPreimages(h, o.level, d - 1, o.path);
    if D < d - 1 {
      TooDeep(h, leaves, pad, D, o.level, d - 1, o.path, B);
      CollisionMonotone(h, above, theirs, ours, theirs);
    } else {
      RoundsBinding(h, leaves, pad, D, o.level, o.path);
      if h.CollisionBetween(above, TreePreimages(h, leaves, pad)) {
        CollisionMonotone(h, above, TreePreimages(h, leaves, pad), ours, theirs);
      } else {
        OpensMatches(h, leaves, pad, o.level, o.path);
        NodeIsLeaf(h, leaves, level, path, B);
        CollisionMonotone(h, RoundPreimages(h, level, path), B, ours, theirs);
      }
    }
  }

  lemma BatchNonEmpty(h: HashFn, level: seq<Elem>, path: seq<Digest>, width: nat)
    requires Batch(h, level, path, width)
    ensures level != []
  {
  }

  lemma OpensMatches(h: HashFn, leaves: seq<Digest>, pad: Digest, level: seq<Elem>, path: seq<Digest>)
    requires Opens(h, leaves, pad, level, path)
    ensures Matches(level, leaves)
  {
  }

  // ---------------------------------------------------------------- exactly as many

  /**
   An accepted batch of leaf digests, whatever its declared depth, has the depth of the tree, the tree's own leaf
   in the last entry of every index and the path of absent siblings; or it exposes a collision.
   */
  lemma BatchBindingAnyDepth(
    h: HashFn, leaves: seq<Digest>, pad: Digest, D: nat, elems: seq<Elem>, d: nat, path: seq<Digest>,
    A: set<seq<Byte>>, B: set<seq<Byte>>)
    requires h.Valid() && |pad| == h.size && h.Sized(leaves) && SizedLevel(h, elems) && h.Sized(path)
    requires |leaves| == Pow2(D) && elems != [] && Below(elems, Pow2(d))
    requires AllLeafElems(h, elems, A) && AllLeaves(h, leaves, B)
    requires BatchAccepts(h, elems, d, path, Root(Levels(h, leaves, pad)))
    ensures (d == D && LastOpens(h, leaves, pad, elems, path))
         || h.CollisionBetween(A + BatchPreimages(h, elems, d, path), B + TreePreimages(h, leaves, pad))
  {
    hide TreePreimages, Levels, Root, RoundsPreimages, LastOpens, AllLeaves, AllLeafElems, SizedLevel, Below, Collect;
    var ours, theirs := A + BatchPreimages(h, elems, d, path), B + TreePreimages(h, leaves, pad);
    if d < D {
      TooShallow(h, leaves, pad, D, elems, d, path, A);
      CollisionMonotone(h, ours, TreePreimages(h, leaves, pad), ours, theirs);
    } else if d > D {
      CollectElems(elems);
      CollectShape(h, elems, Pow2(d));
      TooDeep(h, leaves, pad, D, Collect(elems), d, path, B);
      CollisionMonotone(h, BatchPreimages(h, elems, d, path), theirs, ours, theirs);
    } else {
      BatchBinding(h, leaves, pad, d, elems, path);
      if h.CollisionBetween(BatchPreimages(h, elems, d, path), TreePreimages(h, leaves, pad)) {
        CollisionMonotone(h, BatchPreimages(h, elems, d, path), TreePreimages(h, leaves, pad), ours, theirs);
      }
    }
  }

  /** A single leaf climbs to the root only along a path of the tree's depth, or exposes a collision. */
  lemma ClimbLengthForced(
    h: HashFn, leaves: seq<Digest>, pad: Digest, D: nat, at: nat, leaf: Digest, path: seq<Digest>,
    A: set<seq<Byte>>, B: set<seq<Byte>>)
    requires h.Valid() && |pad| == |leaf| == h.size && h.Sized(leaves) && h.Sized(path)
    requires |leaves| == Pow2(D) && at < Pow2(|path|) && |path| != D
    requires LeafFrom(h, leaf, A) && AllLeaves(h, leaves, B)
    requires Climb(h, leaf, at, path) == Root(Levels(h, leaves, pad))
    ensures h.CollisionBetween(A + ClimbPreimages(h, leaf, at, path), B + TreePreimages(h, leaves, pad))
  {
    hide Climb, ClimbPreimages, Pow2, BatchAccepts, TreePreimages, Levels, Root, RoundsPreimages, LastOpens, Collect;
    hide AllLeaves, LeafFrom;
    var elems := [Entry(at, leaf)];
    SingletonBatch(h, at, leaf, |path|, path, Root(Levels(h, leaves, pad)));
    SingletonInputs(h, at, leaf, path);
    SingletonCollected(Entry(at, leaf));
    BatchBindingAnyDepth(h, leaves, pad, D, elems, |path|, path, A, B);
  }

  // ---------------------------------------------------------------- vector commitments

  lemma LeafLevelIsLeaves(h: HashFn, leaves: seq<Digest>, d: nat, B: set<seq<Byte>>)
    requires AllLeaves(h, leaves, B) && MERKLE_VC_BOTTOM_LEAF in B
    ensures AllLeaves(h, LeafLevel(h, leaves, d), B)
  {
    hide VcIndex;
    NoNode(MERKLE_VC_BOTTOM_LEAF);
    assert LeafFrom(h, BottomLeaf(h), B);
  }

  /**
   The same against a vector commitment: the declared depth is that of the committed vector, and the last entry
   for every slot is what the commitment holds there, along the reference path; or a collision is exposed.
   */
  lemma VcBatchBindingAnyDepth(
    h: HashFn, leaves: seq<Digest>, elems: seq<Elem>, d: nat, path: seq<Digest>, A: set<seq<Byte>>, B: set<seq<Byte>>)
    requires h.Valid() && leaves != [] && Addressable(leaves) && h.Sized(leaves)
    requires SizedLevel(h, elems) && h.Sized(path) && elems != [] && d <= USIZE_BITS
    requires AllLeafElems(h, elems, A) && AllLeaves(h, leaves, B) && MERKLE_VC_BOTTOM_LEAF in B
    requires VcBatchAccepts(h, elems, d, path, VcRoot(h, leaves))
    ensures || (&& d == CeilLog2(|leaves|) && LastOpensCommitted(h, leaves, d, elems)
                && path == VcBatchPath(h, leaves, elems))
            || h.CollisionBetween(A + VcBatchPreimages(h, elems, d, path), B + VcPreimages(h, leaves))
  {
    hide LastMatches, LastOpensCommitted, BatchAccepts, BatchPath, Keys, Levels, Root, BatchPreimages, TreePreimages;
    hide AllLeaves, VcIndex;
    var D := CeilLog2(|leaves|);
    DepthInRange(leaves);
    InternalBelow(elems, d);
    LeafLevelSized(h, leaves, D);
    LeafLevelIsLeaves(h, leaves, D, B);
    MatchesIsOpens(h, leaves, D, elems);
    assert SizedLevel(h, Internal(elems, d)) && AllLeafElems(h, Internal(elems, d), A);
    BatchBindingAnyDepth(h, LeafLevel(h, leaves, D), BottomLeaf(h), D, Internal(elems, d), d, path, A, B);
  }
}
