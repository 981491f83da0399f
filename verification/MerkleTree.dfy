/** Binary Merkle trees: construction level by level, sibling paths, and path verification. */
module MerkleTree {
  import opened Bytes
  import opened Bits
  import opened Hashing

  // ---------------------------------------------------------------- levels

  /** The node paired with position `i` of a level: the other child, or the pad if there is none. */
  function SiblingDigest(level: seq<Digest>, i: nat, pad: Digest): Digest {
    if Sibling(i) < |level| then level[Sibling(i)] else pad
  }

  /** The bytes hashed for the parent of positions `2k` and `2k + 1`. */
  function ParentPreimage(level: seq<Digest>, k: nat, pad: Digest): seq<Byte>
    requires 2 * k < |level|
  {
    NodePreimage(level[2 * k], SiblingDigest(level, 2 * k, pad))
  }

  function Parents(h: HashFn, level: seq<Digest>, pad: Digest): (next: seq<Digest>)
    ensures |next| == (|level| + 1) / 2
    ensures forall k :: 0 <= k < |next| ==> next[k] == h.digest(ParentPreimage(level, k, pad))
  {
    seq((|level| + 1) / 2, k requires 0 <= k < (|level| + 1) / 2 => h.digest(ParentPreimage(level, k, pad)))
  }

  /** All levels of the tree over a leaf level, from the leaves to the root. */
  function Levels(h: HashFn, leaves: seq<Digest>, pad: Digest): (levels: seq<seq<Digest>>)
    ensures |levels| >= 1 && levels[0] == leaves
    ensures leaves != [] ==> |levels[|levels| - 1]| == 1
    decreases |leaves|
  {
    if |leaves| <= 1 then [leaves] else [leaves] + Levels(h, Parents(h, leaves, pad), pad)
  }

  function Root(levels: seq<seq<Digest>>): Digest
    requires |levels| > 0 && |levels[|levels| - 1]| > 0
  {
    levels[|levels| - 1][0]
  }

  /** The inputs hashed for the parents of one level. */
  function LevelPreimages(row: seq<Digest>, pad: Digest): set<seq<Byte>> {
    set k | 0 <= k < (|row| + 1) / 2 :: ParentPreimage(row, k, pad)
  }

  /** Every input hashed while the levels above `leaves` were built. */
  function TreePreimages(h: HashFn, leaves: seq<Digest>, pad: Digest): set<seq<Byte>>
    decreases |leaves|
  {
    if |leaves| <= 1 then {}
    else LevelPreimages(leaves, pad) + TreePreimages(h, Parents(h, leaves, pad), pad)
  }

  lemma TreeInputsUnfold(h: HashFn, leaves: seq<Digest>, pad: Digest)
    requires |leaves| > 1
    ensures TreePreimages(h, leaves, pad)
         == LevelPreimages(leaves, pad) + TreePreimages(h, Parents(h, leaves, pad), pad)
  {
    hide LevelPreimages, Parents;
  }

  /** One level of `build_levels`: the nodes of a level are combined two at a time. */
  method BuildParents(h: HashFn, current: seq<Digest>, pad: Digest) returns (next: seq<Digest>)
    ensures next == Parents(h, current, pad)
  {
    next := [];
    var i := 0;
    while i < |current|
      invariant 0 <= i <= |current| + 1 && i % 2 == 0 && |next| == i / 2
      invariant forall k :: 0 <= k < |next| ==> next[k] == h.digest(ParentPreimage(current, k, pad))
    {
      var right := if i + 1 < |current| then current[i + 1] else pad;
      assert NodePreimage(current[i], right) == ParentPreimage(current, i / 2, pad);
      next := next + [HashNode(h, current[i], right)];
      i := i + 2;
    }
  }

  method BuildLevels(h: HashFn, leafLevel: seq<Digest>, pad: Digest) returns (levels: seq<seq<Digest>>)
    ensures levels == Levels(h, leafLevel, pad)
  {
    levels := [leafLevel];
    ghost var below: seq<seq<Digest>> := [];
    while |levels[|levels| - 1]| > 1
      invariant |levels| >= 1 && levels == below + [levels[|levels| - 1]]
      invariant Levels(h, leafLevel, pad) == below + Levels(h, levels[|levels| - 1], pad)
      decreases |levels[|levels| - 1]|
    {
      var current := levels[|levels| - 1];
      var next := BuildParents(h, current, pad);
      AppendLevel(h, below, current, pad);
      below := levels;
      levels := levels + [next];
    }
  }

  lemma AppendLevel(h: HashFn, below: seq<seq<Digest>>, current: seq<Digest>, pad: Digest)
    requires |current| > 1
    ensures below + Levels(h, current, pad)
         == (below + [current]) + Levels(h, Parents(h, current, pad), pad)
  {
  }

  /** The number of levels above the leaves is the binary logarithm of the leaf count, rounded up. */
  lemma {:induction false} DepthIsCeilLog2(h: HashFn, leaves: seq<Digest>, pad: Digest)
    requires leaves != []
    ensures |Levels(h, leaves, pad)| == CeilLog2(|leaves|) + 1
    decreases |leaves|
  {
    if |leaves| > 1 {
      DepthIsCeilLog2(h, Parents(h, leaves, pad), pad);
    }
  }

  // ---------------------------------------------------------------- paths

  /** The bytes hashed when climbing one step from position `i`. */
  function StepPreimage(current: Digest, i: nat, sibling: Digest): seq<Byte> {
    if i % 2 == 0 then NodePreimage(current, sibling) else NodePreimage(sibling, current)
  }

  /** The root reconstructed from a digest at position `i` and its sibling path. */
  function Climb(h: HashFn, current: Digest, i: nat, path: seq<Digest>): Digest
    decreases |path|
  {
    if path == [] then current
    else Climb(h, h.digest(StepPreimage(current, i, path[0])), i / 2, path[1..])
  }

  /** Every input hashed during a climb. */
  function ClimbPreimages(h: HashFn, current: Digest, i: nat, path: seq<Digest>): set<seq<Byte>>
    decreases |path|
  {
    if path == [] then {}
    else
      {StepPreimage(current, i, path[0])} +
      ClimbPreimages(h, h.digest(StepPreimage(current, i, path[0])), i / 2, path[1..])
  }

  /** The sibling of the node above leaf `i` at every level below the root. */
  function SiblingPath(levels: seq<seq<Digest>>, i: nat, pad: Digest): (path: seq<Digest>)
    requires |levels| > 0
    ensures |path| == |levels| - 1
  {
    if |levels| == 1 then []
    else [SiblingDigest(levels[0], i, pad)] + SiblingPath(levels[1..], i / 2, pad)
  }

  /** The position `k` levels above position `i`. */
  function Ancestor(i: nat, k: nat): nat {
    if k == 0 then i else Ancestor(i / 2, k - 1)
  }

  lemma {:induction false} AncestorStep(i: nat, k: nat)
    ensures Ancestor(i, k + 1) == Ancestor(i, k) / 2
  {
    if k > 0 { AncestorStep(i / 2, k - 1); }
  }

  lemma {:induction false} SiblingPathAppend(levels: seq<seq<Digest>>, top: seq<Digest>, i: nat, pad: Digest)
    requires |levels| > 0
    ensures SiblingPath(levels + [top], i, pad)
         == SiblingPath(levels, i, pad)
          + [SiblingDigest(levels[|levels| - 1], Ancestor(i, |levels| - 1), pad)]
  {
    var all := levels + [top];
    assert all[0] == levels[0] && all[1..] == levels[1..] + [top];
    if |levels| == 1 {
      assert SiblingPath(all[1..], i / 2, pad) == [];
    } else {
      SiblingPathAppend(levels[1..], top, i / 2, pad);
    }
  }

  /** The step from position `i` of a level hashes exactly what its parent was built from. */
  lemma StepIsParent(leaves: seq<Digest>, i: nat, pad: Digest)
    requires i < |leaves|
    ensures StepPreimage(leaves[i], i, SiblingDigest(leaves, i, pad)) == ParentPreimage(leaves, i / 2, pad)
  {
  }

  lemma SiblingPathUnfold(h: HashFn, leaves: seq<Digest>, pad: Digest, i: nat)
    requires |leaves| > 1
    ensures SiblingPath(Levels(h, leaves, pad), i, pad)
         == [SiblingDigest(leaves, i, pad)] + SiblingPath(Levels(h, Parents(h, leaves, pad), pad), i / 2, pad)
  {
    assert Levels(h, leaves, pad)[1..] == Levels(h, Parents(h, leaves, pad), pad);
  }

  lemma RootUnfold(h: HashFn, leaves: seq<Digest>, pad: Digest)
    requires |leaves| > 1
    ensures Root(Levels(h, leaves, pad)) == Root(Levels(h, Parents(h, leaves, pad), pad))
  {
    hide Parents;
    assert Levels(h, leaves, pad) == [leaves] + Levels(h, Parents(h, leaves, pad), pad);
  }

  lemma ClimbUnfold(h: HashFn, current: Digest, i: nat, s: Digest, path: seq<Digest>)
    ensures Climb(h, current, i, [s] + path) == Climb(h, h.digest(StepPreimage(current, i, s)), i / 2, path)
    ensures ClimbPreimages(h, current, i, [s] + path)
         == {StepPreimage(current, i, s)} + ClimbPreimages(h, h.digest(StepPreimage(current, i, s)), i / 2, path)
  {
    assert ([s] + path)[1..] == path;
  }

  /** Climbing from a tree node along its own siblings reaches the root. */
  lemma {:induction false} ClimbCompleteness(h: HashFn, leaves: seq<Digest>, pad: Digest, i: nat)
    requires i < |leaves|
    ensures Climb(h, leaves[i], i, SiblingPath(Levels(h, leaves, pad), i, pad)) == Root(Levels(h, leaves, pad))
    decreases |leaves|
  {
    if |leaves| > 1 {
      var next := Parents(h, leaves, pad);
      ClimbCompleteness(h, next, pad, i / 2);
      StepIsParent(leaves, i, pad);
      RootUnfold(h, leaves, pad);
      SiblingPathUnfold(h, leaves, pad, i);
      ClimbUnfold(h, leaves[i], i, SiblingDigest(leaves, i, pad), SiblingPath(Levels(h, next, pad), i / 2, pad));
    }
  }

  /** Only as many low bits of the position matter as the path has entries. */
  lemma {:induction false} ClimbModulo(h: HashFn, current: Digest, i: nat, path: seq<Digest>)
    ensures Climb(h, current, i, path) == Climb(h, current, i % Pow2(|path|), path)
    ensures ClimbPreimages(h, current, i, path) == ClimbPreimages(h, current, i % Pow2(|path|), path)
    decreases |path|
  {
    if path != [] {
      var up := h.digest(StepPreimage(current, i, path[0]));
      DivideByDouble(i, Pow2(|path| - 1));
      ClimbModulo(h, up, i / 2, path[1..]);
      ParityModulo(i, Pow2(|path| - 1));
    }
  }

  lemma ParityModulo(i: nat, m: nat)
    requires m > 0
    ensures i % (2 * m) % 2 == i % 2 && i % (2 * m) / 2 == i / 2 % m
  {
    DivideByDouble(i, m);
  }

  /** A climb can be interrupted after `n` steps. */
  lemma {:induction false} ClimbSplit(h: HashFn, current: Digest, i: nat, path: seq<Digest>, n: nat)
    requires n <= |path|
    ensures var mid := Climb(h, current, i, path[..n]);
            && Climb(h, current, i, path) == Climb(h, mid, ShiftRight(i, n), path[n..])
            && ClimbPreimages(h, current, i, path)
            == ClimbPreimages(h, current, i, path[..n]) + ClimbPreimages(h, mid, ShiftRight(i, n), path[n..])
    decreases n
  {
    if n == 0 {
      assert path[0..] == path;
    } else {
      var up := h.digest(StepPreimage(current, i, path[0]));
      ClimbSplit(h, up, i / 2, path[1..], n - 1);
      assert path[..n][0] == path[0] && path[..n][1..] == path[1..][..n - 1] && path[1..][n - 1..] == path[n..];
    }
  }

  /** The top of a climb is the digest of a node input. */
  lemma {:induction false} ClimbTop(h: HashFn, current: Digest, i: nat, path: seq<Digest>) returns (m: seq<Byte>)
    requires path != []
    ensures m in ClimbPreimages(h, current, i, path) && IsNodeInput(m) && h.digest(m) == Climb(h, current, i, path)
    decreases |path|
  {
    m := StepPreimage(current, i, path[0]);
    if |path| > 1 { m := ClimbTop(h, h.digest(m), i / 2, path[1..]); }
  }

  /** Two climbs from one position that meet at one root are the same climb, or expose a collision. */
  lemma {:induction false} PathBinding(h: HashFn, a: Digest, p: seq<Digest>, b: Digest, q: seq<Digest>, i: nat)
    requires h.Valid() && |a| == |b| == h.size && |p| == |q| && h.Sized(p) && h.Sized(q)
    requires Climb(h, a, i, p) == Climb(h, b, i, q)
    ensures (a == b && p == q)
         || h.CollisionBetween(ClimbPreimages(h, a, i, p), ClimbPreimages(h, b, i, q))
    decreases |p|
  {
    if p != [] {
      var x, y := StepPreimage(a, i, p[0]), StepPreimage(b, i, q[0]);
      PathBinding(h, h.digest(x), p[1..], h.digest(y), q[1..], i / 2);
      if h.digest(x) == h.digest(y) && p[1..] == q[1..] {
        if x == y {
          StepPreimageInjective(a, p[0], b, q[0], i);
          assert p == [p[0]] + p[1..] && q == [q[0]] + q[1..];
        } else {
          assert h.Collide(x, y);
        }
      } else {
        CollisionMonotone(h, ClimbPreimages(h, h.digest(x), i / 2, p[1..]),
                          ClimbPreimages(h, h.digest(y), i / 2, q[1..]),
                          ClimbPreimages(h, a, i, p), ClimbPreimages(h, b, i, q));
      }
    }
  }

  lemma StepPreimageInjective(a: Digest, s: Digest, b: Digest, t: Digest, i: nat)
    requires |a| == |b| == |s| == |t| && StepPreimage(a, i, s) == StepPreimage(b, i, t)
    ensures a == b && s == t
  {
    if i % 2 == 0 { NodePreimageInjective(a, s, b, t); } else { NodePreimageInjective(s, a, t, b); }
  }

  /** The inputs hashed on a tree's own path were hashed when the tree was built. */
  lemma {:induction false} ClimbPreimagesInTree(h: HashFn, leaves: seq<Digest>, pad: Digest, i: nat)
    requires i < |leaves|
    ensures ClimbPreimages(h, leaves[i], i, SiblingPath(Levels(h, leaves, pad), i, pad))
         <= TreePreimages(h, leaves, pad)
    decreases |leaves|
  {
    if |leaves| > 1 {
      var next := Parents(h, leaves, pad);
      ClimbPreimagesInTree(h, next, pad, i / 2);
      StepIsParent(leaves, i, pad);
      SiblingPathUnfold(h, leaves, pad, i);
      ClimbUnfold(h, leaves[i], i, SiblingDigest(leaves, i, pad), SiblingPath(Levels(h, next, pad), i / 2, pad));
    }
  }

  lemma {:induction false} SiblingPathSized(h: HashFn, leaves: seq<Digest>, pad: Digest, i: nat)
    requires h.Valid() && |pad| == h.size && h.Sized(leaves)
    ensures h.Sized(SiblingPath(Levels(h, leaves, pad), i, pad))
    decreases |leaves|
  {
    if |leaves| > 1 {
      SiblingPathSized(h, Parents(h, leaves, pad), pad, i / 2);
      assert Levels(h, leaves, pad)[1..] == Levels(h, Parents(h, leaves, pad), pad);
    }
  }

  /**
   A path of full length accepted against a tree's root for position `i` is the tree's own path for
   the tree's own leaf, or an input hashed by the verifier collides with one hashed by the builder.
   */
  lemma TreeBinding(h: HashFn, leaves: seq<Digest>, pad: Digest, i: nat, leaf: Digest, path: seq<Digest>)
    requires h.Valid() && |pad| == |leaf| == h.size && h.Sized(leaves) && h.Sized(path)
    requires i < |leaves| && |path| == CeilLog2(|leaves|)
    requires Climb(h, leaf, i, path) == Root(Levels(h, leaves, pad))
    ensures (leaf == leaves[i] && path == SiblingPath(Levels(h, leaves, pad), i, pad))
         || h.CollisionBetween(ClimbPreimages(h, leaf, i, path), TreePreimages(h, leaves, pad))
  {
    var own := SiblingPath(Levels(h, leaves, pad), i, pad);
    DepthIsCeilLog2(h, leaves, pad);
    SiblingPathSized(h, leaves, pad, i);
    ClimbCompleteness(h, leaves, pad, i);
    PathBinding(h, leaf, path, leaves[i], own, i);
    if !(leaf == leaves[i] && path == own) {
      ClimbPreimagesInTree(h, leaves, pad, i);
      CollisionMonotone(h, ClimbPreimages(h, leaf, i, path), ClimbPreimages(h, leaves[i], i, own),
                        ClimbPreimages(h, leaf, i, path), TreePreimages(h, leaves, pad));
    }
  }

  // ---------------------------------------------------------------- Tree and Proof

  /** `treeDepth` is a `u8` in the program. */
  datatype Proof = Proof(treeDepth: Byte, path: seq<Digest>)

  datatype Option<+T> = None | Some(value: T)

  function LeafDigests(h: HashFn, leaves: seq<seq<Byte>>): (ds: seq<Digest>)
    ensures |ds| == |leaves|
    ensures forall i :: 0 <= i < |ds| ==> ds[i] == h.digest(leaves[i])
  {
    seq(|leaves|, i requires 0 <= i < |leaves| => h.digest(leaves[i]))
  }

  datatype Tree = Tree(levels: seq<seq<Digest>>) {
    /** The tree built over some leaf level with some pad. */
    ghost predicate Over(h: HashFn, leaves: seq<Digest>, pad: Digest) {
      levels == if leaves == [] then [] else Levels(h, leaves, pad)
    }

    function RootDigest(): Option<Digest>
      requires levels != [] ==> |levels[|levels| - 1]| > 0
    {
      if levels == [] then None else Some(Root(levels))
    }

    function Depth(): nat {
      if levels == [] then 0 else |levels| - 1
    }
  }

  /** Builds a `Tree` from the byte strings its leaves feed to the hasher. */
  method BuildTree(h: HashFn, leaves: seq<seq<Byte>>) returns (t: Tree)
    ensures t.Over(h, LeafDigests(h, leaves), h.Zero())
  {
    if leaves == [] { return Tree([]); }
    var levels := BuildLevels(h, LeafDigests(h, leaves), h.Zero());
    t := Tree(levels);
  }

  /** The sibling path of leaf `index`, or nothing if there is no such leaf. */
  method ProveInTree(h: HashFn, t: Tree, index: nat) returns (proof: Option<Proof>)
    ensures proof.None? <==> t.levels == [] || index >= |t.levels[0]|
    ensures proof.Some? ==>
              && proof.value.treeDepth == (|t.levels| - 1) % 256
              && proof.value.path == SiblingPath(t.levels, index, h.Zero())
  {
    if t.levels == [] || index >= |t.levels[0]| { return None; }
    var last := |t.levels| - 1;
    var path: seq<Digest> := [];
    var idx := index;
    var k := 0;
    while k < last
      invariant 0 <= k <= last && idx == Ancestor(index, k)
      invariant path == SiblingPath(t.levels[..k + 1], index, h.Zero())
    {
      var level := t.levels[k];
      path := path + [if Sibling(idx) < |level| then level[Sibling(idx)] else h.Zero()];
      SiblingPathAppend(t.levels[..k + 1], t.levels[k + 1], index, h.Zero());
      assert t.levels[..k + 2] == t.levels[..k + 1] + [t.levels[k + 1]];
      AncestorStep(index, k);
      idx := idx / 2;
      k := k + 1;
    }
    assert t.levels[..last + 1] == t.levels;
    proof := Some(Proof(last % 256, path));
  }

  method VerifyWith(h: HashFn, proof: Proof, leaf: Digest, index: nat, root: Digest) returns (ok: bool)
    ensures ok <==> Climb(h, leaf, index, proof.path) == root
  {
    var current, idx := leaf, index;
    var k := 0;
    while k < |proof.path|
      invariant 0 <= k <= |proof.path|
      invariant Climb(h, leaf, index, proof.path) == Climb(h, current, idx, proof.path[k..])
    {
      var sibling := proof.path[k];
      var (left, right) := if idx % 2 == 0 then (current, sibling) else (sibling, current);
      current := HashNode(h, left, right);
      idx := idx / 2;
      assert proof.path[k..][1..] == proof.path[k + 1..];
      k := k + 1;
    }
    ok := current == root;
  }

  /** Whatever `ProveInTree` returns for a tree of at least one leaf, `VerifyWith` accepts. */
  lemma TreeCompleteness(h: HashFn, leaves: seq<seq<Byte>>, i: nat, t: Tree, proof: Proof)
    requires i < |leaves| && t.Over(h, LeafDigests(h, leaves), h.Zero())
    requires proof.path == SiblingPath(t.levels, i, h.Zero())
    ensures t.RootDigest() == Some(Climb(h, h.digest(leaves[i]), i, proof.path))
  {
    ClimbCompleteness(h, LeafDigests(h, leaves), h.Zero(), i);
  }
}
