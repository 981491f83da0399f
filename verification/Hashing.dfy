/**
 Hash functions as parameters of the model.

 A `HashFn` stands for one of the two Merkle hashers of the program: a function from byte strings
 to digests of one fixed length. Nothing else is assumed of it; in particular it may collide.
 Every binding theorem therefore ends in "or these two byte strings collide", and names the
 byte strings: both are drawn from sets of inputs that were really hashed.
 */
module Hashing {
  import opened Bytes

  type Digest = seq<Byte>

  datatype HashFn = HashFn(size: nat, digest: seq<Byte> -> Digest) {
    /** The digest type of the program is an array of `size` bytes. */
    ghost predicate Valid() {
      forall m :: |digest(m)| == size
    }

    ghost predicate Collide(a: seq<Byte>, b: seq<Byte>) {
      a != b && digest(a) == digest(b)
    }

    /** Some input from `A` and a different input from `B` have the same digest. */
    ghost predicate CollisionBetween(A: set<seq<Byte>>, B: set<seq<Byte>>) {
      exists a, b :: a in A && b in B && Collide(a, b)
    }

    ghost predicate Sized(ds: seq<Digest>) {
      forall i :: 0 <= i < |ds| ==> |ds[i]| == size
    }

    /** The all-zero digest. */
    function Zero(): (z: Digest)
      ensures |z| == size && forall i :: 0 <= i < size ==> z[i] == 0
    {
      Zeros(size)
    }
  }

  /** A larger stock of inputs has at least the same collisions. */
  lemma CollisionMonotone(h: HashFn, A: set<seq<Byte>>, B: set<seq<Byte>>, A': set<seq<Byte>>, B': set<seq<Byte>>)
    requires A <= A' && B <= B' && h.CollisionBetween(A, B)
    ensures h.CollisionBetween(A', B')
  {
    var a, b :| a in A && b in B && h.Collide(a, b);
    assert a in A' && b in B';
  }

  lemma CollisionSymmetric(h: HashFn, A: set<seq<Byte>>, B: set<seq<Byte>>)
    requires h.CollisionBetween(A, B)
    ensures h.CollisionBetween(B, A)
  {
    var a, b :| a in A && b in B && h.Collide(a, b);
    assert h.Collide(b, a);
  }

  const MERKLE_INTERNAL_NODE: seq<Byte> := [0x4d, 0x41]   // "MA"
  const MERKLE_VC_BOTTOM_LEAF: seq<Byte> := [0x4d, 0x42]  // "MB"

  /** The bytes hashed for an internal node. */
  function NodePreimage(left: Digest, right: Digest): seq<Byte> {
    MERKLE_INTERNAL_NODE + left + right
  }

  /** Tagged as the input of an internal node. */
  predicate IsNodeInput(m: seq<Byte>) {
    MERKLE_INTERNAL_NODE <= m
  }

  /** The digest was made from a leaf input in this stock: one without the tag of internal nodes. */
  ghost predicate LeafFrom(h: HashFn, d: Digest, stock: set<seq<Byte>>) {
    exists m :: m in stock && h.digest(m) == d && !IsNodeInput(m)
  }

  /** A leaf digest that is also a node digest exposes a collision, by domain separation. */
  lemma LeafIsNoNode(h: HashFn, d: Digest, leaves: set<seq<Byte>>, node: seq<Byte>, nodes: set<seq<Byte>>)
    requires LeafFrom(h, d, leaves) && IsNodeInput(node) && node in nodes && h.digest(node) == d
    ensures h.CollisionBetween(leaves, nodes) && h.CollisionBetween(nodes, leaves)
  {
    var m :| m in leaves && h.digest(m) == d && !IsNodeInput(m);
    assert h.Collide(m, node) && h.Collide(node, m);
  }

  /** An input that does not start with the two tag bytes is not that of a node. */
  lemma NoNode(m: seq<Byte>)
    requires |m| >= 2 && (m[0] != 0x4d || m[1] != 0x41)
    ensures !IsNodeInput(m)
  {
    assert MERKLE_INTERNAL_NODE[0] == 0x4d && MERKLE_INTERNAL_NODE[1] == 0x41;
  }

  lemma NodePreimageInjective(l: Digest, r: Digest, l': Digest, r': Digest)
    requires |l| == |l'| && NodePreimage(l, r) == NodePreimage(l', r')
    ensures l == l' && r == r'
  {
    ConcatInjective(MERKLE_INTERNAL_NODE + l, r, MERKLE_INTERNAL_NODE + l', r');
    ConcatInjective(MERKLE_INTERNAL_NODE, l, MERKLE_INTERNAL_NODE, l');
  }

  /** The digest of an internal node. */
  function HashNode(h: HashFn, left: Digest, right: Digest): Digest {
    h.digest(NodePreimage(left, right))
  }
}
