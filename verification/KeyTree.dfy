/** The keys that a participant registered, one per epoch, and the key a signature opens. */
module KeyTree {
  import opened Bytes
  import opened Bits
  import opened Hashing
  import opened MerkleTree
  import opened VcTree
  import opened VcOpening
  import opened Types
  import opened Leaves

  /** A key and the round in which its epoch starts. */
  datatype RegisteredKey = RegisteredKey(start: U64, key: seq<Byte>)

  function RegisteredPreimages(keys: seq<RegisteredKey>): (r: seq<seq<Byte>>)
    ensures |r| == |keys| && forall i :: 0 <= i < |r| ==> r[i] == KeyPreimage(keys[i].start, keys[i].key)
  {
    seq(|keys|, i requires 0 <= i < |keys| => KeyPreimage(keys[i].start, keys[i].key))
  }

  lemma KeyPreimageInjective(r: U64, k: seq<Byte>, s: U64, l: seq<Byte>)
    requires KeyPreimage(r, k) == KeyPreimage(s, l)
    ensures r == s && k == l
  {
    hide LE;
    Pow256Values();
    var tag := DOMAIN_EPHEMERAL_KEY + LE(2, MSS_CRYPTO_SUITE_ID);
    ConcatInjective(tag + LE(8, r), k, tag + LE(8, s), l);
    ConcatInjective(tag, LE(8, r), tag, LE(8, s));
    LEInjective(8, r, s);
  }

  lemma KeyIsNotFiller(round: U64, key: seq<Byte>)
    ensures KeyPreimage(round, key) != MERKLE_VC_BOTTOM_LEAF
  {
    hide LE;
    assert KeyPreimage(round, key)[0] == 0x4b;
  }

  /** The check in `CheckScheme` is that the key's leaf leads to the verifier's commitment. */
  ghost predicate KeyProven(h: HashFn, mss: MerkleSignature, v: MerkleVerifier, round: U64) {
    ProvenRoot(h, KeyPreimage(KeyEpochStart(v, round), mss.verifyingKey), mss.vcIndex, mss.proof) == v.commitment
  }

  /** The slot at which the climb starts holds this key, registered for the epoch that contains the round. */
  ghost predicate Registered(mss: MerkleSignature, v: MerkleVerifier, round: U64, keys: seq<RegisteredKey>) {
    var i := ProvenSlot(mss.vcIndex, mss.proof);
    i < |keys| && keys[i] == RegisteredKey(KeyEpochStart(v, round), mss.verifyingKey)
  }

  /** The inputs hashed to check a key. */
  ghost function KeyInputs(h: HashFn, mss: MerkleSignature, v: MerkleVerifier, round: U64): set<seq<Byte>> {
    ProofInputs(h, KeyPreimage(KeyEpochStart(v, round), mss.verifyingKey), mss.vcIndex, mss.proof)
  }

  /** The verifier's commitment was made over these keys. */
  ghost predicate KeysBehind(h: HashFn, mss: MerkleSignature, v: MerkleVerifier, keys: seq<RegisteredKey>) {
    && keys != [] && Addressable(LeafDigests(h, RegisteredPreimages(keys)))
    && CommitsToLeaves(h, v.commitment, RegisteredPreimages(keys))
    && h.Sized(mss.proof.path)
  }

  lemma KeysTagged(keys: seq<RegisteredKey>)
    ensures Tagged(RegisteredPreimages(keys))
  {
    hide KeyPreimage;
    forall i | 0 <= i < |keys|
      ensures !IsNodeInput(RegisteredPreimages(keys)[i])
    {
      KeyIsNoNode(keys[i].start, keys[i].key);
    }
  }

  lemma KeyIsNoNode(round: U64, key: seq<Byte>)
    ensures !IsNodeInput(KeyPreimage(round, key))
  {
    hide LE;
    NoNode(KeyPreimage(round, key));
  }

  /**
   An accepted key, whatever the shape of its proof, is one that the participant registered, in the slot at which
   the climb starts, and for the epoch that contains the round; otherwise two hashed inputs collide.
   */
  lemma KeyIsRegistered(h: HashFn, mss: MerkleSignature, v: MerkleVerifier, round: U64, keys: seq<RegisteredKey>)
    requires h.Valid() && KeysBehind(h, mss, v, keys) && KeyProven(h, mss, v, round)
    ensures Registered(mss, v, round, keys)
         || h.CollisionBetween(KeyInputs(h, mss, v, round), VectorInputs(h, RegisteredPreimages(keys)))
  {
    hide KeyPreimage, ProvenRoot, VcRoot, CeilLog2, Addressable, VectorInputs, ProofInputs, ProvenSlot, VcPath;
    var start, i := KeyEpochStart(v, round), ProvenSlot(mss.vcIndex, mss.proof);
    KeysTagged(keys);
    KeyIsNoNode(start, mss.verifyingKey);
    ProvenIsCommitted(h, RegisteredPreimages(keys), KeyPreimage(start, mss.verifyingKey), mss.vcIndex, mss.proof);
    KeyIsNotFiller(start, mss.verifyingKey);
    if i < |keys| && KeyPreimage(start, mss.verifyingKey) == KeyPreimage(keys[i].start, keys[i].key) {
      KeyPreimageInjective(start, mss.verifyingKey, keys[i].start, keys[i].key);
    }
  }
}
