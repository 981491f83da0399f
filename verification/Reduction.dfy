/** From forged state proofs down to the compression function of its hash. */
module Reduction {
  import opened Bytes
  import opened Bits
  import opened Hashing
  import opened MerkleTree
  import opened OrderedMap
  import opened BatchProof
  import opened VcTree
  import opened VcBatch
  import opened VcOpening
  import opened Types
  import opened Leaves
  import opened Verifier
  import opened VerifierRun
  import opened Soundness
  import opened KeyTree
  import opened Signers
  import opened Decoders
  import opened TypedDecoders
  import opened Shapes
  import MD = MerkleDamgard
  import Sumhash

  /** Below the input cap of the hasher. */
  ghost predicate Short(inputs: set<seq<Byte>>) {
    forall x :: x in inputs ==> |x| < MD.MAX_INPUT_BYTES
  }

  /** Node inputs of this hash function are far below the cap. */
  ghost predicate SmallDigests(h: HashFn) {
    h.Valid() && h.size <= SUMHASH_SIZE
  }

  // ---------------------------------------------------------------- the inputs are short

  lemma {:induction false} TreeInputsShort(h: HashFn, leaves: seq<Digest>, pad: Digest)
    requires SmallDigests(h) && |pad| == h.size && h.Sized(leaves)
    ensures Short(TreePreimages(h, leaves, pad))
    decreases |leaves|
  {
    if |leaves| > 1 {
      forall x | x in LevelPreimages(leaves, pad)
        ensures |x| < MD.MAX_INPUT_BYTES
      {
      }
      TreeInputsShort(h, Parents(h, leaves, pad), pad);
    }
  }

  lemma {:induction false} RoundInputsShort(h: HashFn, level: seq<Elem>, path: seq<Digest>)
    requires SmallDigests(h) && SizedLevel(h, level) && h.Sized(path)
    ensures Short(RoundPreimages(h, level, path))
    ensures var o := Round(h, level, path); o.Done? ==> SizedLevel(h, o.level) && h.Sized(o.path)
    decreases |level|
  {
    if CanStep(level, path) { RoundInputsShort(h, LevelAfter(level), PathAfter(level, path)); }
  }

  lemma {:induction false} RoundsInputsShort(h: HashFn, level: seq<Elem>, depth: nat, path: seq<Digest>)
    requires SmallDigests(h) && SizedLevel(h, level) && h.Sized(path)
    ensures Short(RoundsPreimages(h, level, depth, path))
    decreases depth
  {
    if depth > 0 {
      RoundInputsShort(h, level, path);
      var o := Round(h, level, path);
      if o.Done? { RoundsInputsShort(h, o.level, depth - 1, o.path); }
    }
  }

  lemma {:induction false} InsertSized(h: HashFn, m: seq<Elem>, key: nat, value: Digest)
    requires SizedLevel(h, m) && |value| == h.size
    ensures SizedLevel(h, Insert(m, key, value))
  {
    if m != [] { InsertSized(h, m[1..], key, value); }
  }

  lemma {:induction false} CollectSized(h: HashFn, elems: seq<Elem>)
    requires SizedLevel(h, elems)
    ensures SizedLevel(h, Collect(elems))
  {
    if elems != [] {
      var init, last := elems[..|elems| - 1], elems[|elems| - 1];
      CollectSized(h, init);
      InsertSized(h, Collect(init), last.key, last.value);
    }
  }

  lemma VcBatchInputsShort(h: HashFn, elems: seq<Elem>, depth: nat, path: seq<Digest>)
    requires SmallDigests(h) && SizedLevel(h, elems) && h.Sized(path)
    ensures Short(VcBatchPreimages(h, elems, depth, path))
  {
    hide VcIndex;
    CollectSized(h, Internal(elems, depth));
    RoundsInputsShort(h, Collect(Internal(elems, depth)), depth, path);
  }

  lemma VcInputsShort(h: HashFn, leaves: seq<Digest>)
    requires SmallDigests(h) && leaves != [] && Addressable(leaves) && h.Sized(leaves)
    ensures Short(VcPreimages(h, leaves))
  {
    hide TreePreimages, VcIndex;
    DepthInRange(leaves);
    LeafLevelSized(h, leaves, CeilLog2(|leaves|));
    TreeInputsShort(h, LeafLevel(h, leaves, CeilLog2(|leaves|)), BottomLeaf(h));
  }

  lemma ParticipantInputShort(p: Participant)
    requires ValidParticipant(p)
    ensures |ParticipantPreimage(p)| < MD.MAX_INPUT_BYTES
  {
    hide LE;
  }

  lemma BothSidesShort(env: Env, sp: StateProof, roster: seq<Participant>)
    requires env.Valid() && ValidStateProof(sp) && ValidRoster(roster)
    ensures Short(ParticipantSidePreimages(env, sp)) && Short(RosterPreimages(env, roster))
  {
    hide VcBatchPreimages, VcPreimages, ParticipantPreimage;
    VcBatchInputsShort(env.sum, ParticipantBatch(env, sp), sp.partProofs.treeDepth, sp.partProofs.path);
    VcInputsShort(env.sum, RosterDigests(env, roster));
    forall p | ValidParticipant(p)
      ensures |ParticipantPreimage(p)| < MD.MAX_INPUT_BYTES
    {
      ParticipantInputShort(p);
    }
    forall i | 0 <= i < |sp.openings|
      ensures ValidParticipant(sp.openings[i].opening.participant)
    {
      assert ValidOpening(sp.openings[i]);
    }
  }

  lemma {:induction false} ClimbInputsShort(h: HashFn, current: Digest, i: nat, path: seq<Digest>)
    requires SmallDigests(h) && |current| == h.size && h.Sized(path)
    ensures Short(ClimbPreimages(h, current, i, path))
    decreases |path|
  {
    if path != [] { ClimbInputsShort(h, h.digest(StepPreimage(current, i, path[0])), i / 2, path[1..]); }
  }

  ghost predicate ValidKeys(keys: seq<RegisteredKey>) {
    forall i :: 0 <= i < |keys| ==> |keys[i].key| == PUBKEY_SIZE
  }

  lemma KeyInputShort(round: U64, key: seq<Byte>)
    requires |key| == PUBKEY_SIZE
    ensures |KeyPreimage(round, key)| < MD.MAX_INPUT_BYTES
  {
    hide LE;
  }

  lemma KeySidesShort(h: HashFn, mss: MerkleSignature, v: MerkleVerifier, round: U64, keys: seq<RegisteredKey>)
    requires SmallDigests(h) && h.Sized(mss.proof.path) && |mss.verifyingKey| == PUBKEY_SIZE && ValidKeys(keys)
    requires keys != [] && Addressable(LeafDigests(h, RegisteredPreimages(keys)))
    ensures Short(KeyInputs(h, mss, v, round)) && Short(VectorInputs(h, RegisteredPreimages(keys)))
  {
    hide ClimbPreimages, VcPreimages, KeyPreimage, VcIndex, Addressable;
    var leaf := KeyPreimage(KeyEpochStart(v, round), mss.verifyingKey);
    KeyInputShort(KeyEpochStart(v, round), mss.verifyingKey);
    ClimbInputsShort(h, h.digest(leaf), VcIndex(mss.vcIndex, mss.proof.treeDepth), mss.proof.path);
    VcInputsShort(h, LeafDigests(h, RegisteredPreimages(keys)));
    forall i | 0 <= i < |keys|
      ensures |RegisteredPreimages(keys)[i]| < MD.MAX_INPUT_BYTES
    {
      KeyInputShort(keys[i].start, keys[i].key);
    }
  }

  /** A slot's leaf input is its tag and range start in front of the fixed-length signature. */
  lemma SlotInputShort(f: Falcon, slot: SigSlot)
    requires f.Valid() && ValidSlot(slot) && SlotPreimage(f, slot).Fixed?
    ensures |SlotPreimage(f, slot).bytes| < MD.MAX_INPUT_BYTES
  {
    hide LE, Flatten;
    if !slot.IsEmpty() { FlattenLength(slot.mss.proof.path); }
  }

  lemma SlotSidesShort(env: Env, sp: StateProof, slots: seq<SigSlot>)
    requires env.Valid() && CommitsToSlots(env, sp, slots)
    requires forall i :: 0 <= i < |sp.openings| ==> SlotPreimage(env.falcon, sp.openings[i].opening.sigSlot).Fixed?
    ensures Short(SlotSidePreimages(env, sp)) && Short(SlotsPreimages(env, slots))
  {
    hide VcBatchPreimages, VcPreimages, SlotPreimage, ValidSlot, VcRoot;
    DigestsSized(env, sp, slots);
    VcBatchInputsShort(env.sum, SlotBatch(env, sp), sp.sigProofs.treeDepth, sp.sigProofs.path);
    VcInputsShort(env.sum, SlotDigests(env, slots));
    forall slot: SigSlot | ValidSlot(slot) && SlotPreimage(env.falcon, slot).Fixed?
      ensures |SlotPreimage(env.falcon, slot).bytes| < MD.MAX_INPUT_BYTES
    {
      SlotInputShort(env.falcon, slot);
    }
  }

  // ---------------------------------------------------------------- down to the compression function

  /** Two different inputs of the compression function with one output, from the chains of `a` and `b`. */
  ghost predicate CompressionCollides(xof: Sumhash.Xof, a: seq<Byte>, b: seq<Byte>) {
    var m := Sumhash.Sumhash512Matrix(xof);
    MD.ChainsCollide(m, MD.MessageChain(m, a), MD.MessageChain(m, b))
  }

  /** Some input from `A` and a different one from `B` walk the compression function into a collision. */
  ghost predicate ReachCollision(xof: Sumhash.Xof, A: set<seq<Byte>>, B: set<seq<Byte>>) {
    exists a, b :: a in A && b in B && a != b && CompressionCollides(xof, a, b)
  }

  lemma CollisionReaches(env: Env, A: set<seq<Byte>>, B: set<seq<Byte>>)
    requires env.sum == Sumhash.Sumhash512(env.shake) && Short(A) && Short(B) && env.sum.CollisionBetween(A, B)
    ensures ReachCollision(env.shake, A, B)
  {
    var a, b := Sumhash.CollisionReachesCompression(env.shake, A, B);
    assert CompressionCollides(env.shake, a, b);
  }

  /**
   The whole stack: with Sumhash512 as the tree hash, an accepted proof over a committed roster either
   establishes what it should, or two of the hashed inputs walk the compression function into a collision.
   */
  lemma ForgeryBreaksCompression(env: Env, sp: StateProof, msg: Message, anchor: TrustAnchor, roster: seq<Participant>)
    requires env.Valid() && env.sum == Sumhash.Sumhash512(env.shake)
    requires Verify(env, sp, msg, anchor).Accept?
    requires ValidStateProof(sp) && CommitsTo(env, anchor.partCommitment, roster)
    ensures Established(env, sp, msg, anchor, roster)
         || ReachCollision(env.shake, ParticipantSidePreimages(env, sp), RosterPreimages(env, roster))
  {
    hide ParticipantSidePreimages, RosterPreimages, Verify, Established;
    StepSoundness(env, sp, msg, anchor, roster);
    RosterValid(env, anchor.partCommitment, roster);
    BothSidesShort(env, sp, roster);
    if env.sum.CollisionBetween(ParticipantSidePreimages(env, sp), RosterPreimages(env, roster)) {
      CollisionReaches(env, ParticipantSidePreimages(env, sp), RosterPreimages(env, roster));
    }
  }

  /** The key check of opening `i` and the key tree of the member in its slot reach such a collision. */
  ghost predicate KeysReachCollision(
    env: Env, sp: StateProof, msg: Message, roster: seq<Participant>, keys: seq<seq<RegisteredKey>>, i: nat)
    requires i < |sp.openings| && |keys| == |roster|
  {
    var slot, mss := SlotOf(sp.openings[i].position, sp.partProofs.treeDepth), sp.openings[i].opening.sigSlot.mss;
    && slot < |roster| && keys[slot] != [] && Addressable(LeafDigests(env.sum, RegisteredPreimages(keys[slot])))
    && ReachCollision(env.shake, KeyInputs(env.sum, mss, roster[slot].pk, msg.lastRound),
                      VectorInputs(env.sum, RegisteredPreimages(keys[slot])))
  }

  lemma KeyCollisionReaches(
    env: Env, sp: StateProof, msg: Message, roster: seq<Participant>, keys: seq<seq<RegisteredKey>>, i: nat)
    requires env.Valid() && env.sum == Sumhash.Sumhash512(env.shake)
    requires i < |sp.openings| && |keys| == |roster| && ValidOpening(sp.openings[i])
    requires forall s :: 0 <= s < |keys| ==> ValidKeys(keys[s])
    requires KeyCollides(env, sp, msg, roster, keys, i)
    ensures KeysReachCollision(env, sp, msg, roster, keys, i)
  {
    hide SlotOf, KeyInputs, VectorInputs, Addressable, ReachCollision;
    var slot, mss := SlotOf(sp.openings[i].position, sp.partProofs.treeDepth), sp.openings[i].opening.sigSlot.mss;
    KeySidesShort(env.sum, mss, roster[slot].pk, msg.lastRound, keys[slot]);
    CollisionReaches(env, KeyInputs(env.sum, mss, roster[slot].pk, msg.lastRound),
                     VectorInputs(env.sum, RegisteredPreimages(keys[slot])));
  }

  /**
   For the signers too: the last opening of every slot is signed with a key that its member registered, or inputs
   of the participant tree or of a member's key tree walk the compression function into a collision.
   */
  lemma WrongSignerBreaksCompression(
    env: Env, sp: StateProof, msg: Message, anchor: TrustAnchor, roster: seq<Participant>,
    keys: seq<seq<RegisteredKey>>)
    requires env.Valid() && env.sum == Sumhash.Sumhash512(env.shake) && Verify(env, sp, msg, anchor).Accept?
    requires ValidStateProof(sp) && CommitsTo(env, anchor.partCommitment, roster)
    requires KeysOfRoster(env, sp, roster, keys) && forall s :: 0 <= s < |keys| ==> ValidKeys(keys[s])
    ensures || (forall i: nat :: LastOpening(sp.openings, sp.partProofs.treeDepth, i) ==>
                  SignedByMember(env, sp, msg, roster, keys, i))
            || ReachCollision(env.shake, ParticipantSidePreimages(env, sp), RosterPreimages(env, roster))
            || exists i: nat :: i < |sp.openings| && KeysReachCollision(env, sp, msg, roster, keys, i)
  {
    hide ParticipantSidePreimages, RosterPreimages, Verify, KeysReachCollision, KeyCollides, SignedByMember, CommitsTo;
    hide ReachCollision, LastOpening;
    SignersRegistered(env, sp, msg, anchor, roster, keys);
    RosterValid(env, anchor.partCommitment, roster);
    BothSidesShort(env, sp, roster);
    if env.sum.CollisionBetween(ParticipantSidePreimages(env, sp), RosterPreimages(env, roster)) {
      CollisionReaches(env, ParticipantSidePreimages(env, sp), RosterPreimages(env, roster));
    } else if i: nat :| i < |sp.openings| && KeyCollides(env, sp, msg, roster, keys, i) {
      assert ValidOpening(sp.openings[i]);
      KeyCollisionReaches(env, sp, msg, roster, keys, i);
    }
  }

  /**
   And for the signatures: the last opening of every slot is what the proof's own commitment holds there, or
   inputs of the signature tree walk the compression function into a collision.
   */
  lemma SwappedSlotBreaksCompression(env: Env, sp: StateProof, msg: Message, anchor: TrustAnchor, slots: seq<SigSlot>)
    requires env.Valid() && env.sum == Sumhash.Sumhash512(env.shake) && Accepts(env, sp, msg, anchor)
    requires CommitsToSlots(env, sp, slots)
    ensures forall i :: 0 <= i < |sp.openings| ==> SlotPreimage(env.falcon, sp.openings[i].opening.sigSlot).Fixed?
    ensures || (&& sp.sigProofs.treeDepth == CeilLog2(|slots|)
                && forall i: nat :: LastOpening(sp.openings, sp.sigProofs.treeDepth, i) ==>
                     Pinned(env, sp.openings[i], slots, sp.sigProofs.treeDepth))
            || ReachCollision(env.shake, SlotSidePreimages(env, sp), SlotsPreimages(env, slots))
  {
    hide Accepts, Pinned, LastOpening, SlotSidePreimages, SlotsPreimages, SlotPreimage, ReachCollision, VcRoot;
    LastPinned(env, sp, msg, anchor, slots);
    SlotSidesShort(env, sp, slots);
    if env.sum.CollisionBetween(SlotSidePreimages(env, sp), SlotsPreimages(env, slots)) {
      CollisionReaches(env, SlotSidePreimages(env, sp), SlotsPreimages(env, slots));
    }
  }

  /**
   From bytes to the compression function: whatever byte string decodes to an accepted proof over a committed roster,
   it establishes what it should, or its own inputs and those of the commitment reach a collision.
   */
  lemma WireForgeryBreaksCompression(
    env: Env, bytes: seq<Byte>, msg: Message, anchor: TrustAnchor, roster: seq<Participant>)
    requires env.Valid() && env.sum == Sumhash.Sumhash512(env.shake)
    requires CommitsTo(env, anchor.partCommitment, roster)
    ensures var r := DecodeAll((s: seq<Byte>) => DecodeStateProof(env.falcon, s), bytes);
            r.Ok? && Verify(env, r.value, msg, anchor).Accept? ==>
              || Established(env, r.value, msg, anchor, roster)
              || ReachCollision(env.shake, ParticipantSidePreimages(env, r.value), RosterPreimages(env, roster))
  {
    hide DecodeStateProof, Verify, CommitsTo, Established, ReachCollision, ParticipantSidePreimages, RosterPreimages;
    RosterValid(env, anchor.partCommitment, roster);
    DecodedStateProofValid(env.falcon, bytes);
    var r := DecodeAll((s: seq<Byte>) => DecodeStateProof(env.falcon, s), bytes);
    if r.Ok? && Verify(env, r.value, msg, anchor).Accept? {
      ForgeryBreaksCompression(env, r.value, msg, anchor, roster);
    }
  }
}
