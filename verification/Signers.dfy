/** Which registered key signed: accepted signatures traced to the keys behind the committed participants. */
module Signers {
  import opened MerkleTree
  import opened Types
  import opened VcTree
  import opened VcOpening
  import opened KeyTree
  import opened Verifier
  import opened Soundness

  /**
   `keys[s]` are the keys that the member in slot `s` registered, for every member that a signature was opened for.
   */
  ghost predicate KeysOfRoster(env: Env, sp: StateProof, roster: seq<Participant>, keys: seq<seq<RegisteredKey>>) {
    && |keys| == |roster|
    && forall i: nat :: i < |sp.openings| ==>
         var slot := SlotOf(sp.openings[i].position, sp.partProofs.treeDepth);
         !sp.openings[i].opening.sigSlot.IsEmpty() && slot < |roster| ==>
           KeysBehind(env.sum, sp.openings[i].opening.sigSlot.mss, roster[slot].pk, keys[slot])
  }

  /** The signature in opening `i` is by a key that the member in its slot registered for this epoch. */
  ghost predicate SignedByMember(
    env: Env, sp: StateProof, msg: Message, roster: seq<Participant>, keys: seq<seq<RegisteredKey>>, i: nat)
    requires i < |sp.openings| && |keys| == |roster|
  {
    var o := sp.openings[i];
    var slot, mss := SlotOf(o.position, sp.partProofs.treeDepth), o.opening.sigSlot.mss;
    !o.opening.sigSlot.IsEmpty() ==>
      && slot < |roster| && Registered(mss, roster[slot].pk, msg.lastRound, keys[slot])
      && env.falcon.verifies(mss.verifyingKey, mss.signature, MessageHash(env, msg))
  }

  /** The key check of opening `i` collides with the key tree of the member in its slot. */
  ghost predicate KeyCollides(
    env: Env, sp: StateProof, msg: Message, roster: seq<Participant>, keys: seq<seq<RegisteredKey>>, i: nat)
    requires i < |sp.openings| && |keys| == |roster|
  {
    var slot, mss := SlotOf(sp.openings[i].position, sp.partProofs.treeDepth), sp.openings[i].opening.sigSlot.mss;
    && slot < |roster| && keys[slot] != [] && Addressable(LeafDigests(env.sum, RegisteredPreimages(keys[slot])))
    && env.sum.CollisionBetween(KeyInputs(env.sum, mss, roster[slot].pk, msg.lastRound),
                                VectorInputs(env.sum, RegisteredPreimages(keys[slot])))
  }

  /**
   In every accepted proof over a committed roster, each signature in the last opening of a slot is by a key
   that the member in that slot registered for the epoch of the attested round, and covers the message; or
   two hashed inputs collide, in the participant tree or in a member's key tree.
   */
  lemma SignersRegistered(
    env: Env, sp: StateProof, msg: Message, anchor: TrustAnchor, roster: seq<Participant>,
    keys: seq<seq<RegisteredKey>>)
    requires env.Valid() && Verify(env, sp, msg, anchor).Accept?
    requires CommitsTo(env, anchor.partCommitment, roster) && env.sum.Sized(sp.partProofs.path)
    requires KeysOfRoster(env, sp, roster, keys)
    ensures || (forall i: nat :: LastOpening(sp.openings, sp.partProofs.treeDepth, i) ==>
                  SignedByMember(env, sp, msg, roster, keys, i))
            || env.sum.CollisionBetween(ParticipantSidePreimages(env, sp), RosterPreimages(env, roster))
            || exists i: nat :: i < |sp.openings| && KeyCollides(env, sp, msg, roster, keys, i)
  {
    hide Verify, CommitsTo, CoinBacked, CoinStream, SlotOf, MessageHash, KeyProven, KeysBehind, Registered;
    RosterValid(env, anchor.partCommitment, roster);
    StepSoundness(env, sp, msg, anchor, roster);
    if Established(env, sp, msg, anchor, roster) {
      forall i: nat | LastOpening(sp.openings, sp.partProofs.treeDepth, i)
                      && !KeyCollides(env, sp, msg, roster, keys, i)
        ensures i < |sp.openings| && SignedByMember(env, sp, msg, roster, keys, i)
      {
        SignerRegistered(env, sp, msg, roster, keys, i);
      }
    }
  }

  lemma SignerRegistered(
    env: Env, sp: StateProof, msg: Message, roster: seq<Participant>, keys: seq<seq<RegisteredKey>>, i: nat)
    requires env.Valid() && i < |sp.openings| && KeysOfRoster(env, sp, roster, keys)
    requires Authentic(sp.openings[i], roster, sp.partProofs.treeDepth) && SignedUnder(env, sp.openings[i], msg)
    requires !KeyCollides(env, sp, msg, roster, keys, i)
    ensures SignedByMember(env, sp, msg, roster, keys, i)
  {
    hide SlotOf, MessageHash, KeyProven, Registered, KeyInputs, VectorInputs, VcRoot, Addressable;
    var slot := SlotOf(sp.openings[i].position, sp.partProofs.treeDepth);
    if !sp.openings[i].opening.sigSlot.IsEmpty() {
      KeyIsRegistered(env.sum, sp.openings[i].opening.sigSlot.mss, roster[slot].pk, msg.lastRound, keys[slot]);
    }
  }
}
