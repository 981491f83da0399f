/** What an accepted state proof says about the committed participants, for one step and for whole chains. */
module Soundness {
  import opened Bytes
  import opened Hashing
  import opened MerkleTree
  import opened Bits
  import opened BatchProof
  import opened VcTree
  import opened VcBatch
  import opened DepthBinding
  import opened Types
  import opened Coin
  import opened Leaves
  import opened Verifier
  import opened KeyTree
  import RoundTrip

  // ---------------------------------------------------------------- committed participants

  ghost predicate ValidRoster(roster: seq<Participant>) {
    roster != [] && Addressable(roster) && forall i :: 0 <= i < |roster| ==> ValidParticipant(roster[i])
  }

  function RosterDigests(env: Env, roster: seq<Participant>): (ds: seq<Digest>)
    ensures |ds| == |roster|
    ensures forall i :: 0 <= i < |ds| ==> ds[i] == ParticipantLeaf(env, roster[i])
  {
    seq(|roster|, i requires 0 <= i < |roster| => ParticipantLeaf(env, roster[i]))
  }

  /** The commitment is the vector commitment root over the leaves of the roster. */
  ghost predicate CommitsTo(env: Env, commitment: Digest, roster: seq<Participant>) {
    ValidRoster(roster) && commitment == VcRoot(env.sum, RosterDigests(env, roster))
  }

  /** Every input hashed to commit to the roster. */
  ghost function RosterPreimages(env: Env, roster: seq<Participant>): set<seq<Byte>>
    requires ValidRoster(roster)
  {
    RosterLeafInputs(roster) + VcPreimages(env.sum, RosterDigests(env, roster))
  }

  /** The leaf inputs of the roster and the filler. */
  function RosterLeafInputs(roster: seq<Participant>): set<seq<Byte>> {
    (set i | 0 <= i < |roster| :: ParticipantPreimage(roster[i])) + {MERKLE_VC_BOTTOM_LEAF}
  }

  /** Every input hashed to check the participant side of a proof. */
  function ParticipantSidePreimages(env: Env, sp: StateProof): set<seq<Byte>> {
    OpenedLeafInputs(sp)
    + VcBatchPreimages(env.sum, ParticipantBatch(env, sp), sp.partProofs.treeDepth, sp.partProofs.path)
  }

  /** The leaf inputs of the opened participants. */
  function OpenedLeafInputs(sp: StateProof): set<seq<Byte>> {
    set i | 0 <= i < |sp.openings| :: ParticipantPreimage(sp.openings[i].opening.participant)
  }

  /** No later opening addresses the same slot of a tree of this depth. */
  ghost predicate LastOpening(openings: seq<RevealAt>, depth: nat, i: nat) {
    && i < |openings|
    && forall j :: i < j < |openings| ==>
         SlotOf(openings[j].position, depth) != SlotOf(openings[i].position, depth)
  }

  /** No two openings address one slot. */
  ghost predicate NoAliases(openings: seq<RevealAt>, depth: nat) {
    forall i, j :: 0 <= i < j < |openings| ==>
      SlotOf(openings[i].position, depth) != SlotOf(openings[j].position, depth)
  }

  /** Then every opening is the last one of its slot. */
  lemma UnaliasedIff(openings: seq<RevealAt>, depth: nat)
    ensures NoAliases(openings, depth) <==> forall i: nat :: i < |openings| ==> LastOpening(openings, depth, i)
  {
    hide SlotOf;
    if forall i: nat :: i < |openings| ==> LastOpening(openings, depth, i) {
      forall i, j | 0 <= i < j < |openings|
        ensures SlotOf(openings[i].position, depth) != SlotOf(openings[j].position, depth)
      {
        assert LastOpening(openings, depth, i);
      }
    }
  }

  /** Distinct positions below the capacity address different slots. */
  lemma PositionsBelowCapacity(openings: seq<RevealAt>, depth: nat)
    requires DistinctPositions(openings)
    requires forall i :: 0 <= i < |openings| ==> openings[i].position < Pow2(depth)
    ensures NoAliases(openings, depth)
    ensures forall i :: 0 <= i < |openings| ==> SlotOf(openings[i].position, depth) == openings[i].position
  {
    hide SlotOf, Pow2;
    forall i | 0 <= i < |openings|
      ensures SlotOf(openings[i].position, depth) == openings[i].position
    {
      SlotBelowCapacity(openings[i].position, depth);
    }
  }

  /** The opened participant is the committed one in its slot. */
  ghost predicate Authentic(o: RevealAt, roster: seq<Participant>, depth: nat) {
    var slot := SlotOf(o.position, depth);
    slot < |roster| && o.opening.participant == roster[slot]
  }

  /** A signed slot carries a signature of this message by a key that the opened participant committed to. */
  ghost predicate SignedUnder(env: Env, o: RevealAt, msg: Message) {
    var mss := o.opening.sigSlot.mss;
    !o.opening.sigSlot.IsEmpty() ==>
      && KeyProven(env.sum, mss, o.opening.participant.pk, msg.lastRound)
      && env.falcon.verifies(mss.verifyingKey, mss.signature, MessageHash(env, msg))
  }

  /** Its signature has the declared salt version. */
  ghost predicate Salted(env: Env, sp: StateProof, o: RevealAt) {
    !o.opening.sigSlot.IsEmpty() ==> env.falcon.saltVersion(o.opening.sigSlot.mss.signature) == sp.saltVersion
  }

  /** Opening `j` has the coin in its range; if it is the last one of its slot, in the committed weight range. */
  ghost predicate Backs(openings: seq<RevealAt>, roster: seq<Participant>, depth: nat, j: nat, coin: nat) {
    && j < |openings| && InRange(openings[j].opening, coin)
    && (LastOpening(openings, depth, j) ==>
          var slot, l := SlotOf(openings[j].position, depth), openings[j].opening.sigSlot.l;
          slot < |roster| && l <= coin < l + roster[slot].weight)
  }

  /** There is an `i`-th coin, and an opening at the `i`-th position backs it. */
  ghost predicate CoinBacked(sp: StateProof, roster: seq<Participant>, xof: nat -> Byte, i: nat)
    requires sp.signedWeight > 0 && i < |sp.positions|
  {
    && Yields(xof, sp.signedWeight, i)
    && exists j: nat :: j < |sp.openings| && sp.openings[j].position == sp.positions[i]
         && Backs(sp.openings, roster, sp.partProofs.treeDepth, j, CoinAt(xof, sp.signedWeight, i))
  }

  /** What one accepted step establishes relative to the roster behind its anchor. */
  ghost predicate Established(env: Env, sp: StateProof, msg: Message, anchor: TrustAnchor, roster: seq<Participant>) {
    && sp.signedWeight > 0 && roster != [] && sp.partProofs.treeDepth == CeilLog2(|roster|)
    && (forall i: nat :: LastOpening(sp.openings, sp.partProofs.treeDepth, i) ==>
          Authentic(sp.openings[i], roster, sp.partProofs.treeDepth))
    && (forall i :: 0 <= i < |sp.openings| ==> SignedUnder(env, sp.openings[i], msg) && Salted(env, sp, sp.openings[i]))
    && (forall i :: 0 <= i < |sp.positions| ==> CoinBacked(sp, roster, CoinStream(env, sp, msg, anchor), i))
  }

  lemma EstablishedDepth(env: Env, sp: StateProof, msg: Message, anchor: TrustAnchor, roster: seq<Participant>)
    requires Established(env, sp, msg, anchor, roster)
    ensures roster != [] && sp.partProofs.treeDepth == CeilLog2(|roster|)
  {
  }

  /** Without aliases this holds of every opening and of every coin. */
  lemma EstablishedForAll(env: Env, sp: StateProof, msg: Message, anchor: TrustAnchor, roster: seq<Participant>)
    requires Established(env, sp, msg, anchor, roster) && NoAliases(sp.openings, sp.partProofs.treeDepth)
    ensures forall i :: 0 <= i < |sp.openings| ==> Authentic(sp.openings[i], roster, sp.partProofs.treeDepth)
    ensures forall j: nat, coin: nat :: Backs(sp.openings, roster, sp.partProofs.treeDepth, j, coin) ==>
              var slot, l := SlotOf(sp.openings[j].position, sp.partProofs.treeDepth), sp.openings[j].opening.sigSlot.l;
              slot < |roster| && l <= coin < l + roster[slot].weight
  {
    hide SlotOf, SignedUnder, CoinBacked, CoinStream, NoAliases;
    UnaliasedIff(sp.openings, sp.partProofs.treeDepth);
  }

  lemma AcceptedHasOpenings(env: Env, sp: StateProof, msg: Message, anchor: TrustAnchor)
    requires env.Valid() && Accepts(env, sp, msg, anchor)
    ensures sp.signedWeight > 0 && |sp.positions| > 0 && sp.openings != []
  {
    hide VcBatchAccepts, OpeningPasses, CoinStream, MessageHash, Covers, Yields;
    StrongNeedsPositions(env, sp, anchor);
    assert CoinCovered(sp.openings, sp.positions, CoinStream(env, sp, msg, anchor), sp.signedWeight, 0);
    SomethingCovers(sp.openings, sp.positions[0], CoinAt(CoinStream(env, sp, msg, anchor), sp.signedWeight, 0));
  }

  /** The strength inequality cannot hold without coins, nor with a weight of zero. */
  lemma StrongNeedsPositions(env: Env, sp: StateProof, anchor: TrustAnchor)
    requires env.Valid() && StrongEnough(env, sp, anchor)
    ensures sp.signedWeight > 0 && |sp.positions| > 0
  {
  }

  lemma SomethingCovers(openings: seq<RevealAt>, pos: U64, coin: nat)
    requires Covers(openings, pos, coin)
    ensures openings != []
  {
  }

  /** One opening against one committed slot: the same participant, or two different inputs with one digest. */
  lemma OpeningBinding(env: Env, sp: StateProof, roster: seq<Participant>, i: nat)
    requires env.Valid() && ValidRoster(roster) && i < |sp.openings|
    requires ParticipantBatch(env, sp)[i].value
          == Committed(env.sum, RosterDigests(env, roster), SlotOf(sp.openings[i].position, sp.partProofs.treeDepth))
    ensures Authentic(sp.openings[i], roster, sp.partProofs.treeDepth)
         || env.sum.CollisionBetween(ParticipantSidePreimages(env, sp), RosterPreimages(env, roster))
  {
    hide VcBatchPreimages, VcPreimages, ParticipantPreimage, SlotOf;
    var slot := SlotOf(sp.openings[i].position, sp.partProofs.treeDepth);
    var ours := ParticipantPreimage(sp.openings[i].opening.participant);
    var theirs := if slot < |roster| then ParticipantPreimage(roster[slot]) else MERKLE_VC_BOTTOM_LEAF;
    assert ours in ParticipantSidePreimages(env, sp) && theirs in RosterPreimages(env, roster);
    assert env.sum.digest(ours) == env.sum.digest(theirs);
    if ours == theirs {
      NotBottom(sp.openings[i].opening.participant);
      ParticipantPreimageInjective(sp.openings[i].opening.participant, roster[slot]);
    } else {
      assert env.sum.Collide(ours, theirs);
    }
  }

  lemma NotBottom(p: Participant)
    ensures ParticipantPreimage(p) != MERKLE_VC_BOTTOM_LEAF
  {
    hide LE;
    assert ParticipantPreimage(p)[0] == 0x73;
  }

  /** The batches name positions in the order of the openings. */
  lemma BatchLast(env: Env, sp: StateProof, depth: nat, i: nat)
    ensures LastInSlot(ParticipantBatch(env, sp), depth, i) <==> LastOpening(sp.openings, depth, i)
    ensures LastInSlot(SlotBatch(env, sp), depth, i) <==> LastOpening(sp.openings, depth, i)
  {
    hide SlotOf, SlotDigest, ParticipantLeaf;
  }

  lemma LeafInputs(env: Env, sp: StateProof, roster: seq<Participant>)
    ensures AllLeafElems(env.sum, ParticipantBatch(env, sp), OpenedLeafInputs(sp))
    ensures AllLeaves(env.sum, RosterDigests(env, roster), RosterLeafInputs(roster))
  {
    hide ParticipantPreimage;
    forall p: Participant
      ensures !IsNodeInput(ParticipantPreimage(p))
    {
      LeavesAreNoNodes(env.falcon, p, 0, [], SigSlot(NoSignature(env.falcon), 0));
    }
    forall i | 0 <= i < |sp.openings|
      ensures LeafFrom(env.sum, ParticipantLeaf(env, sp.openings[i].opening.participant), OpenedLeafInputs(sp))
    {
      assert ParticipantPreimage(sp.openings[i].opening.participant) in OpenedLeafInputs(sp);
    }
    forall i | 0 <= i < |roster|
      ensures LeafFrom(env.sum, ParticipantLeaf(env, roster[i]), RosterLeafInputs(roster))
    {
      assert ParticipantPreimage(roster[i]) in RosterLeafInputs(roster);
    }
  }

  /**
   An accepted proof declares the depth of the committed roster's tree, and in every slot that it opens its last
   opening is the committed participant; or the hash function collides on inputs of both sides.
   */
  lemma LastAuthentic(env: Env, sp: StateProof, msg: Message, anchor: TrustAnchor, roster: seq<Participant>)
    requires env.Valid() && Accepts(env, sp, msg, anchor)
    requires CommitsTo(env, anchor.partCommitment, roster) && env.sum.Sized(sp.partProofs.path)
    ensures || (&& sp.partProofs.treeDepth == CeilLog2(|roster|)
                && forall i: nat :: LastOpening(sp.openings, sp.partProofs.treeDepth, i) ==>
                     Authentic(sp.openings[i], roster, sp.partProofs.treeDepth))
            || env.sum.CollisionBetween(ParticipantSidePreimages(env, sp), RosterPreimages(env, roster))
  {
    hide VcBatchPreimages, VcPreimages, ParticipantPreimage, VcBatchAccepts, VcRoot, VcBatchPath, SlotOf, LastOpening;
    hide CoinCovered, OpeningPasses, StrongEnough, LastOpensCommitted, AllLeaves, AllLeafElems, SizedLevel;
    hide RosterDigests, ParticipantBatch, SlotBatch, CoinStream, MessageHash, DistinctPositions, OpenedLeafInputs;
    hide RosterLeafInputs;
    var digests, batch, d := RosterDigests(env, roster), ParticipantBatch(env, sp), sp.partProofs.treeDepth;
    AcceptedHasOpenings(env, sp, msg, anchor);
    LeafInputs(env, sp, roster);
    LeavesSized(env, sp, roster);
    VcBatchBindingAnyDepth(env.sum, digests, batch, d, sp.partProofs.path,
                           OpenedLeafInputs(sp), RosterLeafInputs(roster));
    if !env.sum.CollisionBetween(ParticipantSidePreimages(env, sp), RosterPreimages(env, roster)) {
      CommittedIsAuthentic(env, sp, roster);
    }
  }

  lemma LeavesSized(env: Env, sp: StateProof, roster: seq<Participant>)
    requires env.Valid() && ValidRoster(roster)
    ensures env.sum.Sized(RosterDigests(env, roster)) && Addressable(RosterDigests(env, roster))
    ensures RosterDigests(env, roster) != [] && SizedLevel(env.sum, ParticipantBatch(env, sp))
    ensures |ParticipantBatch(env, sp)| == |sp.openings| && |RosterDigests(env, roster)| == |roster|
    ensures MERKLE_VC_BOTTOM_LEAF in RosterLeafInputs(roster)
  {
    hide ParticipantPreimage, SlotDigest;
  }

  lemma CommittedIsAuthentic(env: Env, sp: StateProof, roster: seq<Participant>)
    requires env.Valid() && ValidRoster(roster)
    requires LastOpensCommitted(env.sum, RosterDigests(env, roster), sp.partProofs.treeDepth, ParticipantBatch(env, sp))
    requires !env.sum.CollisionBetween(ParticipantSidePreimages(env, sp), RosterPreimages(env, roster))
    ensures forall i: nat :: LastOpening(sp.openings, sp.partProofs.treeDepth, i) ==>
              Authentic(sp.openings[i], roster, sp.partProofs.treeDepth)
  {
    hide SlotOf, LastInSlot, LastOpensCommitted, ParticipantSidePreimages, RosterPreimages;
    var digests, batch, d := RosterDigests(env, roster), ParticipantBatch(env, sp), sp.partProofs.treeDepth;
    forall i: nat | LastOpening(sp.openings, d, i)
      ensures Authentic(sp.openings[i], roster, d)
    {
      BatchLast(env, sp, d, i);
      LastCommitted(env.sum, digests, d, batch, i);
      OpeningBinding(env, sp, roster, i);
    }
  }

  lemma LastCommitted(h: HashFn, leaves: seq<Digest>, depth: nat, elems: seq<Elem>, i: nat)
    requires LastOpensCommitted(h, leaves, depth, elems) && LastInSlot(elems, depth, i)
    ensures i < |elems| && elems[i].value == Committed(h, leaves, SlotOf(elems[i].key, depth))
  {
  }

  /**
   Soundness of one step. If the anchor commits to a roster, then every accepted proof declares the depth of its
   tree, the last opening of each slot is the committed participant, each signature is by a key under the opened
   participant and covers this message, and each coin lies in the range of an opening at its position, by the
   committed weight where that opening is the last of its slot; otherwise an input hashed by the verifier collides
   with one hashed for the commitment.
   */
  lemma StepSoundness(env: Env, sp: StateProof, msg: Message, anchor: TrustAnchor, roster: seq<Participant>)
    requires env.Valid() && Verify(env, sp, msg, anchor).Accept?
    requires CommitsTo(env, anchor.partCommitment, roster) && env.sum.Sized(sp.partProofs.path)
    ensures Established(env, sp, msg, anchor, roster)
         || env.sum.CollisionBetween(ParticipantSidePreimages(env, sp), RosterPreimages(env, roster))
  {
    hide Verify, Accepts, Established, CommitsTo;
    VerifyIff(env, sp, msg, anchor);
    RosterValid(env, anchor.partCommitment, roster);
    LastAuthentic(env, sp, msg, anchor, roster);
    if !env.sum.CollisionBetween(ParticipantSidePreimages(env, sp), RosterPreimages(env, roster)) {
      AuthenticEstablishes(env, sp, msg, anchor, roster);
    }
  }

  lemma AuthenticEstablishes(env: Env, sp: StateProof, msg: Message, anchor: TrustAnchor, roster: seq<Participant>)
    requires env.Valid() && Accepts(env, sp, msg, anchor)
    requires roster != [] && sp.partProofs.treeDepth == CeilLog2(|roster|)
    requires forall i: nat :: LastOpening(sp.openings, sp.partProofs.treeDepth, i) ==>
               Authentic(sp.openings[i], roster, sp.partProofs.treeDepth)
    ensures Established(env, sp, msg, anchor, roster)
  {
    hide VcBatchAccepts, Climb, KeyPreimage, SlotPreimage, CoinStream, MessageHash, SlotOf, LastOpening, Yields;
    hide VcIndex;
    AcceptedHasOpenings(env, sp, msg, anchor);
    forall i | 0 <= i < |sp.openings|
      ensures SignedUnder(env, sp.openings[i], msg) && Salted(env, sp, sp.openings[i])
    {
      assert OpeningPasses(env, sp.saltVersion, sp.openings[i], msg.lastRound, MessageHash(env, msg));
    }
    hide OpeningPasses;
    forall i | 0 <= i < |sp.positions|
      ensures CoinBacked(sp, roster, CoinStream(env, sp, msg, anchor), i)
    {
      assert CoinCovered(sp.openings, sp.positions, CoinStream(env, sp, msg, anchor), sp.signedWeight, i);
      CoveredIsBacked(sp, roster, CoinStream(env, sp, msg, anchor), i);
    }
  }

  lemma CoveredIsBacked(sp: StateProof, roster: seq<Participant>, xof: nat -> Byte, i: nat)
    requires sp.signedWeight > 0 && i < |sp.positions|
    requires CoinCovered(sp.openings, sp.positions, xof, sp.signedWeight, i)
    requires forall j: nat :: LastOpening(sp.openings, sp.partProofs.treeDepth, j) ==>
               Authentic(sp.openings[j], roster, sp.partProofs.treeDepth)
    ensures CoinBacked(sp, roster, xof, i)
  {
    hide SlotOf, Yields;
    var coin := CoinAt(xof, sp.signedWeight, i);
    var j :| 0 <= j < |sp.openings| && sp.openings[j].position == sp.positions[i]
            && InRange(sp.openings[j].opening, coin);
    assert Backs(sp.openings, roster, sp.partProofs.treeDepth, j, coin);
  }

  // ---------------------------------------------------------------- committed signature slots

  function SlotDigests(env: Env, slots: seq<SigSlot>): (ds: seq<Digest>)
    ensures |ds| == |slots|
    ensures forall i :: 0 <= i < |ds| ==> ds[i] == SlotDigest(env, slots[i])
  {
    seq(|slots|, i requires 0 <= i < |slots| => SlotDigest(env, slots[i]))
  }

  ghost predicate ValidSlots(env: Env, slots: seq<SigSlot>) {
    && slots != [] && Addressable(slots)
    && forall i :: 0 <= i < |slots| ==> ValidSlot(slots[i]) && SlotPreimage(env.falcon, slots[i]).Fixed?
  }

  /** The proof's own commitment was made over these slots, and its digests and opened slots have their lengths. */
  ghost predicate CommitsToSlots(env: Env, sp: StateProof, slots: seq<SigSlot>) {
    && ValidSlots(env, slots) && sp.sigCommitment == VcRoot(env.sum, SlotDigests(env, slots))
    && env.sum.Sized(sp.sigProofs.path)
    && forall i :: 0 <= i < |sp.openings| ==> ValidSlot(sp.openings[i].opening.sigSlot)
  }

  /** Every input hashed to commit to the slots. */
  ghost function SlotsPreimages(env: Env, slots: seq<SigSlot>): set<seq<Byte>>
    requires ValidSlots(env, slots)
  {
    SlotLeafInputs(env, slots) + VcPreimages(env.sum, SlotDigests(env, slots))
  }

  /** The leaf inputs of the slots and the filler. */
  ghost function SlotLeafInputs(env: Env, slots: seq<SigSlot>): set<seq<Byte>>
    requires ValidSlots(env, slots)
  {
    (set i | 0 <= i < |slots| :: SlotPreimage(env.falcon, slots[i]).bytes) + {MERKLE_VC_BOTTOM_LEAF}
  }

  /** Every input hashed to check the signature side of a proof. */
  ghost function SlotSidePreimages(env: Env, sp: StateProof): set<seq<Byte>>
    requires forall i :: 0 <= i < |sp.openings| ==> SlotPreimage(env.falcon, sp.openings[i].opening.sigSlot).Fixed?
  {
    OpenedSlotInputs(env, sp)
    + VcBatchPreimages(env.sum, SlotBatch(env, sp), sp.sigProofs.treeDepth, sp.sigProofs.path)
  }

  /** The leaf inputs of the opened slots. */
  ghost function OpenedSlotInputs(env: Env, sp: StateProof): set<seq<Byte>>
    requires forall i :: 0 <= i < |sp.openings| ==> SlotPreimage(env.falcon, sp.openings[i].opening.sigSlot).Fixed?
  {
    set i | 0 <= i < |sp.openings| :: SlotPreimage(env.falcon, sp.openings[i].opening.sigSlot).bytes
  }

  /** The opened slot commits to what the vector of slots holds: nothing past its end. */
  ghost predicate Pinned(env: Env, o: RevealAt, slots: seq<SigSlot>, depth: nat) {
    var i := SlotOf(o.position, depth);
    if i < |slots| then SameSlot(env.falcon, o.opening.sigSlot, slots[i]) else o.opening.sigSlot.IsEmpty()
  }

  /** One opened slot against one committed slot. */
  lemma SlotBinding(env: Env, sp: StateProof, slots: seq<SigSlot>, i: nat)
    requires env.Valid() && ValidSlots(env, slots) && i < |sp.openings|
    requires forall k :: 0 <= k < |sp.openings| ==> SlotPreimage(env.falcon, sp.openings[k].opening.sigSlot).Fixed?
    requires ValidSlot(sp.openings[i].opening.sigSlot)
    requires SlotBatch(env, sp)[i].value
          == Committed(env.sum, SlotDigests(env, slots), SlotOf(sp.openings[i].position, sp.sigProofs.treeDepth))
    ensures Pinned(env, sp.openings[i], slots, sp.sigProofs.treeDepth)
         || env.sum.CollisionBetween(SlotSidePreimages(env, sp), SlotsPreimages(env, slots))
  {
    hide VcBatchPreimages, VcPreimages, SlotPreimage, ValidSlot, SameSlot;
    var at, slot := SlotOf(sp.openings[i].position, sp.sigProofs.treeDepth), sp.openings[i].opening.sigSlot;
    var ours := SlotPreimage(env.falcon, slot).bytes;
    var theirs := if at < |slots| then SlotPreimage(env.falcon, slots[at]).bytes else MERKLE_VC_BOTTOM_LEAF;
    assert ours in SlotSidePreimages(env, sp) && theirs in SlotsPreimages(env, slots);
    assert env.sum.digest(ours) == env.sum.digest(theirs);
    if ours != theirs {
      assert env.sum.Collide(ours, theirs);
    } else if at < |slots| {
      SlotPreimageBinding(env.falcon, slot, slots[at]);
    } else if !slot.IsEmpty() {
      SignedIsNotFiller(env.falcon, slot);
    }
  }

  lemma SignedIsNotFiller(f: Falcon, slot: SigSlot)
    requires SlotPreimage(f, slot).Fixed? && !slot.IsEmpty()
    ensures SlotPreimage(f, slot).bytes != MERKLE_VC_BOTTOM_LEAF
  {
    hide MssBytes, LE;
    assert SlotPreimage(f, slot).bytes[0] == 0x73;
  }

  lemma SlotInputs(env: Env, sp: StateProof, slots: seq<SigSlot>)
    requires ValidSlots(env, slots)
    requires forall i :: 0 <= i < |sp.openings| ==> SlotPreimage(env.falcon, sp.openings[i].opening.sigSlot).Fixed?
    ensures AllLeafElems(env.sum, SlotBatch(env, sp), OpenedSlotInputs(env, sp))
    ensures AllLeaves(env.sum, SlotDigests(env, slots), SlotLeafInputs(env, slots))
  {
    hide SlotPreimage, ValidSlot;
    forall slot: SigSlot | SlotPreimage(env.falcon, slot).Fixed?
      ensures !IsNodeInput(SlotPreimage(env.falcon, slot).bytes)
    {
      LeavesAreNoNodes(env.falcon, NO_PARTICIPANT, 0, [], slot);
    }
    forall i | 0 <= i < |sp.openings|
      ensures LeafFrom(env.sum, SlotDigest(env, sp.openings[i].opening.sigSlot), OpenedSlotInputs(env, sp))
    {
      assert SlotPreimage(env.falcon, sp.openings[i].opening.sigSlot).bytes in OpenedSlotInputs(env, sp);
    }
    forall i | 0 <= i < |slots|
      ensures LeafFrom(env.sum, SlotDigest(env, slots[i]), SlotLeafInputs(env, slots))
    {
      assert SlotPreimage(env.falcon, slots[i]).bytes in SlotLeafInputs(env, slots);
    }
  }

  /** Every opened slot of an accepted proof has a leaf input. */
  lemma AcceptedSlotsFixed(env: Env, sp: StateProof, msg: Message, anchor: TrustAnchor)
    requires env.Valid() && Accepts(env, sp, msg, anchor)
    ensures forall i :: 0 <= i < |sp.openings| ==> SlotPreimage(env.falcon, sp.openings[i].opening.sigSlot).Fixed?
  {
    hide VcBatchAccepts, CoinStream, MessageHash, CoinCovered, StrongEnough, SlotPreimage;
    forall i | 0 <= i < |sp.openings|
      ensures SlotPreimage(env.falcon, sp.openings[i].opening.sigSlot).Fixed?
    {
      assert OpeningPasses(env, sp.saltVersion, sp.openings[i], msg.lastRound, MessageHash(env, msg));
    }
  }

  /**
   The signature side: if the proof's own commitment was made over a vector of slots, the proof declares the depth
   of its tree and the last opening of every slot is the one committed there, range start and signature included.
   */
  lemma LastPinned(env: Env, sp: StateProof, msg: Message, anchor: TrustAnchor, slots: seq<SigSlot>)
    requires env.Valid() && Accepts(env, sp, msg, anchor)
    requires CommitsToSlots(env, sp, slots)
    ensures forall i :: 0 <= i < |sp.openings| ==> SlotPreimage(env.falcon, sp.openings[i].opening.sigSlot).Fixed?
    ensures || (&& sp.sigProofs.treeDepth == CeilLog2(|slots|)
                && forall i: nat :: LastOpening(sp.openings, sp.sigProofs.treeDepth, i) ==>
                     Pinned(env, sp.openings[i], slots, sp.sigProofs.treeDepth))
            || env.sum.CollisionBetween(SlotSidePreimages(env, sp), SlotsPreimages(env, slots))
  {
    hide VcBatchPreimages, VcPreimages, VcBatchAccepts, VcRoot, VcBatchPath, ValidSlot, CoinStream, MessageHash, Pinned;
    hide SlotOf, LastOpening, CoinCovered, StrongEnough, SlotPreimage, OpeningPasses, LastOpensCommitted;
    hide AllLeaves, AllLeafElems;
    var digests, batch, d := SlotDigests(env, slots), SlotBatch(env, sp), sp.sigProofs.treeDepth;
    AcceptedSlotsFixed(env, sp, msg, anchor);
    AcceptedHasOpenings(env, sp, msg, anchor);
    DigestsSized(env, sp, slots);
    SlotInputs(env, sp, slots);
    VcBatchBindingAnyDepth(env.sum, digests, batch, d, sp.sigProofs.path,
                           OpenedSlotInputs(env, sp), SlotLeafInputs(env, slots));
    if !env.sum.CollisionBetween(SlotSidePreimages(env, sp), SlotsPreimages(env, slots)) {
      CommittedIsPinned(env, sp, slots);
    }
  }

  lemma CommittedIsPinned(env: Env, sp: StateProof, slots: seq<SigSlot>)
    requires env.Valid() && ValidSlots(env, slots)
    requires forall i :: 0 <= i < |sp.openings| ==>
               && ValidSlot(sp.openings[i].opening.sigSlot)
               && SlotPreimage(env.falcon, sp.openings[i].opening.sigSlot).Fixed?
    requires LastOpensCommitted(env.sum, SlotDigests(env, slots), sp.sigProofs.treeDepth, SlotBatch(env, sp))
    requires !env.sum.CollisionBetween(SlotSidePreimages(env, sp), SlotsPreimages(env, slots))
    ensures forall i: nat :: LastOpening(sp.openings, sp.sigProofs.treeDepth, i) ==>
              Pinned(env, sp.openings[i], slots, sp.sigProofs.treeDepth)
  {
    hide SlotOf, LastInSlot, LastOpensCommitted, SlotSidePreimages, SlotsPreimages, SlotPreimage, ValidSlot, Pinned;
    var digests, batch, d := SlotDigests(env, slots), SlotBatch(env, sp), sp.sigProofs.treeDepth;
    forall i: nat | LastOpening(sp.openings, d, i)
      ensures Pinned(env, sp.openings[i], slots, d)
    {
      BatchLast(env, sp, d, i);
      LastCommitted(env.sum, digests, d, batch, i);
      SlotBinding(env, sp, slots, i);
    }
  }

  lemma DigestsSized(env: Env, sp: StateProof, slots: seq<SigSlot>)
    requires env.Valid() && ValidSlots(env, slots)
    requires forall i :: 0 <= i < |sp.openings| ==> SlotPreimage(env.falcon, sp.openings[i].opening.sigSlot).Fixed?
    ensures env.sum.Sized(SlotDigests(env, slots)) && SizedLevel(env.sum, SlotBatch(env, sp))
  {
    hide SlotPreimage, ValidSlot;
  }

  // ---------------------------------------------------------------- the seed of the coins

  ghost predicate WellSized(sp: StateProof, msg: Message, anchor: TrustAnchor) {
    |sp.sigCommitment| == |anchor.partCommitment| == SUMHASH_SIZE && RoundTrip.ValidMessage(msg)
  }

  function MessagePreimage(msg: Message): seq<Byte> {
    DOMAIN_SP_MSG_HASH + RoundTrip.EncodeMessage(msg)
  }

  /**
   Coins are drawn from one seed only for one choice of everything they must depend on: the trusted anchor,
   the signature commitment, the signed weight and the message, unless two message hash inputs collide.
   */
  lemma CoinSeedBinding(
    env: Env, sp: StateProof, msg: Message, anchor: TrustAnchor, sp': StateProof, msg': Message, anchor': TrustAnchor)
    requires env.Valid() && WellSized(sp, msg, anchor) && WellSized(sp', msg', anchor')
    requires SeedBytes(CoinSeed(env, sp, msg, anchor)) == SeedBytes(CoinSeed(env, sp', msg', anchor'))
    ensures anchor == anchor' && sp.sigCommitment == sp'.sigCommitment && sp.signedWeight == sp'.signedWeight
    ensures msg == msg' || env.sha.Collide(MessagePreimage(msg), MessagePreimage(msg'))
  {
    hide SeedBytes;
    SeedBytesInjective(CoinSeed(env, sp, msg, anchor), CoinSeed(env, sp', msg', anchor'));
    hide RoundTrip.EncodeMessage;
    if MessagePreimage(msg) == MessagePreimage(msg') {
      ConcatInjective(DOMAIN_SP_MSG_HASH, RoundTrip.EncodeMessage(msg),
                      DOMAIN_SP_MSG_HASH, RoundTrip.EncodeMessage(msg'));
      RoundTrip.MessageEncodingInjective(msg, msg');
    }
  }

  // ---------------------------------------------------------------- chains

  datatype Interval = Interval(sp: StateProof, msg: Message)

  /** Each interval is verified against the anchor that the previous call returned. */
  ghost predicate Run(env: Env, steps: seq<Interval>, anchors: seq<TrustAnchor>)
    requires env.Valid()
  {
    && |anchors| == |steps| + 1
    && forall i :: 0 <= i < |steps| ==>
         Verify(env, steps[i].sp, steps[i].msg, anchors[i]) == Accept(anchors[i + 1])
  }

  /** The anchor of every step commits to the roster given for it. */
  ghost predicate Rosters(env: Env, steps: seq<Interval>, anchors: seq<TrustAnchor>, rosters: seq<seq<Participant>>)
    requires |anchors| == |steps| + 1
  {
    && |rosters| == |steps|
    && forall i :: 0 <= i < |steps| ==>
         CommitsTo(env, anchors[i].partCommitment, rosters[i]) && env.sum.Sized(steps[i].sp.partProofs.path)
  }

  ghost predicate StepCollides(env: Env, step: Interval, roster: seq<Participant>) {
    && ValidRoster(roster)
    && env.sum.CollisionBetween(ParticipantSidePreimages(env, step.sp), RosterPreimages(env, roster))
  }

  /** The anchor trusts the message's commitment to the next participants, and its threshold. */
  ghost predicate HandedOn(msg: Message, anchor: TrustAnchor) {
    anchor.partCommitment == msg.voters && anchor.lnProvenWeight == msg.lnProvenWeight
  }

  /** The signed weight beats this threshold, by enough for the number of coins drawn: 256 bits, in fixed point. */
  ghost predicate Outweighs(env: Env, sp: StateProof, lnProvenWeight: U64) {
    match env.ln(sp.signedWeight)
    case None => false
    case Some(ln) => ln > lnProvenWeight && |sp.positions| * (ln - lnProvenWeight) >= 256 * 45427
  }

  lemma StrongOutweighs(env: Env, sp: StateProof, msg: Message, anchor: TrustAnchor)
    requires env.Valid() && Accepts(env, sp, msg, anchor)
    ensures Outweighs(env, sp, anchor.lnProvenWeight)
  {
    hide VcBatchAccepts, OpeningPasses, CoinStream, MessageHash, CoinCovered, DistinctPositions;
    hide ParticipantBatch, SlotBatch;
  }

  /**
   Soundness of every run of chained verifications: from the second step on the trusted commitment and
   threshold are those in the message accepted just before, and at every step the accepted proof
   establishes what it should about the roster behind that commitment, or exposes a collision.
   */
  lemma ChainSoundness(env: Env, steps: seq<Interval>, anchors: seq<TrustAnchor>, rosters: seq<seq<Participant>>)
    requires env.Valid() && Run(env, steps, anchors) && Rosters(env, steps, anchors, rosters)
    ensures forall i :: 0 < i <= |steps| ==> HandedOn(steps[i - 1].msg, anchors[i])
    ensures forall i :: 0 < i < |steps| ==>
              && CommitsTo(env, steps[i - 1].msg.voters, rosters[i])
              && Outweighs(env, steps[i].sp, steps[i - 1].msg.lnProvenWeight)
    ensures forall i :: 0 <= i < |steps| ==>
              || Established(env, steps[i].sp, steps[i].msg, anchors[i], rosters[i])
              || StepCollides(env, steps[i], rosters[i])
  {
    hide Verify, Established, CommitsTo, Outweighs;
    forall i | 0 < i <= |steps|
      ensures HandedOn(steps[i - 1].msg, anchors[i])
    {
      assert Verify(env, steps[i - 1].sp, steps[i - 1].msg, anchors[i - 1]) == Accept(anchors[i - 1 + 1]);
      VerifyIff(env, steps[i - 1].sp, steps[i - 1].msg, anchors[i - 1]);
    }
    forall i | 0 < i < |steps|
      ensures CommitsTo(env, steps[i - 1].msg.voters, rosters[i])
      ensures Outweighs(env, steps[i].sp, steps[i - 1].msg.lnProvenWeight)
    {
      assert Verify(env, steps[i].sp, steps[i].msg, anchors[i]) == Accept(anchors[i + 1]);
      LaterStep(env, steps[i], anchors[i], anchors[i + 1], rosters[i], steps[i - 1].msg);
    }
    forall i | 0 <= i < |steps|
      ensures || Established(env, steps[i].sp, steps[i].msg, anchors[i], rosters[i])
              || StepCollides(env, steps[i], rosters[i])
    {
      RosterValid(env, anchors[i].partCommitment, rosters[i]);
      assert Verify(env, steps[i].sp, steps[i].msg, anchors[i]) == Accept(anchors[i + 1]);
      StepSoundness(env, steps[i].sp, steps[i].msg, anchors[i], rosters[i]);
    }
  }

  /** The roster of a later step is the one behind the commitment that the message before it carried. */
  lemma LaterStep(
    env: Env, step: Interval, anchor: TrustAnchor, next: TrustAnchor, roster: seq<Participant>, before: Message)
    requires env.Valid() && Verify(env, step.sp, step.msg, anchor) == Accept(next) && HandedOn(before, anchor)
    requires CommitsTo(env, anchor.partCommitment, roster)
    ensures CommitsTo(env, before.voters, roster)
    ensures Outweighs(env, step.sp, before.lnProvenWeight)
  {
    hide Verify, Accepts, VcRoot;
    VerifyIff(env, step.sp, step.msg, anchor);
    StrongOutweighs(env, step.sp, step.msg, anchor);
  }

  lemma RosterValid(env: Env, commitment: Digest, roster: seq<Participant>)
    requires CommitsTo(env, commitment, roster)
    ensures ValidRoster(roster)
  {
  }
}
