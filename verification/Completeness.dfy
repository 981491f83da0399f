/** An honestly assembled state proof is accepted. */
module Completeness {
  import opened Bytes
  import opened Bits
  import opened Hashing
  import opened MerkleTree
  import opened VcTree
  import opened VcBatch
  import opened Types
  import opened Coin
  import opened Leaves
  import opened Verifier
  import opened Soundness
  import opened VcOpening
  import opened KeyTree

  // ---------------------------------------------------------------- weight ranges

  /** The weight that a member contributes: nothing unless its slot is signed. */
  function SignedWeightOf(slot: SigSlot, member: Participant): nat {
    if slot.IsEmpty() then 0 else member.weight
  }

  /** The signed weight in front of member `i`. */
  function WeightBefore(slots: seq<SigSlot>, roster: seq<Participant>, i: nat): nat
    requires i <= |slots| == |roster|
  {
    if i == 0 then 0 else WeightBefore(slots, roster, i - 1) + SignedWeightOf(slots[i - 1], roster[i - 1])
  }

  /** Every signed slot starts where the signed weight in front of it ends. */
  ghost predicate Numbered(slots: seq<SigSlot>, roster: seq<Participant>) {
    && |slots| == |roster|
    && forall i :: 0 <= i < |slots| ==> !slots[i].IsEmpty() ==> slots[i].l == WeightBefore(slots, roster, i)
  }

  /** Member `i` signed and the coin falls into its range. */
  ghost predicate Holds(slots: seq<SigSlot>, roster: seq<Participant>, i: nat, coin: nat) {
    && i < |slots| == |roster|
    && !slots[i].IsEmpty() && slots[i].l <= coin < slots[i].l + roster[i].weight
  }

  lemma {:induction false} WeightMonotone(slots: seq<SigSlot>, roster: seq<Participant>, i: nat, j: nat)
    requires i <= j <= |slots| == |roster|
    ensures WeightBefore(slots, roster, i) <= WeightBefore(slots, roster, j)
    decreases j
  {
    if i < j { WeightMonotone(slots, roster, i, j - 1); }
  }

  lemma {:induction false} SomeoneHolds(slots: seq<SigSlot>, roster: seq<Participant>, n: nat, coin: nat)
    requires Numbered(slots, roster) && n <= |slots| && coin < WeightBefore(slots, roster, n)
    ensures exists i :: 0 <= i < n && Holds(slots, roster, i, coin)
  {
    if coin < WeightBefore(slots, roster, n - 1) {
      SomeoneHolds(slots, roster, n - 1, coin);
    } else {
      assert Holds(slots, roster, n - 1, coin);
    }
  }

  lemma RangeEnds(slots: seq<SigSlot>, roster: seq<Participant>, i: nat)
    requires Numbered(slots, roster) && i < |slots| && !slots[i].IsEmpty()
    ensures slots[i].l + roster[i].weight == WeightBefore(slots, roster, i + 1)
  {
  }

  lemma OneHolder(slots: seq<SigSlot>, roster: seq<Participant>, i: nat, j: nat, coin: nat)
    requires Numbered(slots, roster) && Holds(slots, roster, i, coin) && Holds(slots, roster, j, coin)
    ensures i == j
  {
    hide WeightBefore;
    RangeEnds(slots, roster, i);
    RangeEnds(slots, roster, j);
    if i < j { WeightMonotone(slots, roster, i + 1, j); }
    if j < i { WeightMonotone(slots, roster, j + 1, i); }
  }

  /**
   The ranges of the signed slots partition the coins below the total signed weight: a coin is below the
   total exactly if a member holds it, no two members hold one coin, and no range ends past the total.
   */
  lemma RangesPartition(slots: seq<SigSlot>, roster: seq<Participant>, coin: nat)
    requires Numbered(slots, roster)
    ensures coin < WeightBefore(slots, roster, |slots|)
       <==> exists i :: 0 <= i < |slots| && Holds(slots, roster, i, coin)
    ensures forall i, j :: Holds(slots, roster, i, coin) && Holds(slots, roster, j, coin) ==> i == j
    ensures forall i :: 0 <= i < |slots| && !slots[i].IsEmpty() ==>
              slots[i].l + roster[i].weight <= WeightBefore(slots, roster, |slots|)
  {
    hide WeightBefore;
    if coin < WeightBefore(slots, roster, |slots|) { SomeoneHolds(slots, roster, |slots|, coin); }
    forall i | 0 <= i < |slots| && !slots[i].IsEmpty()
      ensures slots[i].l + roster[i].weight <= WeightBefore(slots, roster, |slots|)
    {
      RangeEnds(slots, roster, i);
      WeightMonotone(slots, roster, i + 1, |slots|);
    }
    forall i: nat, j: nat | Holds(slots, roster, i, coin) && Holds(slots, roster, j, coin)
      ensures i == j
    {
      OneHolder(slots, roster, i, j, coin);
    }
  }

  // ---------------------------------------------------------------- the honest proof

  /** What the committee prepared: the members, and a signature slot for each. */
  datatype Committee = Committee(roster: seq<Participant>, slots: seq<SigSlot>) {
    ghost predicate Valid() {
      && ValidRoster(roster) && Numbered(slots, roster)
      && CeilLog2(|roster|) <= SP_VC_MAX_DEPTH
    }

    function Depth(): nat
      requires roster != []
    {
      CeilLog2(|roster|)
    }
  }

  /** Every opening is the committee's entry at its position, and no position is opened twice. */
  ghost predicate OpensCommittee(c: Committee, openings: seq<RevealAt>) {
    && DistinctPositions(openings)
    && forall k :: 0 <= k < |openings| ==>
         && openings[k].position < |c.roster| == |c.slots|
         && openings[k].opening == Reveal(c.slots[openings[k].position], c.roster[openings[k].position])
  }

  /** Both commitments are the roots over the committee, and both paths list the absent siblings. */
  ghost predicate CommittedTrees(env: Env, c: Committee, sp: StateProof, anchor: TrustAnchor)
    requires c.Valid()
  {
    && anchor.partCommitment == VcRoot(env.sum, RosterDigests(env, c.roster))
    && sp.sigCommitment == VcRoot(env.sum, SlotDigests(env, c.slots))
    && sp.partProofs == Proof(c.Depth(), VcBatchPath(env.sum, RosterDigests(env, c.roster), ParticipantBatch(env, sp)))
    && sp.sigProofs == Proof(c.Depth(), VcBatchPath(env.sum, SlotDigests(env, c.slots), SlotBatch(env, sp)))
  }

  /** Each coin is answered by an opened member that holds it. */
  ghost predicate AnswersCoins(env: Env, c: Committee, sp: StateProof, msg: Message, anchor: TrustAnchor)
    requires env.Valid() && c.Valid()
  {
    && sp.signedWeight == WeightBefore(c.slots, c.roster, |c.slots|) > 0
    && forall i :: 0 <= i < |sp.positions| ==>
         && Yields(CoinStream(env, sp, msg, anchor), sp.signedWeight, i)
         && Holds(c.slots, c.roster, sp.positions[i], CoinAt(CoinStream(env, sp, msg, anchor), sp.signedWeight, i))
         && exists k :: 0 <= k < |sp.openings| && sp.openings[k].position == sp.positions[i]
  }

  /** Every opened signature is by a committed key, over this message, with the declared salt version. */
  ghost predicate SignaturesHold(env: Env, sp: StateProof, msg: Message) {
    forall k :: 0 <= k < |sp.openings| && !sp.openings[k].opening.sigSlot.IsEmpty() ==>
      OpeningPasses(env, sp.saltVersion, sp.openings[k], msg.lastRound, MessageHash(env, msg))
  }

  /** Everything about an honest proof but its signatures. */
  ghost predicate Assembled(env: Env, c: Committee, sp: StateProof, msg: Message, anchor: TrustAnchor)
    requires env.Valid()
  {
    && c.Valid()
    && CommittedTrees(env, c, sp, anchor)
    && OpensCommittee(c, sp.openings)
    && AnswersCoins(env, c, sp, msg, anchor)
    && StrongEnough(env, sp, anchor)
  }

  // ---------------------------------------------------------------- it is accepted

  /** Positions of the committee are slots of the tree, so the batches open committed values. */
  lemma BatchesOpenCommitted(env: Env, c: Committee, sp: StateProof)
    requires env.Valid() && c.Valid() && OpensCommittee(c, sp.openings)
    ensures LastOpensCommitted(env.sum, SlotDigests(env, c.slots), c.Depth(), SlotBatch(env, sp))
    ensures LastOpensCommitted(env.sum, RosterDigests(env, c.roster), c.Depth(), ParticipantBatch(env, sp))
  {
    hide SlotDigest, ParticipantLeaf, Pow2, Addressable, SlotOf;
    forall k | 0 <= k < |sp.openings|
      ensures SlotOf(sp.openings[k].position, c.Depth()) == sp.openings[k].position
    {
      SlotBelowCapacity(sp.openings[k].position, c.Depth());
    }
  }

  lemma TreesAccept(env: Env, c: Committee, sp: StateProof, anchor: TrustAnchor)
    requires env.Valid() && c.Valid() && OpensCommittee(c, sp.openings) && CommittedTrees(env, c, sp, anchor)
    requires sp.openings != []
    ensures VcBatchAccepts(env.sum, SlotBatch(env, sp), c.Depth(), sp.sigProofs.path, sp.sigCommitment)
    ensures VcBatchAccepts(env.sum, ParticipantBatch(env, sp), c.Depth(), sp.partProofs.path, anchor.partCommitment)
  {
    hide VcBatchAccepts, VcRoot, VcBatchPath, LastOpensCommitted;
    BatchesOpenCommitted(env, c, sp);
    VcBatchCompleteness(env.sum, SlotDigests(env, c.slots), SlotBatch(env, sp));
    VcBatchCompleteness(env.sum, RosterDigests(env, c.roster), ParticipantBatch(env, sp));
  }

  lemma CoinIsCovered(env: Env, c: Committee, sp: StateProof, msg: Message, anchor: TrustAnchor, i: nat)
    requires env.Valid() && c.Valid() && OpensCommittee(c, sp.openings)
    requires AnswersCoins(env, c, sp, msg, anchor) && i < |sp.positions|
    ensures CoinCovered(sp.openings, sp.positions, CoinStream(env, sp, msg, anchor), sp.signedWeight, i)
  {
    hide CoinStream, ValidRoster, Yields;
    var coin := CoinAt(CoinStream(env, sp, msg, anchor), sp.signedWeight, i);
    var k :| 0 <= k < |sp.openings| && sp.openings[k].position == sp.positions[i];
    RangesPartition(c.slots, c.roster, coin);
    assert InRange(sp.openings[k].opening, coin);
  }

  lemma AssembledHasOpenings(env: Env, c: Committee, sp: StateProof, msg: Message, anchor: TrustAnchor)
    requires env.Valid() && Assembled(env, c, sp, msg, anchor)
    ensures sp.openings != [] && sp.signedWeight > 0
  {
    hide CommittedTrees, CoinStream, Holds, Yields;
    StrongNeedsPositions(env, sp, anchor);
    assert exists k :: 0 <= k < |sp.openings| && sp.openings[k].position == sp.positions[0];
    var k :| 0 <= k < |sp.openings| && sp.openings[k].position == sp.positions[0];
  }

  /**
   Completeness: a proof assembled as described is accepted and hands on the anchor of its message. The
   weight ranges leave every coin exactly one holder and no range overflows 64 bits.
   */
  lemma AssembledProofAccepted(env: Env, c: Committee, sp: StateProof, msg: Message, anchor: TrustAnchor)
    requires env.Valid() && Assembled(env, c, sp, msg, anchor) && SignaturesHold(env, sp, msg)
    ensures Verify(env, sp, msg, anchor) == Accept(NextAnchor(msg))
  {
    hide VcBatchAccepts, CommittedTrees, AnswersCoins, OpeningPasses, CoinCovered, CoinStream, MessageHash, Verify;
    hide StrongEnough, DistinctPositions, SlotBatch, ParticipantBatch, ValidRoster, Numbered;
    AssembledHasOpenings(env, c, sp, msg, anchor);
    TreesAccept(env, c, sp, anchor);
    DeclaredDepth(env, c, sp, anchor);
    forall i | 0 <= i < |sp.positions|
      ensures CoinCovered(sp.openings, sp.positions, CoinStream(env, sp, msg, anchor), sp.signedWeight, i)
    {
      CoinIsCovered(env, c, sp, msg, anchor, i);
    }
    forall k | 0 <= k < |sp.openings|
      ensures OpeningPasses(env, sp.saltVersion, sp.openings[k], msg.lastRound, MessageHash(env, msg))
    {
      if sp.openings[k].opening.sigSlot.IsEmpty() {
        EmptySlotPasses(env, sp.saltVersion, sp.openings[k], msg.lastRound, MessageHash(env, msg));
      }
    }
    VerifyIff(env, sp, msg, anchor);
  }

  lemma DeclaredDepth(env: Env, c: Committee, sp: StateProof, anchor: TrustAnchor)
    requires env.Valid() && c.Valid() && CommittedTrees(env, c, sp, anchor)
    ensures sp.sigProofs.treeDepth == sp.partProofs.treeDepth == c.Depth() <= SP_VC_MAX_DEPTH
  {
  }

  lemma EmptySlotPasses(env: Env, saltVersion: Byte, o: RevealAt, round: U64, hash: Digest)
    requires o.opening.sigSlot.IsEmpty()
    ensures OpeningPasses(env, saltVersion, o, round, hash)
  {
  }

  // ---------------------------------------------------------------- honest keys

  /** The member committed to these keys, and its signature opens the one in use at this round. */
  ghost predicate HonestKey(env: Env, o: RevealAt, keys: seq<RegisteredKey>, round: U64) {
    var mss, v := o.opening.sigSlot.mss, o.opening.participant.pk;
    && mss.vcIndex < |keys| && CeilLog2(|keys|) <= MSS_VC_MAX_DEPTH
    && CommitsToLeaves(env.sum, v.commitment, RegisteredPreimages(keys))
    && keys[mss.vcIndex] == RegisteredKey(KeyEpochStart(v, round), mss.verifyingKey)
    && OwnProof(env.sum, mss.vcIndex, mss.proof, RegisteredPreimages(keys))
  }

  /** The signature library vouches for the signature, in the declared salt version. */
  ghost predicate HonestSignature(env: Env, saltVersion: Byte, mss: MerkleSignature, hash: Digest) {
    && env.falcon.saltVersion(mss.signature) == saltVersion && env.falcon.toCt(mss.signature).Some?
    && env.falcon.verifies(mss.verifyingKey, mss.signature, hash)
  }

  /** The key proof that a member's own key tree yields passes, and its fixed form has room for it. */
  lemma HonestSignatureHolds(
    env: Env, saltVersion: Byte, o: RevealAt, keys: seq<RegisteredKey>, round: U64, hash: Digest)
    requires env.Valid() && HonestKey(env, o, keys, round) && !o.opening.sigSlot.IsEmpty()
    requires HonestSignature(env, saltVersion, o.opening.sigSlot.mss, hash)
    ensures OpeningPasses(env, saltVersion, o, round, hash)
  {
    hide KeyPreimage, SlotPrefix, PathArea, VcRoot, Climb, VcIndex, CeilLog2, Pow2, VcPath, SlotOf, Addressable;
    var mss := o.opening.sigSlot.mss;
    SlotBelowCapacity(mss.vcIndex, mss.proof.treeDepth);
    OwnProofLeads(env.sum, RegisteredPreimages(keys), mss.vcIndex, mss.proof);
    VcPathLength(env.sum, LeafDigests(env.sum, RegisteredPreimages(keys)), mss.vcIndex);
  }

  /** Paths in the commitment to this many leaves have one entry per bit. */
  lemma VcPathLength(h: HashFn, leaves: seq<Digest>, i: nat)
    requires Addressable(leaves) && leaves != []
    ensures |VcPath(h, leaves, i)| == CeilLog2(|leaves|)
  {
    var d := CeilLog2(|leaves|);
    DepthInRange(leaves);
    PerfectLevels(h, LeafLevel(h, leaves, d), BottomLeaf(h), d, 0);
  }

  /** Every signed slot that is opened was signed by its member with a registered key. */
  ghost predicate SignedHonestly(env: Env, sp: StateProof, msg: Message, keys: seq<seq<RegisteredKey>>) {
    && |keys| == |sp.openings|
    && forall k :: 0 <= k < |sp.openings| && !sp.openings[k].opening.sigSlot.IsEmpty() ==>
         && HonestKey(env, sp.openings[k], keys[k], msg.lastRound)
         && HonestSignature(env, sp.saltVersion, sp.openings[k].opening.sigSlot.mss, MessageHash(env, msg))
  }

  /** An honest proof: assembled as described and signed with registered keys. It is accepted. */
  lemma HonestProofAccepted(
    env: Env, c: Committee, sp: StateProof, msg: Message, anchor: TrustAnchor, keys: seq<seq<RegisteredKey>>)
    requires env.Valid() && Assembled(env, c, sp, msg, anchor) && SignedHonestly(env, sp, msg, keys)
    ensures Verify(env, sp, msg, anchor) == Accept(NextAnchor(msg))
  {
    hide Assembled, OpeningPasses, HonestKey, HonestSignature, MessageHash, Verify;
    forall k | 0 <= k < |sp.openings| && !sp.openings[k].opening.sigSlot.IsEmpty()
      ensures OpeningPasses(env, sp.saltVersion, sp.openings[k], msg.lastRound, MessageHash(env, msg))
    {
      HonestSignatureHolds(env, sp.saltVersion, sp.openings[k], keys[k], msg.lastRound, MessageHash(env, msg));
    }
    AssembledProofAccepted(env, c, sp, msg, anchor);
  }
}
