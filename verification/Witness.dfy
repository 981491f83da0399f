/** The hypotheses of soundness and completeness can be met together: a smallest honest committee. */
module Witness {
  import opened Bytes
  import opened Bits
  import opened Hashing
  import opened MerkleTree
  import opened VcTree
  import opened VcBatch
  import opened OrderedMap
  import opened BatchProof
  import opened Types
  import opened Coin
  import opened Leaves
  import opened Verifier
  import opened KeyTree
  import opened Outcomes
  import opened Soundness
  import opened Signers
  import opened Completeness
  import SumhashCore

  /** Any two hash functions in any build, a stream that offers every coin zero, signatures that always verify. */
  function EasyEnv(sum: HashFn, sha: HashFn, build: Build): Env {
    Env(sum, sha, _ => EasyStream, EasyFalcon(), EasyLogarithm, build)
  }

  function EasyLogarithm(x: U64): Option<U64> {
    if x == 0 then None else Some(STRENGTH_TARGET * LN2_FIXED_POINT)
  }

  function EasyStream(at: nat): Byte { 0 }

  function EasyFalcon(): Falcon {
    Falcon(_ => true, _ => true, 0, _ => 0, _ => Some(Zeros(CT_SIG_SIZE)), (key, sig, msg) => true)
  }

  function EasySignature(): MerkleSignature {
    MerkleSignature([0, 0, 0], 0, NO_PROOF, Zeros(PUBKEY_SIZE))
  }

  /** One member of weight one, whose only key is the leaf and root of its key tree. */
  ghost function Member(env: Env, msg: Message): Participant {
    Participant(MerkleVerifier(env.sum.digest(KeyPreimage(msg.lastRound, Zeros(PUBKEY_SIZE))), 0), 1)
  }

  ghost function Alone(env: Env, msg: Message): Committee {
    Committee([Member(env, msg)], [SigSlot(EasySignature(), 0)])
  }

  /** The member's opening, drawn once. */
  ghost function Draft(env: Env, msg: Message): StateProof {
    var c := Alone(env, msg);
    StateProof([], 1, NO_PROOF, NO_PROOF, 0, [RevealAt(0, Reveal(c.slots[0], c.roster[0]))], [0])
  }

  lemma AloneIsValid(env: Env, msg: Message)
    requires env.Valid()
    ensures Alone(env, msg).Valid() && Alone(env, msg).Depth() == 0
  {
    hide KeyPreimage, CeilLog2;
    assert CeilLog2(1) == 0 by { CeilLog2Unique(1, 0); }
    assert Alone(env, msg).roster[0] == Member(env, msg);
  }

  ghost function AnchorFor(env: Env, msg: Message): TrustAnchor
    requires env.Valid()
  {
    AloneIsValid(env, msg);
    TrustAnchor(VcRoot(env.sum, RosterDigests(env, Alone(env, msg).roster)), 0)
  }

  ghost function ProofFor(env: Env, msg: Message): StateProof
    requires env.Valid()
  {
    AloneIsValid(env, msg);
    var c, draft := Alone(env, msg), Draft(env, msg);
    draft.(sigCommitment := VcRoot(env.sum, SlotDigests(env, c.slots)),
           partProofs := Proof(0, VcBatchPath(env.sum, RosterDigests(env, c.roster), ParticipantBatch(env, draft))),
           sigProofs := Proof(0, VcBatchPath(env.sum, SlotDigests(env, c.slots), SlotBatch(env, draft))))
  }

  /** Every word of the stream is the coin zero. */
  lemma EasyCoins(weight: U64, i: nat)
    requires weight > 0
    ensures Yields(EasyStream, weight, i) && CoinAt(EasyStream, weight, i) == 0
  {
    hide Sample;
    AllAccepted(weight, i);
    assert IsCoin(EasyStream, weight, i, i);
    WordsAreZero(CoinPosition(EasyStream, weight, i));
  }

  lemma {:induction false} AllAccepted(weight: U64, q: nat)
    requires weight > 0
    ensures Accepted(EasyStream, weight, q) && CountAccepted(EasyStream, weight, q) == q
  {
    hide Sample;
    MostSamplesAccepted(weight);
    WordsAreZero(q);
    if q > 0 { AllAccepted(weight, q - 1); }
  }

  lemma WordsAreZero(k: nat)
    ensures Sample(EasyStream, k) == 0
  {
    var s := SumhashCore.Slice(EasyStream, 8 * k, 8);
    AllZero(s);
  }

  lemma {:induction false} AllZero(s: seq<Byte>)
    requires forall i :: 0 <= i < |s| ==> s[i] == 0
    ensures FromLE(s) == 0
  {
    if s != [] { AllZero(s[1..]); }
  }

  /** The member's one key, usable in every round. */
  function OnlyKey(msg: Message): seq<RegisteredKey> {
    [RegisteredKey(msg.lastRound, Zeros(PUBKEY_SIZE))]
  }

  lemma OneLeaf(h: HashFn, leaf: Digest)
    ensures CeilLog2(1) == 0 && VcRoot(h, [leaf]) == leaf && VcPath(h, [leaf], 0) == []
  {
    CeilLog2Unique(1, 0);
    assert LeafLevel(h, [leaf], 0) == [leaf];
  }

  lemma SignedWithOnlyKey(env: Env, msg: Message)
    requires env.Valid() && env == EasyEnv(env.sum, env.sha, env.build)
    ensures SignedHonestly(env, ProofFor(env, msg), msg, [OnlyKey(msg)])
  {
    hide KeyPreimage, VcBatchPath, VcRoot, VcPath, CeilLog2, MessageHash;
    var preimages := RegisteredPreimages(OnlyKey(msg));
    var leaf := env.sum.digest(KeyPreimage(msg.lastRound, Zeros(PUBKEY_SIZE)));
    assert LeafDigests(env.sum, preimages) == [leaf];
    OneLeaf(env.sum, leaf);
  }

  lemma OnlyHolder(env: Env, msg: Message)
    ensures var c := Alone(env, msg); WeightBefore(c.slots, c.roster, |c.slots|) == 1 && Holds(c.slots, c.roster, 0, 0)
  {
    hide KeyPreimage;
    var c := Alone(env, msg);
    assert WeightBefore(c.slots, c.roster, 1)
        == WeightBefore(c.slots, c.roster, 0) + SignedWeightOf(c.slots[0], c.roster[0]);
  }

  lemma KeysAreBehind(env: Env, msg: Message)
    requires env.Valid() && SignedHonestly(env, ProofFor(env, msg), msg, [OnlyKey(msg)])
    ensures KeysOfRoster(env, ProofFor(env, msg), Alone(env, msg).roster, [OnlyKey(msg)])
  {
    hide KeyPreimage, VcBatchPath, VcRoot, VcPath, CeilLog2, SlotOf, MessageHash, Addressable;
    var sp := ProofFor(env, msg);
    assert sp.openings[0].opening.participant == Alone(env, msg).roster[0];
    VcPathLength(env.sum, LeafDigests(env.sum, RegisteredPreimages(OnlyKey(msg))), 0);
  }

  lemma SlotsAreBehind(env: Env, msg: Message)
    requires env.Valid() && env == EasyEnv(env.sum, env.sha, env.build)
    ensures CommitsToSlots(env, ProofFor(env, msg), Alone(env, msg).slots)
  {
    hide KeyPreimage, VcBatchPath, VcRoot, CeilLog2, SlotPrefix, PathArea, LE;
    var c, sp := Alone(env, msg), ProofFor(env, msg);
    EasySlotValid(env, c.slots[0]);
    hide SlotPreimage, ValidSlot;
    VcBatchPathSized(env.sum, SlotDigests(env, c.slots), SlotBatch(env, Draft(env, msg)));
    assert sp.openings[0].opening.sigSlot == c.slots[0];
  }

  lemma EasySlotValid(env: Env, slot: SigSlot)
    requires env.Valid() && env.falcon == EasyFalcon() && slot.mss == EasySignature()
    ensures ValidSlot(slot) && SlotPreimage(env.falcon, slot).Fixed?
  {
    hide SlotPrefix, PathArea, LE;
  }

  /**
   For any two hash functions, collision-free or not, there is an environment in which an honest proof of
   this message exists, is accepted, and meets every hypothesis of the soundness theorems.
   */
  lemma HypothesesCanBeMet(sum: HashFn, sha: HashFn, build: Build, msg: Message)
    requires sum.Valid() && sum.size == SUMHASH_SIZE && sha.Valid() && sha.size == SHA256_SIZE
    ensures var env := EasyEnv(sum, sha, build);
            && env.Valid()
            && var sp, anchor, roster := ProofFor(env, msg), AnchorFor(env, msg), Alone(env, msg).roster;
               && Assembled(env, Alone(env, msg), sp, msg, anchor)
               && SignedHonestly(env, sp, msg, [OnlyKey(msg)])
               && Verify(env, sp, msg, anchor) == Accept(NextAnchor(msg))
               && CommitsTo(env, anchor.partCommitment, roster) && env.sum.Sized(sp.partProofs.path)
               && sp.partProofs.treeDepth == CeilLog2(|roster|) && NoAliases(sp.openings, sp.partProofs.treeDepth)
               && KeysOfRoster(env, sp, roster, [OnlyKey(msg)])
               && CommitsToSlots(env, sp, Alone(env, msg).slots)
  {
    hide KeyPreimage, VcBatchPath, VcRoot, Verify, OpeningPasses, CeilLog2, MessageHash, Sample, Threshold;
    hide Yields, VcPath;
    var env := EasyEnv(sum, sha, build);
    var c, sp, anchor := Alone(env, msg), ProofFor(env, msg), AnchorFor(env, msg);
    AloneIsValid(env, msg);
    EasyCoins(1, 0);
    SignedWithOnlyKey(env, msg);
    VcBatchPathSized(env.sum, RosterDigests(env, c.roster), ParticipantBatch(env, Draft(env, msg)));
    assert CoinStream(env, sp, msg, anchor) == EasyStream;
    assert ParticipantBatch(env, sp) == ParticipantBatch(env, Draft(env, msg));
    assert SlotBatch(env, sp) == SlotBatch(env, Draft(env, msg));
    OnlyHolder(env, msg);
    assert sp.openings[0].position == sp.positions[0];
    KeysAreBehind(env, msg);
    SlotsAreBehind(env, msg);
    hide CommitsToSlots;
    hide SignedHonestly, KeysOfRoster, StrongEnough;
    HonestProofAccepted(env, c, sp, msg, anchor, [OnlyKey(msg)]);
  }

  // ---------------------------------------------------------------- an input on which verification aborts

  /** A signature proof of depth zero whose path has one entry all the same. */
  function LongPathSignature(d: Digest): MerkleSignature {
    EasySignature().(proof := Proof(0, [d]))
  }

  /** The member's commitment is what that path leads to. */
  function LongPathMember(env: Env, msg: Message, d: Digest): Participant {
    var leaf := env.sum.digest(KeyPreimage(msg.lastRound, Zeros(PUBKEY_SIZE)));
    Participant(MerkleVerifier(Climb(env.sum, leaf, VcIndex(0, 0), [d]), 0), 1)
  }

  function LongPathProof(env: Env, msg: Message, d: Digest): StateProof {
    StateProof(Zeros(SUMHASH_SIZE), 1, NO_PROOF, NO_PROOF, 0,
               [RevealAt(0, Reveal(SigSlot(LongPathSignature(d), 0), LongPathMember(env, msg, d)))], [0])
  }

  /**
   Verification does not always return a verdict: for any hash functions, build, message and digest, a proof
   with one entry too many in the path of a valid signature runs the fixed layout out of bounds.
   */
  lemma VerifyCanAbort(sum: HashFn, sha: HashFn, build: Build, msg: Message, commitment: Digest, d: Digest)
    requires sum.Valid() && sum.size == SUMHASH_SIZE && sha.Valid() && sha.size == SHA256_SIZE
    ensures var env := EasyEnv(sum, sha, build);
            env.Valid() && Verify(env, LongPathProof(env, msg, d), msg, TrustAnchor(commitment, 0)) == Panic
  {
    hide KeyPreimage, Climb, MessageHash, Verify, VcIndex, SlotPrefix, PathArea;
    var env := EasyEnv(sum, sha, build);
    var sp, anchor := LongPathProof(env, msg, d), TrustAnchor(commitment, 0);
    var o := sp.openings[0];
    assert o.opening.sigSlot.mss == LongPathSignature(d);
    assert Aborts(env, sp, msg, o);
    OpeningAbortsIff(env, sp, msg, o);
    assert FirstBad(env, sp, msg, sp.openings, 0);
    RevealMapKeys(sp.openings);
    VerifyAbortsIff(env, sp, msg, anchor);
  }

  // ---------------------------------------------------------------- an input on which verification never ends

  function FullStream(at: nat): Byte { 255 }

  lemma {:induction false} AllFull(s: seq<Byte>)
    requires forall i :: 0 <= i < |s| ==> s[i] == 255
    ensures FromLE(s) == Pow256(|s|) - 1
  {
    if s != [] { AllFull(s[1..]); }
  }

  /** No word of this stream is acceptable for a weight of three. */
  lemma FullStreamStarves(i: nat)
    ensures !Yields(FullStream, 3, i)
  {
    hide Sample, FromLE, Pow256;
    forall q: nat
      ensures !Accepted(FullStream, 3, q)
    {
      FullWord(q);
    }
  }

  lemma FullWord(q: nat)
    ensures Sample(FullStream, q) == TWO_64 - 1
  {
    hide FromLE, Pow256;
    Pow256Values();
    AllFull(SumhashCore.Slice(FullStream, 8 * q, 8));
  }

  function StarvingEnv(sum: HashFn, sha: HashFn, build: Build): Env {
    EasyEnv(sum, sha, build).(shake := _ => FullStream)
  }

  /** A lone member of weight three that did not sign. */
  const UNSIGNED: Reveal := Reveal(SigSlot(MerkleSignature([], 0, NO_PROOF, Zeros(PUBKEY_SIZE)), 0),
                                   Participant(NO_VERIFIER, 3))

  /** Trees of one leaf are that leaf. */
  function StarvingProof(env: Env): StateProof {
    StateProof(SlotDigest(env, UNSIGNED.sigSlot), 3, NO_PROOF, NO_PROOF, 0, [RevealAt(0, UNSIGNED)], [0])
  }

  function StarvingAnchor(env: Env): TrustAnchor {
    TrustAnchor(ParticipantLeaf(env, UNSIGNED.participant), 0)
  }

  /** The only entry of a batch over a single leaf is the root. */
  lemma LoneLeafAccepted(h: HashFn, leaf: Digest)
    ensures VcBatchAccepts(h, [Entry(0, leaf)], 0, [], leaf)
  {
    hide BatchAccepts, VcIndex;
    var elems := [Entry(0, leaf)];
    assert Internal(elems, 0) == elems by { SlotZero(); }
    SingletonBatch(h, 0, leaf, 0, [], leaf);
  }

  lemma SlotZero()
    ensures VcIndex(0, 0) == 0
  {
  }

  lemma StarvingProofPasses(env: Env, msg: Message)
    requires env.ln == EasyLogarithm
    ensures ProofsPass(env, StarvingProof(env), msg, StarvingAnchor(env))
  {
    hide VcBatchAccepts, OpeningPasses, MessageHash, SlotDigest, ParticipantLeaf;
    var sp := StarvingProof(env);
    EmptySlotPasses(env, 0, sp.openings[0], msg.lastRound, MessageHash(env, msg));
    LoneLeafAccepted(env.sum, sp.sigCommitment);
    LoneLeafAccepted(env.sum, StarvingAnchor(env).partCommitment);
    assert SlotBatch(env, sp) == [Entry(0, sp.sigCommitment)];
    assert ParticipantBatch(env, sp) == [Entry(0, StarvingAnchor(env).partCommitment)];
  }

  /**
   Nor does safety of the signature proofs make it return: for any hash functions, build and message, an
   unsigned opening of weight three passes every check before the coins, and on a stream of bytes 255 the search
   for its coin never ends.
   */
  lemma VerifyCanHang(sum: HashFn, sha: HashFn, build: Build, msg: Message)
    requires sum.Valid() && sum.size == SUMHASH_SIZE && sha.Valid() && sha.size == SHA256_SIZE
    ensures var env := StarvingEnv(sum, sha, build);
            && env.Valid() && UNSIGNED.sigSlot.IsEmpty()
            && Verify(env, StarvingProof(env), msg, StarvingAnchor(env)) == Endless
  {
    hide ProofsPass, Yields, Verify, MessageHash, SlotDigest, ParticipantLeaf;
    var env := StarvingEnv(sum, sha, build);
    var sp, anchor := StarvingProof(env), StarvingAnchor(env);
    StarvingProofPasses(env, msg);
    CheckProofsIff(env, sp, msg, anchor);
    FullStreamStarves(0);
    RevealMapKeys(sp.openings);
    assert CoinStream(env, sp, msg, anchor) == FullStream;
    assert sp.openings[0].position == sp.positions[0];
    assert RunsOutAt(sp.openings, sp.positions, FullStream, 3, 0, 0);
    VerifyEndlessIff(env, sp, msg, anchor);
  }

  /** In no environment does the check of this opening abort. */
  ghost predicate NeverAborts(o: RevealAt) {
    forall env: Env, sp: StateProof, msg: Message ::
      env.Valid() ==> !CheckOpening(env, sp.saltVersion, o, msg.lastRound, MessageHash(env, msg)).Panic?
  }

  lemma {:induction false} ConstantClimb(h: HashFn, c: Digest, i: nat, path: seq<Digest>)
    requires forall m :: h.digest(m) == c
    ensures Climb(h, c, i, path) == c
    decreases |path|
  {
    if path != [] { ConstantClimb(h, c, i / 2, path[1..]); }
  }

  /** An unsafe proof aborts where every hash is the member's commitment and every signature verifies. */
  lemma UnsafeAborts(o: RevealAt)
    requires |o.opening.participant.pk.commitment| == SUMHASH_SIZE
    requires !o.opening.sigSlot.IsEmpty() && !Safe(o.opening.sigSlot.mss.proof)
    ensures !NeverAborts(o)
  {
    hide KeyPreimage, MessageHash, VcIndex, SlotPrefix, PathArea, CheckOpening;
    var c, mss := o.opening.participant.pk.commitment, o.opening.sigSlot.mss;
    var env := EasyEnv(HashFn(SUMHASH_SIZE, _ => c), HashFn(SHA256_SIZE, _ => Zeros(SHA256_SIZE)), OverflowChecked);
    var sp, msg := StateProof([], 0, NO_PROOF, NO_PROOF, 0, [], []), Message([], [], 0, 0, 0);
    ConstantClimb(env.sum, c, VcIndex(mss.vcIndex, mss.proof.treeDepth), mss.proof.path);
    assert Aborts(env, sp, msg, o);
    OpeningAbortsIff(env, sp, msg, o);
  }

  /** Exactly the unsigned openings and those with safe proofs can be checked without the risk of an abort. */
  lemma NeverAbortsIff(o: RevealAt)
    requires |o.opening.participant.pk.commitment| == SUMHASH_SIZE
    ensures NeverAborts(o) <==> o.opening.sigSlot.IsEmpty() || Safe(o.opening.sigSlot.mss.proof)
  {
    hide CheckOpening, MessageHash, SchemeHolds;
    if o.opening.sigSlot.IsEmpty() || Safe(o.opening.sigSlot.mss.proof) {
      forall env: Env, sp: StateProof, msg: Message | env.Valid()
        ensures !CheckOpening(env, sp.saltVersion, o, msg.lastRound, MessageHash(env, msg)).Panic?
      {
        OpeningAbortsIff(env, sp, msg, o);
      }
    } else {
      UnsafeAborts(o);
    }
  }
}
