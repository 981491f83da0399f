/** State proof verification: the staged checks, exactly when they accept, and how they run. */
module Verifier {
  import opened Bytes
  import opened Hashing
  import opened MerkleTree
  import opened OrderedMap
  import opened BatchProof
  import opened VcTree
  import opened VcBatch
  import opened Types
  import opened Coin
  import opened Leaves
  import RoundTrip
  import Sumhash

  const SP_VC_MAX_DEPTH: nat := 20
  const STRENGTH_TARGET: nat := 256
  const LN2_FIXED_POINT: nat := 45427
  const DOMAIN_SP_MSG_HASH: seq<Byte> := [0x73, 0x70, 0x6d]  // "spm"

  /** What the verifier takes from outside: two hash functions, a stream, signatures, a logarithm, its build. */
  datatype Env = Env(
    sum: HashFn, sha: HashFn, shake: Sumhash.Xof, falcon: Falcon, ln: U64 -> Option<U64>, build: Build)
  {
    ghost predicate Valid() {
      && sum.Valid() && sum.size == SUMHASH_SIZE
      && sha.Valid() && sha.size == SHA256_SIZE
      && falcon.Valid()
      && forall x: U64 :: ln(x).None? <==> x == 0
    }
  }

  datatype VerifyError =
    | SignedWeightTooLow
    | InsufficientReveals
    | TreeDepthTooLarge(field: string, depth: Byte)
    | SaltVersionMismatch(position: U64)
    | MissingReveal(position: U64)
    | SigProofFailed
    | PartProofFailed
    | VcProofFailed(position: U64)
    | FalconVerifyFailed(position: U64)
    | SigConversionFailed(position: U64)
    | CoinOutOfRange(index: nat, position: U64, coin: U64)
    | WeightRangeOverflow(position: U64)
    | DuplicateRevealPosition

  /**
   `Panic` is an arithmetic overflow or an out-of-bounds copy, which abort the program; `Endless` is a coin
   asked of a stream that has no acceptable word left.
   */
  datatype Verdict<+T> = Accept(value: T) | Reject(error: VerifyError) | Panic | Endless {
    predicate IsFailure() { !Accept? }

    function PropagateFailure<U>(): Verdict<U>
      requires !Accept?
    {
      match this
      case Reject(e) => Reject(e)
      case Panic => Panic
      case Endless => Endless
    }

    function Extract(): T
      requires Accept?
    {
      value
    }
  }

  datatype TrustAnchor = TrustAnchor(partCommitment: Digest, lnProvenWeight: U64)

  /** The anchor that an accepted message hands to the next interval. */
  function NextAnchor(msg: Message): TrustAnchor {
    TrustAnchor(msg.voters, msg.lnProvenWeight)
  }

  function MessageHash(env: Env, msg: Message): Digest {
    env.sha.digest(DOMAIN_SP_MSG_HASH + RoundTrip.EncodeMessage(msg))
  }

  // ---------------------------------------------------------------- one opening

  datatype LeafPair = LeafPair(sig: Digest, part: Digest)

  /** The key is committed at its index, and it signed the message. */
  function CheckScheme(
    env: Env, mss: MerkleSignature, v: MerkleVerifier, round: U64, hash: Digest, pos: U64): Verdict<()> {
    if Overflows(env.build, mss.proof.treeDepth) then Panic
    else
      var leaf := env.sum.digest(KeyPreimage(KeyEpochStart(v, round), mss.verifyingKey));
      if Climb(env.sum, leaf, VcIndex(mss.vcIndex, mss.proof.treeDepth), mss.proof.path) != v.commitment
      then Reject(VcProofFailed(pos))
      else if !env.falcon.verifies(mss.verifyingKey, mss.signature, hash) then Reject(FalconVerifyFailed(pos))
      else Accept(())
  }

  function CheckSlot(env: Env, saltVersion: Byte, o: RevealAt, round: U64, hash: Digest): Verdict<()> {
    var slot := o.opening.sigSlot;
    if slot.IsEmpty() then Accept(())
    else if env.falcon.saltVersion(slot.mss.signature) != saltVersion then Reject(SaltVersionMismatch(o.position))
    else CheckScheme(env, slot.mss, o.opening.participant.pk, round, hash, o.position)
  }

  function SlotLeaf(env: Env, slot: SigSlot, pos: U64): Verdict<Digest> {
    match SlotPreimage(env.falcon, slot)
    case Fixed(bytes) => Accept(env.sum.digest(bytes))
    case ConversionFailed => Reject(SigConversionFailed(pos))
    case Panics => Panic
  }

  function ParticipantLeaf(env: Env, p: Participant): Digest {
    env.sum.digest(ParticipantPreimage(p))
  }

  function CheckOpening(env: Env, saltVersion: Byte, o: RevealAt, round: U64, hash: Digest): Verdict<LeafPair> {
    var _ :- CheckSlot(env, saltVersion, o, round, hash);
    var sig :- SlotLeaf(env, o.opening.sigSlot, o.position);
    Accept(LeafPair(sig, ParticipantLeaf(env, o.opening.participant)))
  }

  /** The first failure, or the leaves of all openings in wire order. */
  function CheckOpenings(env: Env, sp: StateProof, msg: Message, openings: seq<RevealAt>): Verdict<seq<LeafPair>> {
    if openings == [] then Accept([])
    else
      var first :- CheckOpening(env, sp.saltVersion, openings[0], msg.lastRound, MessageHash(env, msg));
      var rest :- CheckOpenings(env, sp, msg, openings[1..]);
      Accept([first] + rest)
  }

  function SigElems(openings: seq<RevealAt>, leaves: seq<LeafPair>): (r: seq<Elem>)
    requires |openings| == |leaves|
    ensures |r| == |openings|
    ensures forall i :: 0 <= i < |r| ==> r[i] == Entry(openings[i].position, leaves[i].sig)
  {
    seq(|openings|, i requires 0 <= i < |openings| => Entry(openings[i].position, leaves[i].sig))
  }

  function PartElems(openings: seq<RevealAt>, leaves: seq<LeafPair>): (r: seq<Elem>)
    requires |openings| == |leaves|
    ensures |r| == |openings|
    ensures forall i :: 0 <= i < |r| ==> r[i] == Entry(openings[i].position, leaves[i].part)
  {
    seq(|openings|, i requires 0 <= i < |openings| => Entry(openings[i].position, leaves[i].part))
  }

  // ---------------------------------------------------------------- coins

  function CoinSeed(env: Env, sp: StateProof, msg: Message, anchor: TrustAnchor): Seed {
    Seed(anchor.partCommitment, anchor.lnProvenWeight, sp.sigCommitment, sp.signedWeight, MessageHash(env, msg))
  }

  function CoinStream(env: Env, sp: StateProof, msg: Message, anchor: TrustAnchor): nat -> Byte {
    env.shake(SeedBytes(CoinSeed(env, sp, msg, anchor)))
  }

  /** The map from positions to openings; with distinct positions every opening is found. */
  function RevealMap(openings: seq<RevealAt>): map<U64, Reveal> {
    if openings == [] then map[]
    else
      var init, last := openings[..|openings| - 1], openings[|openings| - 1];
      RevealMap(init)[last.position := last.opening]
  }

  /** The range check of one coin against the opening at its position. */
  function CheckCoin(r: Reveal, i: nat, pos: U64, coin: U64): Verdict<()> {
    if r.sigSlot.l + r.participant.weight >= TWO_64 then Reject(WeightRangeOverflow(pos))
    else if !(r.sigSlot.l <= coin < r.sigSlot.l + r.participant.weight) then Reject(CoinOutOfRange(i, pos, coin))
    else Accept(())
  }

  /** The coin loop from position index `i` on: a coin is only drawn once its position was found. */
  ghost function CheckCoins(
    revealMap: map<U64, Reveal>, positions: seq<U64>, xof: nat -> Byte, weight: U64, i: nat): Verdict<()>
    requires weight > 0
    decreases |positions| - i
  {
    if i >= |positions| then Accept(())
    else if positions[i] !in revealMap then Reject(MissingReveal(positions[i]))
    else if !Yields(xof, weight, i) then Endless
    else
      var _ :- CheckCoin(revealMap[positions[i]], i, positions[i], CoinAt(xof, weight, i));
      CheckCoins(revealMap, positions, xof, weight, i + 1)
  }

  // ---------------------------------------------------------------- the whole verification

  /** The checks before any hashing: depths, weight, strength and duplicate positions. */
  function CheckParameters(env: Env, sp: StateProof, anchor: TrustAnchor): Verdict<()> {
    if sp.sigProofs.treeDepth > SP_VC_MAX_DEPTH then Reject(TreeDepthTooLarge("sig_proofs", sp.sigProofs.treeDepth))
    else if sp.partProofs.treeDepth > SP_VC_MAX_DEPTH then
      Reject(TreeDepthTooLarge("part_proofs", sp.partProofs.treeDepth))
    else
      match env.ln(sp.signedWeight)
      case None => Reject(SignedWeightTooLow)
      case Some(ln) =>
        if ln <= anchor.lnProvenWeight then Reject(SignedWeightTooLow)
        else if |sp.positions| * (ln - anchor.lnProvenWeight) < STRENGTH_TARGET * LN2_FIXED_POINT then
          Reject(InsufficientReveals)
        else if |RevealMap(sp.openings)| != |sp.openings| then Reject(DuplicateRevealPosition)
        else Accept(())
  }

  /** Everything up to the coins. */
  function CheckProofs(env: Env, sp: StateProof, msg: Message, anchor: TrustAnchor): Verdict<()> {
    var _ :- CheckParameters(env, sp, anchor);
    var leaves :- CheckOpenings(env, sp, msg, sp.openings);
    CheckOpeningsLength(env, sp, msg, sp.openings);
    if !VcBatchAccepts(env.sum, SigElems(sp.openings, leaves), sp.sigProofs.treeDepth, sp.sigProofs.path,
                       sp.sigCommitment)
    then Reject(SigProofFailed)
    else if !VcBatchAccepts(env.sum, PartElems(sp.openings, leaves), sp.partProofs.treeDepth, sp.partProofs.path,
                            anchor.partCommitment)
    then Reject(PartProofFailed)
    else Accept(())
  }

  lemma {:induction false} CheckOpeningsLength(env: Env, sp: StateProof, msg: Message, openings: seq<RevealAt>)
    ensures var r := CheckOpenings(env, sp, msg, openings); r.Accept? ==> |r.value| == |openings|
  {
    hide CheckOpening, MessageHash;
    if openings != [] { CheckOpeningsLength(env, sp, msg, openings[1..]); }
  }

  /** A zero weight has no logarithm and is rejected before coins are drawn. */
  lemma CheckedWeight(env: Env, sp: StateProof, msg: Message, anchor: TrustAnchor)
    requires env.Valid() && CheckProofs(env, sp, msg, anchor).Accept?
    ensures sp.signedWeight > 0
  {
    hide CheckOpenings, VcBatchAccepts;
  }

  ghost function Verify(env: Env, sp: StateProof, msg: Message, anchor: TrustAnchor): Verdict<TrustAnchor>
    requires env.Valid()
  {
    var _ :- CheckProofs(env, sp, msg, anchor);
    CheckedWeight(env, sp, msg, anchor);
    var _ :- CheckCoins(RevealMap(sp.openings), sp.positions, CoinStream(env, sp, msg, anchor), sp.signedWeight, 0);
    Accept(NextAnchor(msg))
  }

  // ---------------------------------------------------------------- when it accepts

  ghost predicate DistinctPositions(openings: seq<RevealAt>) {
    forall i, j :: 0 <= i < j < |openings| ==> openings[i].position != openings[j].position
  }

  /** What makes one opening pass: an empty slot, or a committed key that signed the message. */
  ghost predicate OpeningPasses(env: Env, saltVersion: Byte, o: RevealAt, round: U64, hash: Digest) {
    var slot, v := o.opening.sigSlot, o.opening.participant.pk;
    && SlotPreimage(env.falcon, slot).Fixed?
    && (slot.IsEmpty() ||
        (&& env.falcon.saltVersion(slot.mss.signature) == saltVersion
         && !Overflows(env.build, slot.mss.proof.treeDepth)
         && Climb(env.sum, env.sum.digest(KeyPreimage(KeyEpochStart(v, round), slot.mss.verifyingKey)),
                  VcIndex(slot.mss.vcIndex, slot.mss.proof.treeDepth), slot.mss.proof.path) == v.commitment
         && env.falcon.verifies(slot.mss.verifyingKey, slot.mss.signature, hash)))
  }

  /** The leaf digest of a slot that has one. */
  function SlotDigest(env: Env, slot: SigSlot): Digest {
    match SlotPreimage(env.falcon, slot)
    case Fixed(bytes) => env.sum.digest(bytes)
    case _ => []
  }

  function OpeningLeaves(env: Env, openings: seq<RevealAt>): (r: seq<LeafPair>)
    ensures |r| == |openings|
    ensures forall i :: 0 <= i < |r| ==>
              r[i] == LeafPair(SlotDigest(env, openings[i].opening.sigSlot),
                               ParticipantLeaf(env, openings[i].opening.participant))
  {
    seq(|openings|, i requires 0 <= i < |openings| =>
      LeafPair(SlotDigest(env, openings[i].opening.sigSlot), ParticipantLeaf(env, openings[i].opening.participant)))
  }

  /** The signature batch of the proof. */
  function SlotBatch(env: Env, sp: StateProof): seq<Elem> {
    SigElems(sp.openings, OpeningLeaves(env, sp.openings))
  }

  /** The participant batch of the proof. */
  function ParticipantBatch(env: Env, sp: StateProof): seq<Elem> {
    PartElems(sp.openings, OpeningLeaves(env, sp.openings))
  }

  /** Some opening at this position has the coin in its weight range. */
  ghost predicate Covers(openings: seq<RevealAt>, pos: U64, coin: nat) {
    exists j :: 0 <= j < |openings| && openings[j].position == pos && InRange(openings[j].opening, coin)
  }

  /** There is an `i`-th coin, and it is covered at the `i`-th position. */
  ghost predicate CoinCovered(openings: seq<RevealAt>, positions: seq<U64>, xof: nat -> Byte, weight: U64, i: nat)
    requires weight > 0 && i < |positions|
  {
    Yields(xof, weight, i) && Covers(openings, positions[i], CoinAt(xof, weight, i))
  }

  predicate InRange(r: Reveal, coin: nat) {
    r.sigSlot.l <= coin < r.sigSlot.l + r.participant.weight < TWO_64
  }

  /** The weight beats the proven weight by enough for the number of coins drawn. */
  ghost predicate StrongEnough(env: Env, sp: StateProof, anchor: TrustAnchor) {
    match env.ln(sp.signedWeight)
    case None => false
    case Some(ln) =>
      && ln > anchor.lnProvenWeight
      && |sp.positions| * (ln - anchor.lnProvenWeight) >= STRENGTH_TARGET * LN2_FIXED_POINT
  }

  /** Everything that is checked before coins are drawn. */
  ghost predicate ProofsPass(env: Env, sp: StateProof, msg: Message, anchor: TrustAnchor) {
    && sp.sigProofs.treeDepth <= SP_VC_MAX_DEPTH && sp.partProofs.treeDepth <= SP_VC_MAX_DEPTH
    && StrongEnough(env, sp, anchor)
    && DistinctPositions(sp.openings)
    && (forall i :: 0 <= i < |sp.openings| ==>
          OpeningPasses(env, sp.saltVersion, sp.openings[i], msg.lastRound, MessageHash(env, msg)))
    && VcBatchAccepts(env.sum, SlotBatch(env, sp), sp.sigProofs.treeDepth, sp.sigProofs.path, sp.sigCommitment)
    && VcBatchAccepts(env.sum, ParticipantBatch(env, sp), sp.partProofs.treeDepth, sp.partProofs.path,
                      anchor.partCommitment)
  }

  ghost predicate Accepts(env: Env, sp: StateProof, msg: Message, anchor: TrustAnchor)
    requires env.Valid()
  {
    && ProofsPass(env, sp, msg, anchor)
    && (forall i :: 0 <= i < |sp.positions| ==>
          CoinCovered(sp.openings, sp.positions, CoinStream(env, sp, msg, anchor), sp.signedWeight, i))
  }

  lemma {:induction false} RevealMapKeys(openings: seq<RevealAt>)
    ensures forall p :: p in RevealMap(openings) <==> exists j :: 0 <= j < |openings| && openings[j].position == p
    ensures |RevealMap(openings)| <= |openings|
    ensures |RevealMap(openings)| == |openings| <==> DistinctPositions(openings)
  {
    if openings != [] {
      var init, last := openings[..|openings| - 1], openings[|openings| - 1];
      RevealMapKeys(init);
      RevealMapSnoc(openings);
      var m := RevealMap(init);
      assert RevealMap(openings).Keys == m.Keys + {last.position};
      hide RevealMap, DistinctPositions;
      if last.position in m {
        assert m.Keys + {last.position} == m.Keys;
        var j :| 0 <= j < |init| && init[j].position == last.position;
        assert openings[j].position == openings[|openings| - 1].position;
      }
    }
  }

  lemma RevealMapSnoc(openings: seq<RevealAt>)
    requires openings != []
    ensures var init, last := openings[..|openings| - 1], openings[|openings| - 1];
            DistinctPositions(openings)
            <==> DistinctPositions(init) && forall j :: 0 <= j < |init| ==> init[j].position != last.position
  {
    var init, last := openings[..|openings| - 1], openings[|openings| - 1];
    if DistinctPositions(openings) {
      forall j | 0 <= j < |init|
        ensures init[j].position != last.position
      {
        assert openings[j].position != openings[|openings| - 1].position;
      }
    }
  }

  lemma {:induction false} RevealMapAt(openings: seq<RevealAt>, j: nat)
    requires DistinctPositions(openings) && j < |openings|
    ensures openings[j].position in RevealMap(openings)
    ensures RevealMap(openings)[openings[j].position] == openings[j].opening
  {
    if j < |openings| - 1 { RevealMapAt(openings[..|openings| - 1], j); }
  }

  /** With distinct positions a coin check passes exactly when some opening covers the coin. */
  lemma CheckCoinIff(openings: seq<RevealAt>, i: nat, pos: U64, coin: U64)
    requires DistinctPositions(openings)
    ensures pos in RevealMap(openings) && CheckCoin(RevealMap(openings)[pos], i, pos, coin).Accept?
       <==> Covers(openings, pos, coin)
  {
    RevealMapKeys(openings);
    if pos in RevealMap(openings) {
      var j :| 0 <= j < |openings| && openings[j].position == pos;
      RevealMapAt(openings, j);
    }
    if Covers(openings, pos, coin) {
      var j :| 0 <= j < |openings| && openings[j].position == pos && InRange(openings[j].opening, coin);
      RevealMapAt(openings, j);
    }
  }

  lemma CheckCoinsStep(openings: seq<RevealAt>, positions: seq<U64>, xof: nat -> Byte, weight: U64, i: nat)
    requires DistinctPositions(openings) && weight > 0 && i < |positions|
    ensures CheckCoins(RevealMap(openings), positions, xof, weight, i).Accept?
       <==> && CoinCovered(openings, positions, xof, weight, i)
            && CheckCoins(RevealMap(openings), positions, xof, weight, i + 1).Accept?
  {
    hide Covers, CheckCoin, RevealMap, Yields, CoinAt, DistinctPositions;
    if Yields(xof, weight, i) { CheckCoinIff(openings, i, positions[i], CoinAt(xof, weight, i)); }
  }

  lemma {:induction false} CheckCoinsIff(
    openings: seq<RevealAt>, positions: seq<U64>, xof: nat -> Byte, weight: U64, i: nat)
    requires DistinctPositions(openings) && weight > 0 && i <= |positions|
    ensures CheckCoins(RevealMap(openings), positions, xof, weight, i).Accept?
       <==> forall k :: i <= k < |positions| ==> CoinCovered(openings, positions, xof, weight, k)
    decreases |positions| - i
  {
    if i < |positions| {
      hide CheckCoins, CoinCovered, RevealMap, DistinctPositions;
      CheckCoinsStep(openings, positions, xof, weight, i);
      CheckCoinsIff(openings, positions, xof, weight, i + 1);
    }
  }

  lemma CheckOpeningIff(env: Env, sp: StateProof, msg: Message, o: RevealAt)
    ensures var r := CheckOpening(env, sp.saltVersion, o, msg.lastRound, MessageHash(env, msg));
            && (r.Accept? <==> OpeningPasses(env, sp.saltVersion, o, msg.lastRound, MessageHash(env, msg)))
            && (r.Accept? ==> r.value == OpeningLeaves(env, [o])[0])
  {
    hide SlotPreimage, Climb, KeyPreimage;
  }

  lemma {:induction false} CheckOpeningsIff(env: Env, sp: StateProof, msg: Message, openings: seq<RevealAt>)
    ensures var r := CheckOpenings(env, sp, msg, openings);
            && (r.Accept? <==> forall i :: 0 <= i < |openings| ==>
                  OpeningPasses(env, sp.saltVersion, openings[i], msg.lastRound, MessageHash(env, msg)))
            && (r.Accept? ==> r.value == OpeningLeaves(env, openings))
  {
    hide OpeningPasses, CheckOpening, MessageHash, OpeningLeaves;
    if openings != [] {
      CheckOpeningIff(env, sp, msg, openings[0]);
      CheckOpeningsIff(env, sp, msg, openings[1..]);
      OpeningLeavesCons(env, openings);
      assert forall i :: 1 <= i < |openings| ==> openings[i] == openings[1..][i - 1];
    }
  }

  lemma OpeningLeavesCons(env: Env, openings: seq<RevealAt>)
    requires openings != []
    ensures OpeningLeaves(env, openings) == [OpeningLeaves(env, [openings[0]])[0]] + OpeningLeaves(env, openings[1..])
  {
    hide SlotDigest, ParticipantLeaf;
  }

  lemma CheckProofsIff(env: Env, sp: StateProof, msg: Message, anchor: TrustAnchor)
    ensures CheckProofs(env, sp, msg, anchor).Accept? <==> ProofsPass(env, sp, msg, anchor)
  {
    hide CheckOpenings, VcBatchAccepts, OpeningPasses, MessageHash, RevealMap;
    hide DistinctPositions, SigElems, PartElems, OpeningLeaves;
    RevealMapKeys(sp.openings);
    CheckOpeningsIff(env, sp, msg, sp.openings);
  }

  /** Verification succeeds exactly under `Accepts`, and then hands on the message's own anchor. */
  lemma VerifyIff(env: Env, sp: StateProof, msg: Message, anchor: TrustAnchor)
    requires env.Valid()
    ensures Verify(env, sp, msg, anchor).Accept? <==> Accepts(env, sp, msg, anchor)
    ensures Verify(env, sp, msg, anchor).Accept? ==>
              var next := Verify(env, sp, msg, anchor).value;
              && next == NextAnchor(msg)
              && next.partCommitment == msg.voters && next.lnProvenWeight == msg.lnProvenWeight
  {
    hide CheckProofs, CheckCoins, VcBatchAccepts, OpeningPasses, CoinCovered, CoinStream, MessageHash, RevealMap;
    CheckProofsIff(env, sp, msg, anchor);
    if CheckProofs(env, sp, msg, anchor).Accept? {
      CheckedWeight(env, sp, msg, anchor);
      CheckCoinsIff(sp.openings, sp.positions, CoinStream(env, sp, msg, anchor), sp.signedWeight, 0);
    }
  }
}
