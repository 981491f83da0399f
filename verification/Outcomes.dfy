/** Which failure a verification reports, and exactly when it aborts instead of returning. */
module Outcomes {
  import opened Bytes
  import opened Hashing
  import opened MerkleTree
  import opened VcTree
  import opened VcBatch
  import opened Types
  import opened Coin
  import opened Leaves
  import opened Verifier

  /** How a check ended, without its value. */
  function Outcome<T>(v: Verdict<T>): Verdict<()> {
    match v
    case Accept(_) => Accept(())
    case Reject(e) => Reject(e)
    case Panic => Panic
    case Endless => Endless
  }

  // ---------------------------------------------------------------- openings

  /** Opening `i` is the first one that does not pass. */
  ghost predicate FirstBad(env: Env, sp: StateProof, msg: Message, openings: seq<RevealAt>, i: nat) {
    && i < |openings|
    && (forall k :: 0 <= k < i ==> Passes(env, sp, msg, openings[k]))
    && !Passes(env, sp, msg, openings[i])
  }

  ghost predicate Passes(env: Env, sp: StateProof, msg: Message, o: RevealAt) {
    OpeningPasses(env, sp.saltVersion, o, msg.lastRound, MessageHash(env, msg))
  }

  /** The loop over the openings ends the way its first bad opening ends. */
  lemma {:induction false} FirstBadOpening(env: Env, sp: StateProof, msg: Message, openings: seq<RevealAt>, i: nat)
    requires FirstBad(env, sp, msg, openings, i)
    ensures Outcome(CheckOpenings(env, sp, msg, openings))
         == Outcome(CheckOpening(env, sp.saltVersion, openings[i], msg.lastRound, MessageHash(env, msg)))
  {
    hide OpeningPasses, CheckOpening, MessageHash;
    CheckOpeningIff(env, sp, msg, openings[0]);
    if i == 0 {
      assert !Passes(env, sp, msg, openings[0]);
    } else {
      assert Passes(env, sp, msg, openings[0]);
      assert FirstBad(env, sp, msg, openings[1..], i - 1) by {
        assert forall k :: 0 <= k < |openings| - 1 ==> openings[1..][k] == openings[k + 1];
      }
      FirstBadOpening(env, sp, msg, openings[1..], i - 1);
    }
  }

  /** The path does not fit into the fixed-length form: it is longer than its depth, or than the maximum. */
  predicate PathOverflows(p: Proof) {
    if p.treeDepth <= MSS_VC_MAX_DEPTH then |p.path| > p.treeDepth else |p.path| > MSS_VC_MAX_DEPTH
  }

  /** The key is committed and signed the message. */
  ghost predicate SchemeHolds(env: Env, mss: MerkleSignature, v: MerkleVerifier, round: U64, hash: Digest) {
    && Climb(env.sum, env.sum.digest(KeyPreimage(KeyEpochStart(v, round), mss.verifyingKey)),
             VcIndex(mss.vcIndex, mss.proof.treeDepth), mss.proof.path) == v.commitment
    && env.falcon.verifies(mss.verifyingKey, mss.signature, hash)
  }

  /** A signed slot of the right salt version whose depth overflows, or whose path outgrows its fixed form. */
  ghost predicate Aborts(env: Env, sp: StateProof, msg: Message, o: RevealAt) {
    var mss := o.opening.sigSlot.mss;
    && !o.opening.sigSlot.IsEmpty() && env.falcon.saltVersion(mss.signature) == sp.saltVersion
    && (Overflows(env.build, mss.proof.treeDepth)
        || (&& SchemeHolds(env, mss, o.opening.participant.pk, msg.lastRound, MessageHash(env, msg))
            && env.falcon.toCt(mss.signature).Some? && PathOverflows(mss.proof)))
  }

  lemma OpeningAbortsIff(env: Env, sp: StateProof, msg: Message, o: RevealAt)
    ensures CheckOpening(env, sp.saltVersion, o, msg.lastRound, MessageHash(env, msg)).Panic?
       <==> Aborts(env, sp, msg, o)
    ensures Aborts(env, sp, msg, o) ==> !Passes(env, sp, msg, o)
  {
    hide KeyPreimage, Climb, MessageHash, SlotPrefix, PathArea;
  }

  // ---------------------------------------------------------------- coins

  /** How the coin loop ends at a position whose coin is not covered. */
  ghost function CoinFailure(
    openings: seq<RevealAt>, positions: seq<U64>, xof: nat -> Byte, weight: U64, k: nat): Verdict<()>
    requires weight > 0 && k < |positions|
  {
    if positions[k] !in RevealMap(openings) then Reject(MissingReveal(positions[k]))
    else if !Yields(xof, weight, k) then Endless
    else CheckCoin(RevealMap(openings)[positions[k]], k, positions[k], CoinAt(xof, weight, k))
  }

  /** The coin loop ends the way its first uncovered coin ends. */
  lemma {:induction false} FirstBadCoin(
    openings: seq<RevealAt>, positions: seq<U64>, xof: nat -> Byte, weight: U64, i: nat, k: nat)
    requires DistinctPositions(openings) && weight > 0 && i <= k < |positions|
    requires forall n :: i <= n < k ==> CoinCovered(openings, positions, xof, weight, n)
    requires !CoinCovered(openings, positions, xof, weight, k)
    ensures CheckCoins(RevealMap(openings), positions, xof, weight, i)
         == CoinFailure(openings, positions, xof, weight, k)
    decreases k - i
  {
    hide CheckCoin, RevealMap, DistinctPositions, Covers, Yields, CoinAt;
    assert i < k ==> CoinCovered(openings, positions, xof, weight, i);
    if Yields(xof, weight, i) { CheckCoinIff(openings, i, positions[i], CoinAt(xof, weight, i)); }
    if i < k { FirstBadCoin(openings, positions, xof, weight, i + 1, k); }
  }

  // ---------------------------------------------------------------- the whole verification

  lemma {:induction false} CoinsNeverAbort(
    m: map<U64, Reveal>, positions: seq<U64>, xof: nat -> Byte, weight: U64, i: nat)
    requires weight > 0
    ensures !CheckCoins(m, positions, xof, weight, i).Panic?
    decreases |positions| - i
  {
    hide Yields, CoinAt;
    if i < |positions| { CoinsNeverAbort(m, positions, xof, weight, i + 1); }
  }

  lemma FirstBadExists(env: Env, sp: StateProof, msg: Message, openings: seq<RevealAt>)
    requires !CheckOpenings(env, sp, msg, openings).Accept?
    ensures exists i: nat :: FirstBad(env, sp, msg, openings, i)
  {
    hide OpeningPasses, CheckOpenings, MessageHash;
    CheckOpeningsIff(env, sp, msg, openings);
    var bad :| 0 <= bad < |openings| && !Passes(env, sp, msg, openings[bad]);
    EarliestBad(env, sp, msg, openings, 0, bad);
  }

  lemma {:induction false} EarliestBad(
    env: Env, sp: StateProof, msg: Message, openings: seq<RevealAt>, from: nat, bad: nat)
    requires from <= bad < |openings| && !Passes(env, sp, msg, openings[bad])
    requires forall k :: 0 <= k < from ==> Passes(env, sp, msg, openings[k])
    ensures exists i: nat :: FirstBad(env, sp, msg, openings, i)
    decreases bad - from
  {
    hide Passes;
    if Passes(env, sp, msg, openings[from]) {
      EarliestBad(env, sp, msg, openings, from + 1, bad);
    } else {
      assert FirstBad(env, sp, msg, openings, from);
    }
  }

  /**
   A verification aborts exactly when its parameters are in order, some opening has a proof that is too
   deep or too long, and every opening in front of it passes.
   */
  lemma VerifyAbortsIff(env: Env, sp: StateProof, msg: Message, anchor: TrustAnchor)
    requires env.Valid()
    ensures Verify(env, sp, msg, anchor).Panic?
       <==> && CheckParameters(env, sp, anchor).Accept?
            && exists i: nat :: FirstBad(env, sp, msg, sp.openings, i) && Aborts(env, sp, msg, sp.openings[i])
  {
    hide CheckOpenings, CheckCoins, CheckOpening, VcBatchAccepts, FirstBad, Aborts, CoinStream, MessageHash, RevealMap;
    assert CheckParameters(env, sp, anchor).Panic? == false;
    VerifyAbortsInOpenings(env, sp, msg, anchor);
    forall i: nat | FirstBad(env, sp, msg, sp.openings, i)
      ensures i < |sp.openings|
      ensures CheckOpenings(env, sp, msg, sp.openings).Panic? <==> Aborts(env, sp, msg, sp.openings[i])
    {
      BadInRange(env, sp, msg, sp.openings, i);
      FirstBadOpening(env, sp, msg, sp.openings, i);
      OpeningAbortsIff(env, sp, msg, sp.openings[i]);
    }
    if CheckOpenings(env, sp, msg, sp.openings).Panic? {
      FirstBadExists(env, sp, msg, sp.openings);
    }
  }

  lemma BadInRange(env: Env, sp: StateProof, msg: Message, openings: seq<RevealAt>, i: nat)
    requires FirstBad(env, sp, msg, openings, i)
    ensures i < |openings| && !Passes(env, sp, msg, openings[i])
  {
  }

  lemma VerifyAbortsInOpenings(env: Env, sp: StateProof, msg: Message, anchor: TrustAnchor)
    requires env.Valid()
    ensures Verify(env, sp, msg, anchor).Panic?
       <==> CheckParameters(env, sp, anchor).Accept? && CheckOpenings(env, sp, msg, sp.openings).Panic?
  {
    hide CheckOpenings, VcBatchAccepts, CoinStream, MessageHash, RevealMap;
    if CheckProofs(env, sp, msg, anchor).Accept? {
      CheckedWeight(env, sp, msg, anchor);
      CoinsNeverAbort(RevealMap(sp.openings), sp.positions, CoinStream(env, sp, msg, anchor), sp.signedWeight, 0);
    }
  }

  /** What a caller can check of a signature proof: a depth within the word, and a path that the layout holds. */
  predicate Safe(p: Proof) {
    p.treeDepth <= USIZE_BITS && !PathOverflows(p)
  }

  /** If all opened signature proofs are safe, verification does not abort, in whatever environment. */
  lemma SafeNeverAborts(env: Env, sp: StateProof, msg: Message, anchor: TrustAnchor)
    requires env.Valid()
    requires forall i :: 0 <= i < |sp.openings| ==>
               sp.openings[i].opening.sigSlot.IsEmpty() || Safe(sp.openings[i].opening.sigSlot.mss.proof)
    ensures !Verify(env, sp, msg, anchor).Panic?
  {
    hide Verify, CheckParameters, Passes, SchemeHolds, MessageHash;
    VerifyAbortsIff(env, sp, msg, anchor);
    forall i: nat | FirstBad(env, sp, msg, sp.openings, i)
      ensures !Aborts(env, sp, msg, sp.openings[i])
    {
    }
  }

  // ---------------------------------------------------------------- verifications that never return

  lemma {:induction false} OpeningsReturn(env: Env, sp: StateProof, msg: Message, openings: seq<RevealAt>)
    ensures !CheckOpenings(env, sp, msg, openings).Endless?
  {
    hide SlotPreimage, Climb, MessageHash, KeyPreimage;
    if openings != [] { OpeningsReturn(env, sp, msg, openings[1..]); }
  }

  /** Position `k` is the first one from `i` on whose coin is not covered; it is opened, but has no coin. */
  ghost predicate RunsOutAt(openings: seq<RevealAt>, positions: seq<U64>, xof: nat -> Byte, weight: U64, i: nat, k: nat)
    requires weight > 0
  {
    && i <= k < |positions| && !Yields(xof, weight, k) && positions[k] in RevealMap(openings)
    && forall n :: i <= n < k ==> CoinCovered(openings, positions, xof, weight, n)
  }

  lemma {:induction false} CoinsEndlessIff(
    openings: seq<RevealAt>, positions: seq<U64>, xof: nat -> Byte, weight: U64, i: nat)
    requires DistinctPositions(openings) && weight > 0 && i <= |positions|
    ensures CheckCoins(RevealMap(openings), positions, xof, weight, i).Endless?
       <==> exists k: nat :: RunsOutAt(openings, positions, xof, weight, i, k)
    decreases |positions| - i
  {
    if i < |positions| {
      hide Covers, RevealMap, Yields, CoinAt, DistinctPositions, InRange;
      CoinsEndlessIff(openings, positions, xof, weight, i + 1);
      if Yields(xof, weight, i) { CheckCoinIff(openings, i, positions[i], CoinAt(xof, weight, i)); }
      if CheckCoins(RevealMap(openings), positions, xof, weight, i).Endless? {
        if Yields(xof, weight, i) {
          var k: nat :| RunsOutAt(openings, positions, xof, weight, i + 1, k);
          assert RunsOutAt(openings, positions, xof, weight, i, k);
        } else {
          assert RunsOutAt(openings, positions, xof, weight, i, i);
        }
      }
      forall k: nat | RunsOutAt(openings, positions, xof, weight, i, k)
        ensures CheckCoins(RevealMap(openings), positions, xof, weight, i).Endless?
      {
        if k > i {
          assert CoinCovered(openings, positions, xof, weight, i);
          assert RunsOutAt(openings, positions, xof, weight, i + 1, k);
        }
      }
    }
  }

  /** Some position is opened, and all coins before it are covered, but the stream has no coin for it. */
  ghost predicate StreamRunsOut(env: Env, sp: StateProof, msg: Message, anchor: TrustAnchor) {
    && sp.signedWeight > 0
    && exists k: nat :: RunsOutAt(sp.openings, sp.positions, CoinStream(env, sp, msg, anchor), sp.signedWeight, 0, k)
  }

  /** A verification fails to return exactly when all else holds and it asks the stream for a coin it lacks. */
  lemma VerifyEndlessIff(env: Env, sp: StateProof, msg: Message, anchor: TrustAnchor)
    requires env.Valid()
    ensures Verify(env, sp, msg, anchor).Endless?
       <==> CheckProofs(env, sp, msg, anchor).Accept? && StreamRunsOut(env, sp, msg, anchor)
  {
    hide CheckOpenings, CheckCoins, VcBatchAccepts, CoinStream, MessageHash, RevealMap, RunsOutAt;
    OpeningsReturn(env, sp, msg, sp.openings);
    RevealMapKeys(sp.openings);
    if CheckProofs(env, sp, msg, anchor).Accept? {
      CheckedWeight(env, sp, msg, anchor);
      CoinsEndlessIff(sp.openings, sp.positions, CoinStream(env, sp, msg, anchor), sp.signedWeight, 0);
    }
  }

  /**
   A verification returns a verdict exactly if neither of these happens: an opening aborts behind only passing ones,
   or the stream runs out behind only covered coins.
   */
  lemma VerifyReturnsIff(env: Env, sp: StateProof, msg: Message, anchor: TrustAnchor)
    requires env.Valid()
    ensures (Verify(env, sp, msg, anchor).Accept? || Verify(env, sp, msg, anchor).Reject?)
       <==> && !(&& CheckParameters(env, sp, anchor).Accept?
                 && exists i: nat :: FirstBad(env, sp, msg, sp.openings, i) && Aborts(env, sp, msg, sp.openings[i]))
            && !(ProofsPass(env, sp, msg, anchor) && StreamRunsOut(env, sp, msg, anchor))
  {
    hide Verify, CheckParameters, CheckProofs, ProofsPass, FirstBad, Aborts, StreamRunsOut;
    VerifyAbortsIff(env, sp, msg, anchor);
    VerifyEndlessIff(env, sp, msg, anchor);
    CheckProofsIff(env, sp, msg, anchor);
  }

  /** Safe signature proofs and a stream that never runs out of acceptable words are enough. */
  lemma SafeReturns(env: Env, sp: StateProof, msg: Message, anchor: TrustAnchor)
    requires env.Valid()
    requires forall i :: 0 <= i < |sp.openings| ==>
               sp.openings[i].opening.sigSlot.IsEmpty() || Safe(sp.openings[i].opening.sigSlot.mss.proof)
    requires sp.signedWeight > 0 ==>
               forall p: nat :: AcceptedFrom(CoinStream(env, sp, msg, anchor), sp.signedWeight, p)
    ensures Verify(env, sp, msg, anchor).Accept? || Verify(env, sp, msg, anchor).Reject?
  {
    hide Verify, CheckProofs, CoinStream, AcceptedFrom, Yields;
    SafeNeverAborts(env, sp, msg, anchor);
    VerifyEndlessIff(env, sp, msg, anchor);
    if sp.signedWeight > 0 { EveryCoinIff(CoinStream(env, sp, msg, anchor), sp.signedWeight); }
  }

  // ---------------------------------------------------------------- which error comes first

  /** The signed weight is zero, or its logarithm does not exceed the proven one's. */
  predicate WeightTooLow(env: Env, sp: StateProof, anchor: TrustAnchor) {
    match env.ln(sp.signedWeight)
    case None => true
    case Some(ln) => ln <= anchor.lnProvenWeight
  }

  /** Too few coins for the gap between the two: less than 256 bits of strength, in fixed point. */
  predicate TooFewReveals(env: Env, sp: StateProof, anchor: TrustAnchor) {
    match env.ln(sp.signedWeight)
    case None => false
    case Some(ln) => ln > anchor.lnProvenWeight && |sp.positions| * (ln - anchor.lnProvenWeight) < 256 * 45427
  }

  /** Depths, then weight, then strength, then positions: the first of these that fails is the verdict. */
  lemma RefusedParameters(env: Env, sp: StateProof, msg: Message, anchor: TrustAnchor)
    requires env.Valid()
    ensures var v, d, e := Verify(env, sp, msg, anchor), sp.sigProofs.treeDepth, sp.partProofs.treeDepth;
            && (d > 20 ==> v == Reject(TreeDepthTooLarge("sig_proofs", d)))
            && (d <= 20 && e > 20 ==> v == Reject(TreeDepthTooLarge("part_proofs", e)))
            && (d <= 20 && e <= 20 && WeightTooLow(env, sp, anchor) ==> v == Reject(SignedWeightTooLow))
            && (d <= 20 && e <= 20 && TooFewReveals(env, sp, anchor) ==> v == Reject(InsufficientReveals))
            && ((d <= 20 && e <= 20 && !WeightTooLow(env, sp, anchor) && !TooFewReveals(env, sp, anchor)
                 && !DistinctPositions(sp.openings)) ==>
                  v == Reject(DuplicateRevealPosition))
    ensures CheckParameters(env, sp, anchor).Accept?
       <==> && sp.sigProofs.treeDepth <= 20 && sp.partProofs.treeDepth <= 20
            && !WeightTooLow(env, sp, anchor) && !TooFewReveals(env, sp, anchor) && DistinctPositions(sp.openings)
  {
    hide CheckOpenings, CheckCoins, CoinStream, MessageHash, VcBatchAccepts, RevealMap, DistinctPositions;
    RevealMapKeys(sp.openings);
  }

  /**
   The verdict on the first opening that does not pass: salt version, index width, key proof, signature, conversion and
   layout are checked in this order.
   */
  lemma RefusedOpening(env: Env, sp: StateProof, msg: Message, anchor: TrustAnchor, i: nat)
    requires env.Valid() && CheckParameters(env, sp, anchor).Accept? && FirstBad(env, sp, msg, sp.openings, i)
    ensures i < |sp.openings| && !sp.openings[i].opening.sigSlot.IsEmpty()
    ensures var o := sp.openings[i];
            var mss, v := o.opening.sigSlot.mss, o.opening.participant.pk;
            var leaf := env.sum.digest(KeyPreimage(KeyEpochStart(v, msg.lastRound), mss.verifyingKey));
            var root := Climb(env.sum, leaf, VcIndex(mss.vcIndex, mss.proof.treeDepth), mss.proof.path);
            Verify(env, sp, msg, anchor)
            == if env.falcon.saltVersion(mss.signature) != sp.saltVersion then Reject(SaltVersionMismatch(o.position))
               else if Overflows(env.build, mss.proof.treeDepth) then Panic
               else if root != v.commitment then Reject(VcProofFailed(o.position))
               else if !env.falcon.verifies(mss.verifyingKey, mss.signature, MessageHash(env, msg)) then
                 Reject(FalconVerifyFailed(o.position))
               else if env.falcon.toCt(mss.signature).None? then Reject(SigConversionFailed(o.position))
               else Panic
  {
    hide CheckParameters, CheckOpenings, CheckCoins, CoinStream, MessageHash, VcBatchAccepts, FirstBad, Passes;
    hide CheckOpening, Verify, KeyPreimage, Climb, VcIndex, Overflows;
    BadInRange(env, sp, msg, sp.openings, i);
    BadOpening(env, sp, msg, sp.openings[i]);
    FirstBadOpening(env, sp, msg, sp.openings, i);
    VerifyFromOpenings(env, sp, msg, anchor);
  }

  /** What the openings fail with is the verdict. */
  lemma VerifyFromOpenings(env: Env, sp: StateProof, msg: Message, anchor: TrustAnchor)
    requires env.Valid() && CheckParameters(env, sp, anchor).Accept?
    ensures match CheckOpenings(env, sp, msg, sp.openings)
            case Accept(_) => true
            case Reject(e) => Verify(env, sp, msg, anchor) == Reject(e)
            case Panic => Verify(env, sp, msg, anchor) == Panic
            case Endless => Verify(env, sp, msg, anchor) == Endless
  {
    hide CheckParameters, CheckOpenings, CheckCoins, CoinStream, MessageHash, VcBatchAccepts;
  }

  /** How one opening fails. */
  lemma BadOpening(env: Env, sp: StateProof, msg: Message, o: RevealAt)
    ensures var hash := MessageHash(env, msg);
            var mss, v := o.opening.sigSlot.mss, o.opening.participant.pk;
            var leaf := env.sum.digest(KeyPreimage(KeyEpochStart(v, msg.lastRound), mss.verifyingKey));
            var root := Climb(env.sum, leaf, VcIndex(mss.vcIndex, mss.proof.treeDepth), mss.proof.path);
            !Passes(env, sp, msg, o) ==>
              && !o.opening.sigSlot.IsEmpty()
              && Outcome(CheckOpening(env, sp.saltVersion, o, msg.lastRound, hash))
              == if env.falcon.saltVersion(mss.signature) != sp.saltVersion then Reject(SaltVersionMismatch(o.position))
                 else if Overflows(env.build, mss.proof.treeDepth) then Panic
                 else if root != v.commitment then Reject(VcProofFailed(o.position))
                 else if !env.falcon.verifies(mss.verifyingKey, mss.signature, hash) then
                   Reject(FalconVerifyFailed(o.position))
                 else if env.falcon.toCt(mss.signature).None? then Reject(SigConversionFailed(o.position))
                 else Panic
  {
    hide KeyPreimage, Climb, MessageHash, SlotPrefix, PathArea, VcIndex, KeyEpochStart;
  }

  /** Behind passing openings the signature batch is checked before the participant batch. */
  lemma RefusedTrees(env: Env, sp: StateProof, msg: Message, anchor: TrustAnchor)
    requires env.Valid() && CheckParameters(env, sp, anchor).Accept?
    requires forall i :: 0 <= i < |sp.openings| ==> Passes(env, sp, msg, sp.openings[i])
    ensures var v := Verify(env, sp, msg, anchor);
            var sig := VcBatchAccepts(env.sum, SlotBatch(env, sp), sp.sigProofs.treeDepth, sp.sigProofs.path,
                                      sp.sigCommitment);
            var part := VcBatchAccepts(env.sum, ParticipantBatch(env, sp), sp.partProofs.treeDepth,
                                       sp.partProofs.path, anchor.partCommitment);
            && (!sig ==> v == Reject(SigProofFailed))
            && (sig && !part ==> v == Reject(PartProofFailed))
  {
    hide CheckParameters, CheckOpenings, CheckCoins, CoinStream, MessageHash, VcBatchAccepts, OpeningPasses;
    hide SigElems, PartElems, OpeningLeaves;
    CheckOpeningsIff(env, sp, msg, sp.openings);
  }

  // ---------------------------------------------------------------- which error a coin is refused with

  /** Coin `k` is the first one that no opening covers, and everything before the coins passes. */
  ghost predicate FirstUncovered(env: Env, sp: StateProof, msg: Message, anchor: TrustAnchor, k: nat)
    requires env.Valid() && sp.signedWeight > 0 && k < |sp.positions|
  {
    var xof := CoinStream(env, sp, msg, anchor);
    && ProofsPass(env, sp, msg, anchor)
    && (forall n :: 0 <= n < k ==> CoinCovered(sp.openings, sp.positions, xof, sp.signedWeight, n))
    && !CoinCovered(sp.openings, sp.positions, xof, sp.signedWeight, k)
  }

  /** What a coin that misses the opening at its position is refused with. */
  ghost function CoinVerdict(o: RevealAt, xof: nat -> Byte, weight: U64, k: nat): Verdict<TrustAnchor>
    requires weight > 0
  {
    if !Yields(xof, weight, k) then Endless
    else if o.opening.sigSlot.l + o.opening.participant.weight >= 0x1_0000_0000_0000_0000 then
      Reject(WeightRangeOverflow(o.position))
    else Reject(CoinOutOfRange(k, o.position, CoinAt(xof, weight, k)))
  }

  /**
   The verdict on the first uncovered coin: its position was not opened, or the range of the opening there passes
   2^64, or it ends within 64 bits and misses the coin, or there is no such coin.
   */
  lemma RefusedCoin(env: Env, sp: StateProof, msg: Message, anchor: TrustAnchor, k: nat, j: nat)
    requires env.Valid() && sp.signedWeight > 0 && k < |sp.positions| && FirstUncovered(env, sp, msg, anchor, k)
    ensures (forall i :: 0 <= i < |sp.openings| ==> sp.openings[i].position != sp.positions[k]) ==>
              Verify(env, sp, msg, anchor) == Reject(MissingReveal(sp.positions[k]))
    ensures j < |sp.openings| && sp.openings[j].position == sp.positions[k] ==>
              Verify(env, sp, msg, anchor)
              == CoinVerdict(sp.openings[j], CoinStream(env, sp, msg, anchor), sp.signedWeight, k)
  {
    hide CheckProofs, CheckCoins, ProofsPass, CoinStream, MessageHash, RevealMap, Yields, CoinAt;
    CheckProofsIff(env, sp, msg, anchor);
    CheckedWeight(env, sp, msg, anchor);
    PassedPositions(env, sp, msg, anchor);
    FirstBadCoin(sp.openings, sp.positions, CoinStream(env, sp, msg, anchor), sp.signedWeight, 0, k);
    RevealMapKeys(sp.openings);
    if j < |sp.openings| && sp.openings[j].position == sp.positions[k] {
      RevealMapAt(sp.openings, j);
      hide DistinctPositions;
      assert !(Yields(CoinStream(env, sp, msg, anchor), sp.signedWeight, k)
               && InRange(sp.openings[j].opening, CoinAt(CoinStream(env, sp, msg, anchor), sp.signedWeight, k)));
    }
  }

  lemma PassedPositions(env: Env, sp: StateProof, msg: Message, anchor: TrustAnchor)
    requires ProofsPass(env, sp, msg, anchor)
    ensures DistinctPositions(sp.openings)
  {
  }
}
