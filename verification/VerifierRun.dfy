/** State proof verification as it runs: loops, early returns and a generator that advances. */
module VerifierRun {
  import opened Bytes
  import opened Hashing
  import opened OrderedMap
  import opened BatchProof
  import opened VcTree
  import opened VcBatch
  import opened Types
  import opened Coin
  import opened Leaves
  import opened Verifier

  // ---------------------------------------------------------------- lengths fixed by the program's types

  ghost predicate ValidOpening(o: RevealAt) {
    ValidMss(o.opening.sigSlot.mss) && ValidParticipant(o.opening.participant)
  }

  ghost predicate DigestPath(path: seq<Digest>) {
    forall i :: 0 <= i < |path| ==> |path[i]| == SUMHASH_SIZE
  }

  ghost predicate ValidOpenings(openings: seq<RevealAt>) {
    forall i :: 0 <= i < |openings| ==> ValidOpening(openings[i])
  }

  ghost predicate ValidStateProof(sp: StateProof) {
    && |sp.sigCommitment| == SUMHASH_SIZE && ValidOpenings(sp.openings)
    && DigestPath(sp.sigProofs.path) && DigestPath(sp.partProofs.path)
  }

  // ---------------------------------------------------------------- one opening

  method RunScheme(
    env: Env, mss: MerkleSignature, v: MerkleVerifier, round: U64, hash: Digest, pos: U64) returns (r: Verdict<()>)
    ensures r == CheckScheme(env, mss, v, round, hash, pos)
  {
    hide KeyPreimage;
    var leaf := env.sum.digest(KeyPreimage(KeyEpochStart(v, round), mss.verifyingKey));
    var answer := VerifyVcWith(env.sum, env.build, mss.proof, leaf, mss.vcIndex, v.commitment);
    if answer.Overflow? { return Panic; }
    if !answer.ok { return Reject(VcProofFailed(pos)); }
    if !env.falcon.verifies(mss.verifyingKey, mss.signature, hash) { return Reject(FalconVerifyFailed(pos)); }
    r := Accept(());
  }

  method RunSlotLeaf(env: Env, slot: SigSlot, pos: U64) returns (r: Verdict<Digest>)
    requires env.Valid() && ValidMss(slot.mss)
    ensures r == SlotLeaf(env, slot, pos)
  {
    hide MssBytes;
    if slot.IsEmpty() { return Accept(env.sum.digest(MERKLE_VC_BOTTOM_LEAF)); }
    var bytes := MssToBytes(env.falcon, slot.mss);
    match bytes
    case Fixed(b) => r := Accept(env.sum.digest(DOMAIN_SIG_SLOT + (LE(8, slot.l) + b)));
    case ConversionFailed => r := Reject(SigConversionFailed(pos));
    case Panics => r := Panic;
  }

  method RunOpening(env: Env, saltVersion: Byte, o: RevealAt, round: U64, hash: Digest) returns (r: Verdict<LeafPair>)
    requires env.Valid() && ValidOpening(o)
    ensures r == CheckOpening(env, saltVersion, o, round, hash)
  {
    hide CheckScheme, SlotLeaf;
    var slot := o.opening.sigSlot;
    if !slot.IsEmpty() {
      if env.falcon.saltVersion(slot.mss.signature) != saltVersion { return Reject(SaltVersionMismatch(o.position)); }
      var _ :- RunScheme(env, slot.mss, o.opening.participant.pk, round, hash, o.position);
    }
    var sig :- RunSlotLeaf(env, slot, o.position);
    r := Accept(LeafPair(sig, ParticipantLeaf(env, o.opening.participant)));
  }

  /** The leaves found so far in front of whatever the rest yields. */
  ghost function Before(done: seq<LeafPair>, rest: Verdict<seq<LeafPair>>): Verdict<seq<LeafPair>> {
    if rest.Accept? then Accept(done + rest.value) else rest
  }

  lemma OpeningsStep(env: Env, sp: StateProof, msg: Message, done: seq<LeafPair>, i: nat)
    requires i < |sp.openings|
    ensures Before(done, CheckOpenings(env, sp, msg, sp.openings[i..]))
         == match CheckOpening(env, sp.saltVersion, sp.openings[i], msg.lastRound, MessageHash(env, msg))
            case Accept(first) => Before(done + [first], CheckOpenings(env, sp, msg, sp.openings[i + 1..]))
            case Reject(e) => Reject(e)
            case Panic => Panic
            case Endless => Endless
  {
    hide CheckOpening, MessageHash;
    assert sp.openings[i..][1..] == sp.openings[i + 1..];
    var rest := CheckOpenings(env, sp, msg, sp.openings[i + 1..]);
    var first := CheckOpening(env, sp.saltVersion, sp.openings[i], msg.lastRound, MessageHash(env, msg));
    if first.Accept? && rest.Accept? {
      assert done + ([first.value] + rest.value) == done + [first.value] + rest.value;
    }
  }

  lemma NoOpenings(env: Env, sp: StateProof, msg: Message, openings: seq<RevealAt>)
    ensures CheckOpenings(env, sp, msg, openings[|openings|..]) == Accept([])
    ensures SigElems(openings[..0], []) == [] && PartElems(openings[..0], []) == []
  {
  }

  lemma ElemsSnoc(openings: seq<RevealAt>, leaves: seq<LeafPair>, i: nat, pair: LeafPair)
    requires i < |openings| && |leaves| == i
    ensures SigElems(openings[..i + 1], leaves + [pair])
         == SigElems(openings[..i], leaves) + [Entry(openings[i].position, pair.sig)]
    ensures PartElems(openings[..i + 1], leaves + [pair])
         == PartElems(openings[..i], leaves) + [Entry(openings[i].position, pair.part)]
  {
  }

  /** The per-reveal loop, which fills the two batch lists. */
  method RunOpenings(env: Env, sp: StateProof, msg: Message) returns (r: Verdict<(seq<Elem>, seq<Elem>)>)
    requires env.Valid() && ValidStateProof(sp)
    ensures match CheckOpenings(env, sp, msg, sp.openings)
            case Accept(leaves) =>
              && |leaves| == |sp.openings|
              && r == Accept((SigElems(sp.openings, leaves), PartElems(sp.openings, leaves)))
            case Reject(e) => r == Reject(e)
            case Panic => r == Panic
            case Endless => r == Endless
  {
    hide CheckOpening, MessageHash, SigElems, PartElems, CheckOpenings;
    CheckOpeningsLength(env, sp, msg, sp.openings);
    NoOpenings(env, sp, msg, sp.openings);
    var hash := MessageHash(env, msg);
    var sigLeaves: seq<Elem>, partLeaves: seq<Elem> := [], [];
    ghost var done: seq<LeafPair> := [];
    assert sp.openings[0..] == sp.openings;
    assert Before(done, CheckOpenings(env, sp, msg, sp.openings)) == CheckOpenings(env, sp, msg, sp.openings) by {
      var all := CheckOpenings(env, sp, msg, sp.openings);
      if all.Accept? { assert [] + all.value == all.value; }
    }
    var i := 0;
    while i < |sp.openings|
      invariant 0 <= i <= |sp.openings| && |done| == i
      invariant sigLeaves == SigElems(sp.openings[..i], done) && partLeaves == PartElems(sp.openings[..i], done)
      invariant Before(done, CheckOpenings(env, sp, msg, sp.openings[i..])) == CheckOpenings(env, sp, msg, sp.openings)
    {
      var o := sp.openings[i];
      OpeningsStep(env, sp, msg, done, i);
      var pair :- RunOpening(env, sp.saltVersion, o, msg.lastRound, hash);
      sigLeaves := sigLeaves + [Entry(o.position, pair.sig)];
      partLeaves := partLeaves + [Entry(o.position, pair.part)];
      ElemsSnoc(sp.openings, done, i, pair);
      done := done + [pair];
      i := i + 1;
    }
    assert sp.openings[i..] == sp.openings[|sp.openings|..] && sp.openings[..i] == sp.openings && done + [] == done;
    r := Accept((sigLeaves, partLeaves));
  }

  // ---------------------------------------------------------------- coins

  /** Collects the openings by position; later ones overwrite earlier ones. */
  method CollectOpenings(openings: seq<RevealAt>) returns (m: map<U64, Reveal>)
    ensures m == RevealMap(openings)
  {
    m := map[];
    var i := 0;
    while i < |openings|
      invariant 0 <= i <= |openings| && m == RevealMap(openings[..i])
    {
      assert openings[..i + 1][..i] == openings[..i];
      m := m[openings[i].position := openings[i].opening];
      i := i + 1;
    }
    assert openings[..i] == openings;
  }

  method RunCoins(env: Env, sp: StateProof, m: map<U64, Reveal>, seed: Seed) returns (r: Verdict<()>)
    requires seed.Valid() && seed.signedWeight > 0
    requires CheckCoins(m, sp.positions, env.shake(SeedBytes(seed)), seed.signedWeight, 0) != Endless
    ensures r == CheckCoins(m, sp.positions, env.shake(SeedBytes(seed)), seed.signedWeight, 0)
  {
    hide CoinAt, Threshold, Yields;
    var coins := new CoinGenerator(env.shake, seed);
    var i := 0;
    while i < |sp.positions|
      invariant 0 <= i <= |sp.positions| && coins.Valid() && coins.drawn == i && fresh(coins)
      invariant CheckCoins(m, sp.positions, coins.xof, coins.signedWeight, i)
             == CheckCoins(m, sp.positions, coins.xof, coins.signedWeight, 0)
    {
      var pos := sp.positions[i];
      if pos !in m { return Reject(MissingReveal(pos)); }
      assert Yields(coins.xof, coins.signedWeight, i);
      var coin := coins.NextCoin();
      var lower, upper := m[pos].sigSlot.l, m[pos].sigSlot.l + m[pos].participant.weight;
      if upper >= TWO_64 { return Reject(WeightRangeOverflow(pos)); }
      if !(lower <= coin < upper) { return Reject(CoinOutOfRange(i, pos, coin)); }
      i := i + 1;
    }
    r := Accept(());
  }

  // ---------------------------------------------------------------- the whole verification

  method VerifyStateProof(env: Env, sp: StateProof, msg: Message, anchor: TrustAnchor) returns (r: Verdict<TrustAnchor>)
    requires env.Valid() && ValidStateProof(sp) && |anchor.partCommitment| == SUMHASH_SIZE
    requires Verify(env, sp, msg, anchor) != Endless
    ensures r == Verify(env, sp, msg, anchor)
    ensures r.Accept? ==> r.value.partCommitment == msg.voters && r.value.lnProvenWeight == msg.lnProvenWeight
  {
    hide CheckOpenings, CheckCoins, VcBatchAccepts, SeedBytes, RevealMap;
    if sp.sigProofs.treeDepth > SP_VC_MAX_DEPTH {
      return Reject(TreeDepthTooLarge("sig_proofs", sp.sigProofs.treeDepth));
    }
    if sp.partProofs.treeDepth > SP_VC_MAX_DEPTH {
      return Reject(TreeDepthTooLarge("part_proofs", sp.partProofs.treeDepth));
    }
    var ln := env.ln(sp.signedWeight);
    if ln.None? || ln.value <= anchor.lnProvenWeight { return Reject(SignedWeightTooLow); }
    var gap := ln.value - anchor.lnProvenWeight;
    if |sp.positions| * gap < STRENGTH_TARGET * LN2_FIXED_POINT { return Reject(InsufficientReveals); }
    var m := CollectOpenings(sp.openings);
    if |m| != |sp.openings| { return Reject(DuplicateRevealPosition); }
    var batches :- RunOpenings(env, sp, msg);
    var sigAnswer := VerifyBatchVc(env.sum, env.build, sp.sigProofs, batches.0, sp.sigCommitment);
    if !sigAnswer.ok { return Reject(SigProofFailed); }
    var partAnswer := VerifyBatchVc(env.sum, env.build, sp.partProofs, batches.1, anchor.partCommitment);
    if !partAnswer.ok { return Reject(PartProofFailed); }
    var seed := Seed(anchor.partCommitment, anchor.lnProvenWeight, sp.sigCommitment, sp.signedWeight,
                     MessageHash(env, msg));
    var _ :- RunCoins(env, sp, m, seed);
    r := Accept(NextAnchor(msg));
  }
}
