/**
 Openings that share a slot. The verifier compares whole positions, the trees only see their low bits, and the
 batch check keeps the last entry of every slot. Exactly on positions that agree in their low bits an accepted
 proof can open participants that nobody committed to.
 */
module Aliasing {
  import opened Bytes
  import opened Bits
  import opened Hashing
  import opened MerkleTree
  import opened VcTree
  import opened VcBatch
  import opened OrderedMap
  import opened Types
  import opened Coin
  import opened Leaves
  import opened Verifier
  import opened Soundness
  import opened Completeness
  import opened Witness

  // ---------------------------------------------------------------- nothing binds an earlier opening

  /** The proof with one more opening in front. */
  function WithOpening(sp: StateProof, extra: RevealAt): StateProof {
    sp.(openings := [extra] + sp.openings)
  }

  /** The opening shares its slot in both trees with opening `j`, and no opening has its position. */
  ghost predicate Shadowed(sp: StateProof, extra: RevealAt, j: nat) {
    && j < |sp.openings|
    && SlotOf(sp.openings[j].position, sp.sigProofs.treeDepth) == SlotOf(extra.position, sp.sigProofs.treeDepth)
    && SlotOf(sp.openings[j].position, sp.partProofs.treeDepth) == SlotOf(extra.position, sp.partProofs.treeDepth)
    && forall k :: 0 <= k < |sp.openings| ==> sp.openings[k].position != extra.position
  }

  lemma BatchesGrow(env: Env, sp: StateProof, extra: RevealAt)
    ensures SlotBatch(env, WithOpening(sp, extra))
         == [] + [Entry(extra.position, SlotDigest(env, extra.opening.sigSlot))] + SlotBatch(env, sp)
    ensures ParticipantBatch(env, WithOpening(sp, extra))
         == [] + [Entry(extra.position, ParticipantLeaf(env, extra.opening.participant))] + ParticipantBatch(env, sp)
  {
    hide SlotDigest, ParticipantLeaf;
  }

  lemma ShadowedTreesAccept(env: Env, sp: StateProof, extra: RevealAt, j: nat, commitment: Digest)
    requires Shadowed(sp, extra, j)
    requires sp.sigProofs.treeDepth <= SP_VC_MAX_DEPTH && sp.partProofs.treeDepth <= SP_VC_MAX_DEPTH
    ensures var more := WithOpening(sp, extra);
            var d, e, p, q := sp.sigProofs.treeDepth, sp.partProofs.treeDepth, sp.sigProofs.path, sp.partProofs.path;
            && (VcBatchAccepts(env.sum, SlotBatch(env, more), d, p, sp.sigCommitment)
                <==> VcBatchAccepts(env.sum, SlotBatch(env, sp), d, p, sp.sigCommitment))
            && (VcBatchAccepts(env.sum, ParticipantBatch(env, more), e, q, commitment)
                <==> VcBatchAccepts(env.sum, ParticipantBatch(env, sp), e, q, commitment))
  {
    hide SlotDigest, ParticipantLeaf, VcBatchAccepts, SlotOf;
    var slots, members := SlotBatch(env, sp), ParticipantBatch(env, sp);
    var slot := Entry(extra.position, SlotDigest(env, extra.opening.sigSlot));
    var member := Entry(extra.position, ParticipantLeaf(env, extra.opening.participant));
    BatchesGrow(env, sp, extra);
    AliasedEntryIgnored(env.sum, [], slot, slots, j, sp.sigProofs.treeDepth, sp.sigProofs.path, sp.sigCommitment);
    AliasedEntryIgnored(env.sum, [], member, members, j, sp.partProofs.treeDepth, sp.partProofs.path, commitment);
    assert [] + slots == slots && [] + members == members;
  }

  lemma CoversMore(openings: seq<RevealAt>, extra: RevealAt, pos: U64, coin: nat)
    requires Covers(openings, pos, coin)
    ensures Covers([extra] + openings, pos, coin)
  {
    var j :| 0 <= j < |openings| && openings[j].position == pos && InRange(openings[j].opening, coin);
    assert ([extra] + openings)[j + 1] == openings[j];
  }

  /**
   In every environment and for every accepted proof, an opening put in front at a new position of an opened
   slot is accepted with it, whatever participant it names, as long as it passes on its own.
   */
  lemma ShadowedOpeningAccepted(env: Env, sp: StateProof, msg: Message, anchor: TrustAnchor, extra: RevealAt, j: nat)
    requires env.Valid() && Verify(env, sp, msg, anchor).Accept? && Shadowed(sp, extra, j)
    requires OpeningPasses(env, sp.saltVersion, extra, msg.lastRound, MessageHash(env, msg))
    ensures Verify(env, WithOpening(sp, extra), msg, anchor) == Accept(NextAnchor(msg))
  {
    hide Verify, VcBatchAccepts, OpeningPasses, Covers, CoinStream, MessageHash, SlotBatch, ParticipantBatch;
    hide Yields, CoinAt;
    hide SlotOf;
    var more := WithOpening(sp, extra);
    var xof := CoinStream(env, sp, msg, anchor);
    VerifyIff(env, sp, msg, anchor);
    ShadowedTreesAccept(env, sp, extra, j, anchor.partCommitment);
    assert CoinStream(env, more, msg, anchor) == xof by { SameStream(env, sp, more, msg, anchor); }
    forall i | 0 <= i < |sp.positions|
      ensures CoinCovered(more.openings, sp.positions, xof, sp.signedWeight, i)
    {
      assert CoinCovered(sp.openings, sp.positions, xof, sp.signedWeight, i);
      CoversMore(sp.openings, extra, sp.positions[i], CoinAt(xof, sp.signedWeight, i));
    }
    VerifyIff(env, more, msg, anchor);
  }

  lemma SameStream(env: Env, sp: StateProof, more: StateProof, msg: Message, anchor: TrustAnchor)
    requires sp.sigCommitment == more.sigCommitment && sp.signedWeight == more.signedWeight
    ensures CoinStream(env, sp, msg, anchor) == CoinStream(env, more, msg, anchor)
  {
  }

  /**
   So acceptance does not make every opening authentic: with trees of depth `d`, opening the slot of `p` once
   more at `p + 2^d`, as an unsigned slot of any participant that is not the committed one, is accepted too.
   */
  lemma AcceptedButNotAuthentic(
    env: Env, sp: StateProof, msg: Message, anchor: TrustAnchor, roster: seq<Participant>, stranger: Participant,
    slot: SigSlot, j: nat, d: nat)
    requires env.Valid() && Verify(env, sp, msg, anchor).Accept? && j < |sp.openings|
    requires sp.sigProofs.treeDepth == sp.partProofs.treeDepth == d && slot.IsEmpty()
    requires sp.openings[j].position + Pow2(d) < TWO_64
    requires forall k :: 0 <= k < |sp.openings| ==> sp.openings[k].position != sp.openings[j].position + Pow2(d)
    requires SlotOf(sp.openings[j].position, d) < |roster| ==> stranger != roster[SlotOf(sp.openings[j].position, d)]
    ensures var extra := RevealAt(sp.openings[j].position + Pow2(d), Reveal(slot, stranger));
            && Verify(env, WithOpening(sp, extra), msg, anchor) == Accept(NextAnchor(msg))
            && !Authentic(extra, roster, d)
  {
    hide Verify, SlotOf, OpeningPasses, MessageHash, Pow2;
    var extra := RevealAt(sp.openings[j].position + Pow2(d), Reveal(slot, stranger));
    NextAlias(sp.openings[j].position, d);
    EmptySlotPasses(env, sp.saltVersion, extra, msg.lastRound, MessageHash(env, msg));
    ShadowedOpeningAccepted(env, sp, msg, anchor, extra, j);
  }

  lemma NextAlias(p: nat, d: nat)
    ensures SlotOf(p + Pow2(d), d) == SlotOf(p, d)
  {
    hide Pow2;
    DivideSum(1, p, Pow2(d));
    var m := Pow2(d);
    QuotientUnique(m + p, p / m + 1, p % m, m);
  }

  // ---------------------------------------------------------------- the exact condition on positions

  /** No two of these positions address one slot. */
  ghost predicate Unaliased(positions: seq<U64>, depth: nat) {
    forall i, j :: 0 <= i < j < |positions| ==> SlotOf(positions[i], depth) != SlotOf(positions[j], depth)
  }

  ghost predicate OpenedAt(openings: seq<RevealAt>, positions: seq<U64>) {
    |openings| == |positions| && forall k :: 0 <= k < |positions| ==> openings[k].position == positions[k]
  }

  /** An accepted proof that opens these positions of a committed roster of this depth. */
  ghost predicate AcceptedOver(
    env: Env, sp: StateProof, msg: Message, anchor: TrustAnchor, roster: seq<Participant>, positions: seq<U64>,
    depth: nat)
  {
    && env.Valid() && Verify(env, sp, msg, anchor).Accept? && OpenedAt(sp.openings, positions)
    && CommitsTo(env, anchor.partCommitment, roster) && env.sum.Sized(sp.partProofs.path)
    && CeilLog2(|roster|) == depth
  }

  /** Every opening is authentic, or inputs hashed on the two sides collide. */
  ghost predicate AuthenticOrCollides(env: Env, sp: StateProof, roster: seq<Participant>)
    requires ValidRoster(roster)
  {
    || (forall k :: 0 <= k < |sp.openings| ==> Authentic(sp.openings[k], roster, sp.partProofs.treeDepth))
    || env.sum.CollisionBetween(ParticipantSidePreimages(env, sp), RosterPreimages(env, roster))
  }

  /** Acceptance with openings at these positions always forces authenticity. */
  ghost predicate ForcesAuthenticity(positions: seq<U64>, depth: nat) {
    forall env: Env, sp: StateProof, msg: Message, anchor: TrustAnchor, roster: seq<Participant> ::
      AcceptedOver(env, sp, msg, anchor, roster, positions, depth) ==>
        ValidRoster(roster) && AuthenticOrCollides(env, sp, roster)
  }

  lemma UnaliasedForces(positions: seq<U64>, depth: nat)
    requires Unaliased(positions, depth)
    ensures ForcesAuthenticity(positions, depth)
  {
    hide Verify, CommitsTo, SlotOf, Established, CoinStream, ParticipantSidePreimages, RosterPreimages;
    forall env: Env, sp: StateProof, msg: Message, anchor: TrustAnchor, roster: seq<Participant> |
      AcceptedOver(env, sp, msg, anchor, roster, positions, depth)
      ensures ValidRoster(roster) && AuthenticOrCollides(env, sp, roster)
    {
      RosterValid(env, anchor.partCommitment, roster);
      StepSoundness(env, sp, msg, anchor, roster);
      if Established(env, sp, msg, anchor, roster) {
        EstablishedDepth(env, sp, msg, anchor, roster);
        EstablishedForAll(env, sp, msg, anchor, roster);
      }
    }
  }

  // ---------------------------------------------------------------- a hash without collisions on few inputs

  /** The digest that starts with this byte. */
  function Tag(k: Byte): (t: Digest)
    ensures |t| == SUMHASH_SIZE && t[0] == k && t[1] == 0
  {
    [k] + Zeros(SUMHASH_SIZE - 1)
  }

  /** Nodes are numbered by their height, leaves by the first byte of the weight, the filler stands apart. */
  function TagDigest(m: seq<Byte>): (t: Digest)
    ensures |t| == SUMHASH_SIZE
  {
    if |m| > 2 && m[0] == 0x4d && m[1] == 0x41 then
      var height: nat := m[2];
      Tag((height + 1) % 256)
    else if |m| > 3 then [0, m[3]] + Zeros(SUMHASH_SIZE - 2)
    else Tag(254)
  }

  function TagHash(): HashFn {
    HashFn(SUMHASH_SIZE, TagDigest)
  }

  const MEMBER: Participant := NO_PARTICIPANT

  const STRANGER: Participant := Participant(NO_VERIFIER, 1)

  /** The node over two equal children of height `k`. */
  function TwinNode(k: Byte): seq<Byte> {
    NodePreimage(Tag(k), Tag(k))
  }

  ghost predicate IsTwinNode(m: seq<Byte>) {
    exists k: Byte :: k < 100 && m == TwinNode(k)
  }

  /** The inputs that the example hashes. */
  ghost predicate Few(m: seq<Byte>) {
    || m == ParticipantPreimage(MEMBER) || m == ParticipantPreimage(STRANGER)
    || m == MERKLE_VC_BOTTOM_LEAF || IsTwinNode(m)
  }

  lemma FewDigests(k: Byte)
    requires k < 100
    ensures TagDigest(TwinNode(k)) == Tag(k + 1) && TagDigest(MERKLE_VC_BOTTOM_LEAF) == Tag(254)
    ensures TagDigest(ParticipantPreimage(MEMBER)) == Tag(0)
    ensures TagDigest(ParticipantPreimage(STRANGER))[0] == 0 && TagDigest(ParticipantPreimage(STRANGER))[1] == 1
  {
    assert TwinNode(k)[0] == 0x4d && TwinNode(k)[1] == 0x41 && TwinNode(k)[2] == k;
    WeightByte(MEMBER);
    WeightByte(STRANGER);
    assert [0, 0] + Zeros(SUMHASH_SIZE - 2) == Tag(0);
  }

  lemma WeightByte(p: Participant)
    requires |p.pk.commitment| == SUMHASH_SIZE && p.weight < 256
    ensures |ParticipantPreimage(p)| > 3 && ParticipantPreimage(p)[0] == 0x73 && ParticipantPreimage(p)[3] == p.weight
  {
    assert LE(8, p.weight)[0] == p.weight;
  }

  lemma NoCollisionAmongFew(A: set<seq<Byte>>, B: set<seq<Byte>>)
    requires forall m :: m in A || m in B ==> Few(m)
    ensures !TagHash().CollisionBetween(A, B)
  {
    hide TagDigest, Tag, ParticipantPreimage, TwinNode;
    FewDigests(0);
    forall a, b | a in A && b in B && TagDigest(a) == TagDigest(b)
      ensures a == b
    {
      if IsTwinNode(a) {
        var k: Byte :| k < 100 && a == TwinNode(k);
        FewDigests(k);
      }
      if IsTwinNode(b) {
        var k: Byte :| k < 100 && b == TwinNode(k);
        FewDigests(k);
      }
    }
  }

  // ---------------------------------------------------------------- a tree of equal leaves

  function Uniform(n: nat, t: Digest): (s: seq<Digest>)
    ensures |s| == n && forall i :: 0 <= i < n ==> s[i] == t
  {
    seq(n, _ => t)
  }

  lemma UniformParent(n: nat, k: Byte, pad: Digest, j: nat)
    requires n % 2 == 0 && j < (n + 1) / 2
    ensures ParentPreimage(Uniform(n, Tag(k)), j, pad) == TwinNode(k)
  {
    hide Tag;
  }

  lemma UniformLevel(n: nat, k: Byte, pad: Digest)
    requires n % 2 == 0 && k < 100
    ensures Parents(TagHash(), Uniform(n, Tag(k)), pad) == Uniform(n / 2, Tag(k + 1))
    ensures forall m :: m in LevelPreimages(Uniform(n, Tag(k)), pad) ==> m == TwinNode(k)
  {
    hide Tag, TagDigest, TwinNode, ParentPreimage;
    var row := Uniform(n, Tag(k));
    FewDigests(k);
    forall j | 0 <= j < (|row| + 1) / 2
      ensures ParentPreimage(row, j, pad) == TwinNode(k)
    {
      UniformParent(n, k, pad, j);
    }
  }

  ghost predicate AllTwinNodes(inputs: set<seq<Byte>>) {
    forall m :: m in inputs ==> IsTwinNode(m)
  }

  lemma {:induction false} UniformTreeInputs(d: nat, k: Byte, pad: Digest)
    requires k + d < 100
    ensures AllTwinNodes(TreePreimages(TagHash(), Uniform(Pow2(d), Tag(k)), pad))
    decreases d
  {
    hide Tag, TagHash, Uniform, TreePreimages, AllTwinNodes, Levels, Parents;
    if d == 0 {
      SingleHashesNothing(TagHash(), Uniform(1, Tag(k)), pad);
    } else {
      var half := Pow2(d - 1);
      assert Pow2(d) == 2 * half;
      UniformTreeInputs(d - 1, k + 1, pad);
      hide Pow2;
      UniformStep(2 * half, k, pad);
    }
  }

  lemma SingleHashesNothing(h: HashFn, leaves: seq<Digest>, pad: Digest)
    requires |leaves| == 1
    ensures AllTwinNodes(TreePreimages(h, leaves, pad))
  {
  }

  lemma UniformStep(n: nat, k: Byte, pad: Digest)
    requires n > 1 && n % 2 == 0 && k < 99
    requires AllTwinNodes(TreePreimages(TagHash(), Uniform(n / 2, Tag(k + 1)), pad))
    ensures AllTwinNodes(TreePreimages(TagHash(), Uniform(n, Tag(k)), pad))
  {
    hide Tag, TagHash, TreePreimages, Parents, LevelPreimages, TwinNode;
    var row := Uniform(n, Tag(k));
    UniformLevel(n, k, pad);
    TreeInputsUnfold(TagHash(), row, pad);
    forall m | m in TreePreimages(TagHash(), row, pad)
      ensures IsTwinNode(m)
    {
      if m in LevelPreimages(row, pad) { assert m == TwinNode(k); }
    }
  }

  // ---------------------------------------------------------------- the example

  /** A full committee of weightless members, so that only a stranger can answer for a coin. */
  function Crowd(d: nat): seq<Participant> {
    seq(Pow2(d), _ => MEMBER)
  }

  function EmptySlot(): SigSlot {
    SigSlot(NoSignature(EasyFalcon()), 0)
  }

  function ExampleEnv(build: Build): Env {
    EasyEnv(TagHash(), HashFn(SHA256_SIZE, _ => Zeros(SHA256_SIZE)), build)
  }

  /** Unsigned openings at these positions: the stranger at the `i`-th, members everywhere else. */
  function ExampleOpenings(positions: seq<U64>, i: nat): (os: seq<RevealAt>)
    ensures |os| == |positions|
    ensures forall k :: 0 <= k < |os| ==>
              os[k] == RevealAt(positions[k], Reveal(EmptySlot(), if k == i then STRANGER else MEMBER))
  {
    seq(|positions|, k requires 0 <= k < |positions| =>
      RevealAt(positions[k], Reveal(EmptySlot(), if k == i then STRANGER else MEMBER)))
  }

  function ExampleDraft(positions: seq<U64>, i: nat): StateProof
    requires i < |positions|
  {
    StateProof([], 1, NO_PROOF, NO_PROOF, 0, ExampleOpenings(positions, i), [positions[i]])
  }

  lemma CrowdFits(d: nat)
    requires d <= SP_VC_MAX_DEPTH
    ensures Addressable(Crowd(d)) && CeilLog2(|Crowd(d)|) == d && Crowd(d) != []
  {
    MaxLeavesIsPow2();
    hide Pow2;
    Pow2Monotone(d, USIZE_BITS - 1);
    CeilLog2OfPow2(d);
  }

  /** The digests of `2^d` empty slots. */
  function EmptyDigests(env: Env, d: nat): seq<Digest> {
    Uniform(Pow2(d), env.sum.digest(MERKLE_VC_BOTTOM_LEAF))
  }

  ghost function ExampleProof(build: Build, positions: seq<U64>, i: nat, d: nat): StateProof
    requires i < |positions| && d <= SP_VC_MAX_DEPTH
  {
    CrowdFits(d);
    var env, draft := ExampleEnv(build), ExampleDraft(positions, i);
    draft.(sigCommitment := VcRoot(env.sum, EmptyDigests(env, d)),
           sigProofs := Proof(d, VcBatchPath(env.sum, EmptyDigests(env, d), SlotBatch(env, draft))),
           partProofs := Proof(d, VcBatchPath(env.sum, RosterDigests(env, Crowd(d)), ParticipantBatch(env, draft))))
  }

  ghost function ExampleAnchor(build: Build, d: nat): TrustAnchor
    requires d <= SP_VC_MAX_DEPTH
  {
    CrowdFits(d);
    TrustAnchor(VcRoot(ExampleEnv(build).sum, RosterDigests(ExampleEnv(build), Crowd(d))), 0)
  }

  /** The last opening of every slot is a member, since a later one shadows the stranger. */
  lemma ExampleBatches(build: Build, positions: seq<U64>, i: nat, j: nat, d: nat)
    requires i < j < |positions| && d <= SP_VC_MAX_DEPTH && SlotOf(positions[i], d) == SlotOf(positions[j], d)
    ensures var env, sp := ExampleEnv(build), ExampleProof(build, positions, i, d);
            && LastOpensCommitted(env.sum, EmptyDigests(env, d), d, SlotBatch(env, sp))
            && LastOpensCommitted(env.sum, RosterDigests(env, Crowd(d)), d, ParticipantBatch(env, sp))
  {
    hide ParticipantPreimage, SlotOf, TagDigest, VcRoot, VcBatchPath;
    var env, sp := ExampleEnv(build), ExampleProof(build, positions, i, d);
    var members := ParticipantBatch(env, sp);
    forall k: nat | LastInSlot(members, d, k)
      ensures members[k].value == Committed(env.sum, RosterDigests(env, Crowd(d)), SlotOf(members[k].key, d))
    {
      assert members[j].key == positions[j] && members[i].key == positions[i];
      assert k != i;
    }
  }

  lemma ExampleTrees(build: Build, positions: seq<U64>, i: nat, j: nat, d: nat)
    requires i < j < |positions| && d <= SP_VC_MAX_DEPTH && SlotOf(positions[i], d) == SlotOf(positions[j], d)
    ensures var env, sp, anchor := ExampleEnv(build), ExampleProof(build, positions, i, d), ExampleAnchor(build, d);
            && VcBatchAccepts(env.sum, SlotBatch(env, sp), d, sp.sigProofs.path, sp.sigCommitment)
            && VcBatchAccepts(env.sum, ParticipantBatch(env, sp), d, sp.partProofs.path, anchor.partCommitment)
  {
    hide ParticipantPreimage, SlotOf, TagDigest, VcRoot, VcBatchPath, VcBatchAccepts, LastOpensCommitted;
    var env, sp := ExampleEnv(build), ExampleProof(build, positions, i, d);
    CrowdFits(d);
    ExampleBatches(build, positions, i, j, d);
    VcBatchCompleteness(env.sum, EmptyDigests(env, d), SlotBatch(env, sp));
    VcBatchCompleteness(env.sum, RosterDigests(env, Crowd(d)), ParticipantBatch(env, sp));
    assert SlotBatch(env, sp) == SlotBatch(env, ExampleDraft(positions, i));
    assert ParticipantBatch(env, sp) == ParticipantBatch(env, ExampleDraft(positions, i));
  }

  /** The stranger answers for the one coin that is drawn. */
  lemma ExampleCoin(positions: seq<U64>, i: nat)
    requires i < |positions|
    ensures CoinCovered(ExampleOpenings(positions, i), [positions[i]], EasyStream, 1, 0)
  {
    hide Yields, CoinAt;
    EasyCoins(1, 0);
    var os := ExampleOpenings(positions, i);
    assert os[i].position == positions[i] && InRange(os[i].opening, 0);
  }

  lemma ExampleEnvValid(build: Build)
    ensures ExampleEnv(build).Valid()
  {
    hide TagDigest;
  }

  lemma ExampleAccepted(build: Build, msg: Message, positions: seq<U64>, i: nat, j: nat, d: nat)
    requires i < j < |positions| && d <= SP_VC_MAX_DEPTH && SlotOf(positions[i], d) == SlotOf(positions[j], d)
    requires forall k, l :: 0 <= k < l < |positions| ==> positions[k] != positions[l]
    ensures ExampleEnv(build).Valid()
    ensures Verify(ExampleEnv(build), ExampleProof(build, positions, i, d), msg, ExampleAnchor(build, d)).Accept?
  {
    hide VcRoot, VcBatchPath, VcBatchAccepts, Verify, OpeningPasses, MessageHash, CoinCovered, TagHash;
    var env, sp, anchor := ExampleEnv(build), ExampleProof(build, positions, i, d), ExampleAnchor(build, d);
    ExampleEnvValid(build);
    ExampleTrees(build, positions, i, j, d);
    forall k | 0 <= k < |sp.openings|
      ensures OpeningPasses(env, sp.saltVersion, sp.openings[k], msg.lastRound, MessageHash(env, msg))
    {
      EmptySlotPasses(env, sp.saltVersion, sp.openings[k], msg.lastRound, MessageHash(env, msg));
    }
    ExampleCoin(positions, i);
    assert CoinStream(env, sp, msg, anchor) == EasyStream;
    assert Accepts(env, sp, msg, anchor);
    VerifyIff(env, sp, msg, anchor);
  }

  /** The example hashes few inputs on either side. */
  lemma ExampleInputsAreFew(build: Build, positions: seq<U64>, i: nat, j: nat, d: nat)
    requires i < j < |positions| && d <= SP_VC_MAX_DEPTH && SlotOf(positions[i], d) == SlotOf(positions[j], d)
    ensures ValidRoster(Crowd(d))
    ensures forall m :: m in ParticipantSidePreimages(ExampleEnv(build), ExampleProof(build, positions, i, d)) ==>
              Few(m)
    ensures forall m :: m in RosterPreimages(ExampleEnv(build), Crowd(d)) ==> Few(m)
  {
    hide ParticipantPreimage, SlotOf, TagDigest, VcRoot, VcBatchPath, LastOpensCommitted, VcBatchPreimages, Tag;
    var env, sp := ExampleEnv(build), ExampleProof(build, positions, i, d);
    var digests := RosterDigests(env, Crowd(d));
    CrowdFits(d);
    CrowdInputs(build, d);
    ExampleBatches(build, positions, i, j, d);
    assert ParticipantBatch(env, sp) == ParticipantBatch(env, ExampleDraft(positions, i));
    VcBatchInputsInTree(env.sum, digests, ParticipantBatch(env, sp));
    hide VcPreimages;
    assert VcBatchPreimages(env.sum, ParticipantBatch(env, sp), d, sp.partProofs.path) <= VcPreimages(env.sum, digests);
  }

  lemma CrowdInputs(build: Build, d: nat)
    requires d <= SP_VC_MAX_DEPTH
    ensures Addressable(Crowd(d)) && Crowd(d) != []
    ensures AllTwinNodes(VcPreimages(ExampleEnv(build).sum, RosterDigests(ExampleEnv(build), Crowd(d))))
  {
    hide VcIndex, ParticipantPreimage, Tag, TagDigest, TreePreimages, IsTwinNode;
    var env := ExampleEnv(build);
    var digests := RosterDigests(env, Crowd(d));
    CrowdFits(d);
    FewDigests(0);
    forall p | 0 <= p < Pow2(d)
      ensures LeafAt(env.sum, digests, d, p) == Tag(0)
    {
      VcIndexOfSlot(p, d);
    }
    assert LeafLevel(env.sum, digests, d) == Uniform(Pow2(d), Tag(0));
    UniformTreeInputs(d, 0, BottomLeaf(env.sum));
  }

  lemma AliasBreaks(positions: seq<U64>, i: nat, j: nat, d: nat)
    requires i < j < |positions| && d <= SP_VC_MAX_DEPTH && SlotOf(positions[i], d) == SlotOf(positions[j], d)
    requires forall k, l :: 0 <= k < l < |positions| ==> positions[k] != positions[l]
    ensures !ForcesAuthenticity(positions, d)
  {
    hide ParticipantPreimage, SlotOf, TagDigest, VcRoot, VcBatchPath, Verify, ParticipantSidePreimages;
    hide RosterPreimages, Few;
    var msg := Message([], [], 0, 0, 0);
    var build := OverflowChecked;
    var env, sp := ExampleEnv(build), ExampleProof(build, positions, i, d);
    var anchor, roster := ExampleAnchor(build, d), Crowd(d);
    CrowdFits(d);
    ExampleAccepted(build, msg, positions, i, j, d);
    ExampleInputsAreFew(build, positions, i, j, d);
    NoCollisionAmongFew(ParticipantSidePreimages(env, sp), RosterPreimages(env, roster));
    VcBatchPathSized(env.sum, RosterDigests(env, roster), ParticipantBatch(env, ExampleDraft(positions, i)));
    assert AcceptedOver(env, sp, msg, anchor, roster, positions, d);
    assert sp.openings[i].opening.participant == STRANGER;
    assert !Authentic(sp.openings[i], roster, d);
    assert !AuthenticOrCollides(env, sp, roster);
  }

  /** Higher trees are never accepted: the declared depth is capped, and it would have to be theirs. */
  lemma TooHighForces(positions: seq<U64>, depth: nat)
    requires depth > SP_VC_MAX_DEPTH
    ensures ForcesAuthenticity(positions, depth)
  {
    hide Verify, CommitsTo, SlotOf, Established, ParticipantSidePreimages, RosterPreimages, CoinCovered, StrongEnough;
    hide VcBatchAccepts, OpeningPasses;
    forall env: Env, sp: StateProof, msg: Message, anchor: TrustAnchor, roster: seq<Participant> |
      AcceptedOver(env, sp, msg, anchor, roster, positions, depth)
      ensures ValidRoster(roster) && AuthenticOrCollides(env, sp, roster)
    {
      RosterValid(env, anchor.partCommitment, roster);
      VerifyIff(env, sp, msg, anchor);
      StepSoundness(env, sp, msg, anchor, roster);
      if Established(env, sp, msg, anchor, roster) {
        EstablishedDepth(env, sp, msg, anchor, roster);
        assert false;
      }
    }
  }

  /**
   The exact condition: acceptance with openings at distinct positions forces every opened participant to be
   the committed one (or a collision) if and only if no two of the positions agree in their `depth` low bits, or the
   tree is higher than any accepted proof may declare.
   */
  lemma AuthenticityForcedIff(positions: seq<U64>, depth: nat)
    requires forall k, l :: 0 <= k < l < |positions| ==> positions[k] != positions[l]
    ensures ForcesAuthenticity(positions, depth) <==> Unaliased(positions, depth) || depth > SP_VC_MAX_DEPTH
  {
    hide ForcesAuthenticity, SlotOf;
    if Unaliased(positions, depth) {
      UnaliasedForces(positions, depth);
    } else if depth > SP_VC_MAX_DEPTH {
      TooHighForces(positions, depth);
    } else {
      var i, j :| 0 <= i < j < |positions| && SlotOf(positions[i], depth) == SlotOf(positions[j], depth);
      AliasBreaks(positions, i, j, depth);
    }
  }
}
