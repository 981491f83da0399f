/** Block headers under an attested commitment, and transactions under a block header. */
module LightClient {
  import opened Bytes
  import opened Bits
  import opened Hashing
  import opened MerkleTree
  import opened VcTree
  import opened VcOpening
  import opened IndexBinding
  import opened Types
  import opened RoundTrip
  import opened TypedDecoders

  const DOMAIN_LIGHT_BLOCK_HEADER: seq<Byte> := [0x42, 0x32, 0x35, 0x36]  // "B256"
  const DOMAIN_TXN_LEAF: seq<Byte> := [0x54, 0x4c]                        // "TL"

  // ---------------------------------------------------------------- leaves

  function HeaderPreimage(header: LightBlockHeader): seq<Byte> {
    DOMAIN_LIGHT_BLOCK_HEADER + EncodeHeader(header)
  }

  /** The two digests that identify a transaction in its block: the transaction's and its outcome's. */
  datatype Txn = Txn(txn: Digest, stib: Digest) {
    ghost predicate Valid() {
      |txn| == |stib| == SHA256_SIZE
    }
  }

  function TxnPreimage(t: Txn): seq<Byte> {
    DOMAIN_TXN_LEAF + (t.txn + t.stib)
  }

  lemma HeaderPreimageInjective(g: LightBlockHeader, h: LightBlockHeader)
    requires ValidHeader(g) && ValidHeader(h) && HeaderPreimage(g) == HeaderPreimage(h)
    ensures g == h
  {
    hide EncodeHeader;
    ConcatInjective(DOMAIN_LIGHT_BLOCK_HEADER, EncodeHeader(g), DOMAIN_LIGHT_BLOCK_HEADER, EncodeHeader(h));
    HeaderEncodingInjective(g, h);
  }

  lemma TxnPreimageInjective(s: Txn, t: Txn)
    requires s.Valid() && t.Valid() && TxnPreimage(s) == TxnPreimage(t)
    ensures s == t
  {
    ConcatInjective(DOMAIN_TXN_LEAF, s.txn + s.stib, DOMAIN_TXN_LEAF, t.txn + t.stib);
    ConcatInjective(s.txn, s.stib, t.txn, t.stib);
  }

  /** Headers, transactions, inner nodes and the filler of unused slots are never the same input. */
  lemma LeafDomainsSeparate(header: LightBlockHeader, t: Txn, left: Digest, right: Digest)
    ensures HeaderPreimage(header) != TxnPreimage(t)
    ensures HeaderPreimage(header) != NodePreimage(left, right) && TxnPreimage(t) != NodePreimage(left, right)
    ensures HeaderPreimage(header) != MERKLE_VC_BOTTOM_LEAF && TxnPreimage(t) != MERKLE_VC_BOTTOM_LEAF
  {
    hide EncodeHeader;
    assert HeaderPreimage(header)[0] == 0x42 && TxnPreimage(t)[0] == 0x54;
    assert NodePreimage(left, right)[0] == 0x4d && MERKLE_VC_BOTTOM_LEAF[0] == 0x4d;
  }

  // ---------------------------------------------------------------- the two checks

  method VerifyBlockHeaderCommitment(
    h: HashFn, build: Build, header: LightBlockHeader, index: nat, proof: Proof, commitment: Digest)
    returns (r: Answer)
    ensures r == if Overflows(build, proof.treeDepth) then Overflow
                 else Answers(ProvenRoot(h, HeaderPreimage(header), index, proof) == commitment)
  {
    hide EncodeHeader;
    var leaf := h.digest(DOMAIN_LIGHT_BLOCK_HEADER + EncodeHeader(header));
    r := VerifyVcWith(h, build, proof, leaf, index, commitment);
  }

  method VerifyTxnCommitment(h: HashFn, build: Build, t: Txn, index: nat, proof: Proof, commitment: Digest)
    returns (r: Answer)
    ensures r == if Overflows(build, proof.treeDepth) then Overflow
                 else Answers(ProvenRoot(h, TxnPreimage(t), index, proof) == commitment)
  {
    var input := DOMAIN_TXN_LEAF;
    input := input + t.txn;
    input := input + t.stib;
    assert input == TxnPreimage(t);
    r := VerifyVcWith(h, build, proof, h.digest(input), index, commitment);
  }

  // ---------------------------------------------------------------- the index of a round

  /** `StateProofMessage::block_index_for_round`: the distance to the first round, up to 255. */
  function BlockIndex(m: Message, round: U64): Option<nat> {
    if round < m.firstRound then None
    else if round - m.firstRound > 255 then None
    else Some(round - m.firstRound)
  }

  /** The rounds outside of the interval have no index. */
  ghost predicate IndexedInside(m: Message) {
    forall round: U64 :: BlockIndex(m, round).Some? <==> m.firstRound <= round <= m.lastRound
  }

  /** That is so exactly for intervals of 256 rounds, cut off at the last number; the code does not look at the end. */
  lemma IndexedInsideIff(m: Message)
    ensures IndexedInside(m)
       <==> m.lastRound == if m.firstRound + 255 < TWO_64 then m.firstRound + 255 else TWO_64 - 1
  {
    var last: U64 := if m.firstRound + 255 < TWO_64 then m.firstRound + 255 else TWO_64 - 1;
    var byEnd, byLast := BlockIndex(m, last), BlockIndex(m, m.lastRound);
    if IndexedInside(m) && m.lastRound < m.firstRound { var byFirst := BlockIndex(m, m.firstRound); }
  }

  /** A round behind the end of a shorter interval gets an index all the same. */
  lemma IndexedOutside(m: Message)
    requires m.firstRound <= m.lastRound < m.firstRound + 255 && m.lastRound + 1 < TWO_64
    ensures BlockIndex(m, m.lastRound + 1) == Some(m.lastRound + 1 - m.firstRound) && !IndexedInside(m)
  {
    var behind := BlockIndex(m, m.lastRound + 1);
  }

  // ---------------------------------------------------------------- headers with their transactions

  /** A header proved under the attested commitment, and a transaction proved under that header. */
  datatype Inclusion = Inclusion(
    header: LightBlockHeader, headerIndex: nat, headerProof: Proof, txn: Txn, txnIndex: nat, txnProof: Proof)
  {
    ghost predicate Valid(h: HashFn) {
      && ValidHeader(header) && txn.Valid()
      && h.Sized(headerProof.path) && h.Sized(txnProof.path)
    }

    /** Both checks pass. */
    ghost predicate Holds(h: HashFn, commitment: Digest) {
      && ProvenRoot(h, HeaderPreimage(header), headerIndex, headerProof) == commitment
      && ProvenRoot(h, TxnPreimage(txn), txnIndex, txnProof) == header.txnCommitment
    }

    /** Everything hashed by both checks. */
    ghost function Inputs(h: HashFn): set<seq<Byte>> {
      ProofInputs(h, HeaderPreimage(header), headerIndex, headerProof)
      + ProofInputs(h, TxnPreimage(txn), txnIndex, txnProof)
    }

    /** Both climbs start at the same places of trees of the same heights. */
    ghost predicate SamePlace(other: Inclusion) {
      && |headerProof.path| == |other.headerProof.path|
      && StartPosition(headerIndex, headerProof) == StartPosition(other.headerIndex, other.headerProof)
      && |txnProof.path| == |other.txnProof.path|
      && StartPosition(txnIndex, txnProof) == StartPosition(other.txnIndex, other.txnProof)
    }

    /** The declared depths are the lengths of the paths. */
    ghost predicate Formed() {
      WellFormed(headerProof) && WellFormed(txnProof)
    }

    /** And the indices lie within trees of these depths. */
    ghost predicate Within() {
      Formed() && headerIndex < Pow2(|headerProof.path|) && txnIndex < Pow2(|txnProof.path|)
    }

    /** The same header, transaction and paths. */
    ghost predicate SameContent(other: Inclusion) {
      && header == other.header && txn == other.txn
      && headerProof.path == other.headerProof.path && txnProof.path == other.txnProof.path
    }
  }

  /** Collisions among the inputs of one of the two proofs are collisions among all of them. */
  lemma PartCollides(h: HashFn, a: Inclusion, b: Inclusion)
    requires || h.CollisionBetween(ProofInputs(h, HeaderPreimage(a.header), a.headerIndex, a.headerProof),
                                   ProofInputs(h, HeaderPreimage(b.header), b.headerIndex, b.headerProof))
             || h.CollisionBetween(ProofInputs(h, TxnPreimage(a.txn), a.txnIndex, a.txnProof),
                                   ProofInputs(h, TxnPreimage(b.txn), b.txnIndex, b.txnProof))
    ensures h.CollisionBetween(a.Inputs(h), b.Inputs(h))
  {
    hide ProofInputs, HeaderPreimage, TxnPreimage;
  }

  /** Two accepted inclusions about the same places under one commitment have the same content, or collide. */
  lemma SamePlaceBinding(h: HashFn, a: Inclusion, b: Inclusion, commitment: Digest)
    requires h.Valid() && a.Valid(h) && b.Valid(h) && a.SamePlace(b)
    requires a.Holds(h, commitment) && b.Holds(h, commitment)
    ensures a.SameContent(b) || h.CollisionBetween(a.Inputs(h), b.Inputs(h))
  {
    hide ProofInputs, ProvenRoot, HeaderPreimage, TxnPreimage, StartPosition;
    if !h.CollisionBetween(a.Inputs(h), b.Inputs(h)) {
      var a1, b1 := HeaderPreimage(a.header), HeaderPreimage(b.header);
      ProofsAgree(h, a1, a.headerIndex, a.headerProof, b1, b.headerIndex, b.headerProof);
      if a1 != b1 || a.headerProof.path != b.headerProof.path { PartCollides(h, a, b); }
      HeaderPreimageInjective(a.header, b.header);
      var a2, b2 := TxnPreimage(a.txn), TxnPreimage(b.txn);
      ProofsAgree(h, a2, a.txnIndex, a.txnProof, b2, b.txnIndex, b.txnProof);
      if a2 != b2 || a.txnProof.path != b.txnProof.path { PartCollides(h, a, b); }
      TxnPreimageInjective(a.txn, b.txn);
    }
  }

  /**
   End to end: two accepted inclusions under one commitment for the same indices, whose declared depths are the
   lengths of their paths, are one inclusion, or two inputs hashed by the checks collide.
   */
  lemma EndToEndBinding(h: HashFn, a: Inclusion, b: Inclusion, commitment: Digest)
    requires h.Valid() && a.Valid(h) && b.Valid(h) && a.Formed() && b.Formed()
    requires a.headerIndex == b.headerIndex && a.txnIndex == b.txnIndex
    requires a.Holds(h, commitment) && b.Holds(h, commitment)
    ensures a == b || h.CollisionBetween(a.Inputs(h), b.Inputs(h))
  {
    hide ProofInputs, ProvenRoot, HeaderPreimage, TxnPreimage, WellFormed;
    if !h.CollisionBetween(a.Inputs(h), b.Inputs(h)) {
      NoNodes(a.header, a.txn);
      NoNodes(b.header, b.txn);
      var a1, b1 := HeaderPreimage(a.header), HeaderPreimage(b.header);
      WellFormedProofsAgree(h, a1, a.headerProof, b1, b.headerProof, a.headerIndex);
      if a1 != b1 || a.headerProof != b.headerProof { PartCollides(h, a, b); }
      HeaderPreimageInjective(a.header, b.header);
      var a2, b2 := TxnPreimage(a.txn), TxnPreimage(b.txn);
      WellFormedProofsAgree(h, a2, a.txnProof, b2, b.txnProof, a.txnIndex);
      if a2 != b2 || a.txnProof != b.txnProof { PartCollides(h, a, b); }
      TxnPreimageInjective(a.txn, b.txn);
    }
  }

  lemma NoNodes(header: LightBlockHeader, t: Txn)
    ensures !IsNodeInput(HeaderPreimage(header)) && !IsNodeInput(TxnPreimage(t))
  {
    hide EncodeHeader;
    NoNode(HeaderPreimage(header));
    NoNode(TxnPreimage(t));
  }

  /**
   Without that, two different headers can be accepted for one index under one commitment, whatever the hash:
   the first of two headers for index one with a declared depth of zero, the second with a depth of one.
   */
  lemma TwoHeadersOneIndex(h: HashFn, g: LightBlockHeader, k: LightBlockHeader)
    ensures var commitment := VcRoot(h, LeafDigests(h, [HeaderPreimage(g), HeaderPreimage(k)]));
            && ProvenRoot(h, HeaderPreimage(g), 1, Proof(0, [h.digest(HeaderPreimage(k))])) == commitment
            && ProvenRoot(h, HeaderPreimage(k), 1, Proof(1, [h.digest(HeaderPreimage(g))])) == commitment
  {
    hide ProvenRoot, VcRoot, HeaderPreimage;
    WrongIndexAccepted(h, HeaderPreimage(g), HeaderPreimage(k));
    RightIndexAccepted(h, HeaderPreimage(g), HeaderPreimage(k));
  }

  // ---------------------------------------------------------------- against what was committed

  function HeaderPreimages(headers: seq<LightBlockHeader>): (r: seq<seq<Byte>>)
    ensures |r| == |headers| && forall i :: 0 <= i < |r| ==> r[i] == HeaderPreimage(headers[i])
  {
    seq(|headers|, i requires 0 <= i < |headers| => HeaderPreimage(headers[i]))
  }

  function TxnPreimages(txns: seq<Txn>): (r: seq<seq<Byte>>)
    ensures |r| == |txns| && forall i :: 0 <= i < |r| ==> r[i] == TxnPreimage(txns[i])
  {
    seq(|txns|, i requires 0 <= i < |txns| => TxnPreimage(txns[i]))
  }

  /** The inclusion names the header and the transaction in these slots. */
  ghost predicate Names(incl: Inclusion, headers: seq<LightBlockHeader>, i: nat, txns: seq<Txn>, j: nat) {
    i < |headers| && incl.header == headers[i] && j < |txns| && incl.txn == txns[j]
  }

  /** It names those at its own indices. */
  ghost predicate Genuine(incl: Inclusion, headers: seq<LightBlockHeader>, txns: seq<Txn>)
    requires headers != [] && txns != []
  {
    Names(incl, headers, SlotOf(incl.headerIndex, CeilLog2(|headers|)), txns, SlotOf(incl.txnIndex, CeilLog2(|txns|)))
  }

  lemma NotFiller(header: LightBlockHeader, t: Txn)
    ensures HeaderPreimage(header) != MERKLE_VC_BOTTOM_LEAF && TxnPreimage(t) != MERKLE_VC_BOTTOM_LEAF
  {
    LeafDomainsSeparate(header, t, [], []);
  }

  lemma VectorsTagged(headers: seq<LightBlockHeader>, txns: seq<Txn>)
    ensures Tagged(HeaderPreimages(headers)) && Tagged(TxnPreimages(txns))
  {
    hide HeaderPreimage, TxnPreimage;
    forall i | 0 <= i < |headers|
      ensures !IsNodeInput(HeaderPreimages(headers)[i])
    {
      NoNodes(headers[i], Txn([], []));
    }
    forall i | 0 <= i < |txns|
      ensures !IsNodeInput(TxnPreimages(txns)[i])
    {
      NoNodes(NO_HEADER, txns[i]);
    }
  }

  /** Whatever its shape, an accepted header proof names the header in the slot that it proves, or collides. */
  lemma HeaderProven(h: HashFn, incl: Inclusion, commitment: Digest, headers: seq<LightBlockHeader>)
    requires h.Valid() && incl.Valid(h) && incl.Holds(h, commitment)
    requires forall i :: 0 <= i < |headers| ==> ValidHeader(headers[i])
    requires CommitsToLeaves(h, commitment, HeaderPreimages(headers))
    ensures var slot := ProvenSlot(incl.headerIndex, incl.headerProof);
            || (slot < |headers| && incl.header == headers[slot] && |incl.headerProof.path| == CeilLog2(|headers|))
            || h.CollisionBetween(incl.Inputs(h), VectorInputs(h, HeaderPreimages(headers)))
  {
    hide ProvenRoot, VcRoot, HeaderPreimage, TxnPreimage, CeilLog2, Addressable, VectorInputs, ProofInputs, ProvenSlot;
    hide VcPath;
    var leaf, leaves := HeaderPreimage(incl.header), HeaderPreimages(headers);
    VectorsTagged(headers, []);
    NoNodes(incl.header, incl.txn);
    NotFiller(incl.header, incl.txn);
    ProvenIsCommitted(h, leaves, leaf, incl.headerIndex, incl.headerProof);
    var ours := ProofInputs(h, leaf, incl.headerIndex, incl.headerProof);
    if h.CollisionBetween(ours, VectorInputs(h, leaves)) {
      CollisionMonotone(h, ours, VectorInputs(h, leaves), incl.Inputs(h), VectorInputs(h, leaves));
    } else {
      HeaderPreimageInjective(incl.header, headers[ProvenSlot(incl.headerIndex, incl.headerProof)]);
    }
  }

  /** The same for transactions. */
  lemma TxnProven(h: HashFn, incl: Inclusion, commitment: Digest, txns: seq<Txn>)
    requires h.Valid() && incl.Valid(h) && incl.Holds(h, commitment)
    requires forall i :: 0 <= i < |txns| ==> txns[i].Valid()
    requires CommitsToLeaves(h, incl.header.txnCommitment, TxnPreimages(txns))
    ensures var slot := ProvenSlot(incl.txnIndex, incl.txnProof);
            || (slot < |txns| && incl.txn == txns[slot] && |incl.txnProof.path| == CeilLog2(|txns|))
            || h.CollisionBetween(incl.Inputs(h), VectorInputs(h, TxnPreimages(txns)))
  {
    hide ProvenRoot, VcRoot, HeaderPreimage, TxnPreimage, CeilLog2, Addressable, VectorInputs, ProofInputs, ProvenSlot;
    hide VcPath;
    var leaf, leaves := TxnPreimage(incl.txn), TxnPreimages(txns);
    VectorsTagged([], txns);
    NoNodes(incl.header, incl.txn);
    NotFiller(incl.header, incl.txn);
    ProvenIsCommitted(h, leaves, leaf, incl.txnIndex, incl.txnProof);
    var ours := ProofInputs(h, leaf, incl.txnIndex, incl.txnProof);
    if h.CollisionBetween(ours, VectorInputs(h, leaves)) {
      CollisionMonotone(h, ours, VectorInputs(h, leaves), incl.Inputs(h), VectorInputs(h, leaves));
    } else {
      TxnPreimageInjective(incl.txn, txns[ProvenSlot(incl.txnIndex, incl.txnProof)]);
    }
  }

  /**
   Under the commitment to an interval's headers, and the accepted header's commitment to its block's
   transactions, an accepted inclusion names the header and the transaction in the slots at which its climbs start,
   or exposes a collision in one of the two trees. If both climbs start right, and so if the declared depths are
   the path lengths, these are the slots of its indices; for indices within the trees, the indices themselves.
   */
  lemma AcceptedIsGenuine(
    h: HashFn, incl: Inclusion, commitment: Digest, headers: seq<LightBlockHeader>, txns: seq<Txn>)
    requires h.Valid() && incl.Valid(h) && incl.Holds(h, commitment)
    requires forall i :: 0 <= i < |headers| ==> ValidHeader(headers[i])
    requires forall i :: 0 <= i < |txns| ==> txns[i].Valid()
    requires CommitsToLeaves(h, commitment, HeaderPreimages(headers))
    requires CommitsToLeaves(h, incl.header.txnCommitment, TxnPreimages(txns))
    ensures || (&& Names(incl, headers, ProvenSlot(incl.headerIndex, incl.headerProof),
                         txns, ProvenSlot(incl.txnIndex, incl.txnProof))
                && (StartsRight(incl.headerIndex, incl.headerProof) && StartsRight(incl.txnIndex, incl.txnProof) ==>
                      Genuine(incl, headers, txns))
                && (incl.Formed() ==> Genuine(incl, headers, txns))
                && (incl.Within() ==> Names(incl, headers, incl.headerIndex, txns, incl.txnIndex)))
            || h.CollisionBetween(incl.Inputs(h), VectorInputs(h, HeaderPreimages(headers)))
            || h.CollisionBetween(incl.Inputs(h), VectorInputs(h, TxnPreimages(txns)))
  {
    hide ProvenRoot, VcRoot, HeaderPreimage, TxnPreimage, CeilLog2, VectorInputs, ProofInputs, SlotOf, ProvenSlot;
    hide StartsRight, WellFormed, Pow2, incl.Inputs, incl.Holds;
    if incl.Formed() {
      WellFormedStartsRight(incl.headerIndex, incl.headerProof);
      WellFormedStartsRight(incl.txnIndex, incl.txnProof);
    }
    if incl.Within() {
      SlotBelowCapacity(incl.headerIndex, |incl.headerProof.path|);
      SlotBelowCapacity(incl.txnIndex, |incl.txnProof.path|);
    }
    HeaderProven(h, incl, commitment, headers);
    TxnProven(h, incl, commitment, txns);
    DepthInRange(LeafDigests(h, HeaderPreimages(headers)));
    DepthInRange(LeafDigests(h, TxnPreimages(txns)));
    if |incl.headerProof.path| <= USIZE_BITS { StartsRightIff(incl.headerIndex, incl.headerProof); }
    if |incl.txnProof.path| <= USIZE_BITS { StartsRightIff(incl.txnIndex, incl.txnProof); }
  }

  /** The proofs that the two trees yield for a genuine header and transaction pass both checks. */
  lemma GenuineIsAccepted(
    h: HashFn, incl: Inclusion, commitment: Digest, headers: seq<LightBlockHeader>, txns: seq<Txn>)
    requires headers != [] && txns != [] && Genuine(incl, headers, txns)
    requires CommitsToLeaves(h, commitment, HeaderPreimages(headers))
    requires CommitsToLeaves(h, incl.header.txnCommitment, TxnPreimages(txns))
    requires OwnProof(h, incl.headerIndex, incl.headerProof, HeaderPreimages(headers))
    requires OwnProof(h, incl.txnIndex, incl.txnProof, TxnPreimages(txns))
    ensures incl.Holds(h, commitment)
  {
    hide VcIndex, Climb, VcRoot, HeaderPreimage, TxnPreimage;
    OwnProofLeads(h, HeaderPreimages(headers), incl.headerIndex, incl.headerProof);
    OwnProofLeads(h, TxnPreimages(txns), incl.txnIndex, incl.txnProof);
  }
}
