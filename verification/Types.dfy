/** The records of a state proof and of the blocks it attests to. */
module Types {
  import opened Bytes
  import opened Hashing
  import opened MerkleTree

  const SHA256_SIZE: nat := 32
  const SUMHASH_SIZE: nat := 64
  const PUBKEY_SIZE: nat := 1793
  const CT_SIG_SIZE: nat := 1538
  const MAX_REVEALS: nat := 640

  /**
   The foreign signature library, as an oracle. `validKey` and `validSig` are what its parsers accept,
   `header` is the first byte of every compressed signature.
   */
  datatype Falcon = Falcon(
    validKey: seq<Byte> -> bool,
    validSig: seq<Byte> -> bool,
    header: Byte,
    saltVersion: seq<Byte> -> Byte,
    toCt: seq<Byte> -> Option<seq<Byte>>,
    verifies: (seq<Byte>, seq<Byte>, seq<Byte>) -> bool)
  {
    /** Constant-time signatures have one length. */
    ghost predicate Valid() {
      forall sig :: toCt(sig).Some? ==> |toCt(sig).value| == CT_SIG_SIZE
    }
  }

  datatype MerkleVerifier = MerkleVerifier(commitment: Digest, keyLifetime: U64)

  datatype MerkleSignature = MerkleSignature(
    signature: seq<Byte>, vcIndex: U64, proof: Proof, verifyingKey: seq<Byte>)

  datatype SigSlot = SigSlot(mss: MerkleSignature, l: U64) {
    /** Nobody signed: only header and salt. */
    predicate IsEmpty() {
      |mss.signature| <= 2
    }
  }

  datatype Participant = Participant(pk: MerkleVerifier, weight: U64)

  datatype Reveal = Reveal(sigSlot: SigSlot, participant: Participant)

  datatype RevealAt = RevealAt(position: U64, opening: Reveal)

  datatype StateProof = StateProof(
    sigCommitment: Digest, signedWeight: U64, sigProofs: Proof, partProofs: Proof, saltVersion: Byte,
    openings: seq<RevealAt>, positions: seq<U64>)

  datatype Message = Message(
    blockHeaders: Digest, voters: Digest, lnProvenWeight: U64, firstRound: U64, lastRound: U64)

  datatype LightBlockHeader = LightBlockHeader(
    seed: seq<Byte>, blockHash: seq<Byte>, genesisHash: seq<Byte>, round: U64, txnCommitment: Digest)

  function ZeroDigest(size: nat): (z: Digest)
    ensures |z| == size
  {
    Zeros(size)
  }

  const NO_PROOF: Proof := Proof(0, [])

  const NO_VERIFIER: MerkleVerifier := MerkleVerifier(ZeroDigest(SUMHASH_SIZE), 0)

  const NO_PARTICIPANT: Participant := Participant(NO_VERIFIER, 0)

  function NoSignature(f: Falcon): MerkleSignature {
    MerkleSignature([f.header, 0], 0, NO_PROOF, Zeros(PUBKEY_SIZE))
  }
}
