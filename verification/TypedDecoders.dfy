/** The decoders of all wire records, from hash factories up to whole state proofs. */
module TypedDecoders {
  import opened Bytes
  import opened Hashing
  import opened MerkleTree
  import opened Types
  import opened Wire
  import opened Decoders

  // Wire keys.
  const K_0: seq<Byte> := [0x30]
  const K_1: seq<Byte> := [0x31]
  const K_P_UPPER: seq<Byte> := [0x50]
  const K_S_UPPER: seq<Byte> := [0x53]
  const K_B: seq<Byte> := [0x62]
  const K_C: seq<Byte> := [0x63]
  const K_CMT: seq<Byte> := [0x63, 0x6d, 0x74]
  const K_F: seq<Byte> := [0x66]
  const K_GH: seq<Byte> := [0x67, 0x68]
  const K_HSH: seq<Byte> := [0x68, 0x73, 0x68]
  const K_IDX: seq<Byte> := [0x69, 0x64, 0x78]
  const K_K: seq<Byte> := [0x6b]
  const K_L: seq<Byte> := [0x6c]
  const K_LF: seq<Byte> := [0x6c, 0x66]
  const K_P: seq<Byte> := [0x70]
  const K_PR: seq<Byte> := [0x70, 0x72]
  const K_PRF: seq<Byte> := [0x70, 0x72, 0x66]
  const K_PTH: seq<Byte> := [0x70, 0x74, 0x68]
  const K_R: seq<Byte> := [0x72]
  const K_S: seq<Byte> := [0x73]
  const K_SIG: seq<Byte> := [0x73, 0x69, 0x67]
  const K_T: seq<Byte> := [0x74]
  const K_TC: seq<Byte> := [0x74, 0x63]
  const K_TD: seq<Byte> := [0x74, 0x64]
  const K_V: seq<Byte> := [0x76]
  const K_VKEY: seq<Byte> := [0x76, 0x6b, 0x65, 0x79]
  const K_W: seq<Byte> := [0x77]

  /** Applies `f` to a value that was read. */
  function Then<T, U>(p: Parse<T>, f: T -> U): Parse<U> {
    match p
    case Err(e) => Err(e)
    case Ok(v, rest) => Ok(f(v), rest)
  }

  /** An unknown key's value is stepped over. */
  function Unknown<T>(acc: T, s: seq<Byte>): Parse<T> {
    Then(Skip(s), _ => acc)
  }

  // ---------------------------------------------------------------- hash factories and proofs

  function DecodeHashType(s: seq<Byte>): Parse<HashType> {
    var (v, s1) :- ReadUint(s);
    if v == 0 then Ok(Sha512_256, s1)
    else if v == 1 then Ok(Sumhash512, s1)
    else if v == 2 then Ok(Sha256, s1)
    else if v == 3 then Ok(Sha512, s1)
    else Err(InvalidHashType(v))
  }

  function HashFactoryStep(key: seq<Byte>, acc: HashType, s: seq<Byte>): Parse<HashType> {
    if key == K_T then DecodeHashType(s) else Unknown(acc, s)
  }

  function DecodeHashFactory(s: seq<Byte>): Parse<HashType> {
    DecodeMap(HashFactoryStep, Sha512_256, s)
  }

  datatype ProofParts = ProofParts(proof: Proof, hashType: HashType)

  function PathItem(s: seq<Byte>): Parse<Digest> {
    ReadDigest(SUMHASH_SIZE, s)
  }

  function ReadPath(s: seq<Byte>): Parse<seq<Digest>> {
    var (n, s1) :- ReadArrayLen(s);
    Repeat(PathItem, n, [], s1)
  }

  function ProofStep(key: seq<Byte>, acc: ProofParts, s: seq<Byte>): Parse<ProofParts> {
    if key == K_TD then Then(ReadU8(s), v => acc.(proof := acc.proof.(treeDepth := v)))
    else if key == K_PTH then Then(ReadPath(s), v => acc.(proof := acc.proof.(path := v)))
    else if key == K_HSH then Then(DecodeHashFactory(s), v => acc.(hashType := v))
    else Unknown(acc, s)
  }

  function DecodeProof(s: seq<Byte>): Parse<Proof> {
    var (parts, s1) :- DecodeMap(ProofStep, ProofParts(NO_PROOF, Sumhash512), s);
    if parts.hashType != Sumhash512 then Err(HashTypeMismatch(Sumhash512, parts.hashType)) else Ok(parts.proof, s1)
  }

  // ---------------------------------------------------------------- keys and signatures

  function PublicKeyStep(key: seq<Byte>, acc: seq<Byte>, s: seq<Byte>): Parse<seq<Byte>> {
    if key == K_K then ReadKey(s) else Unknown(acc, s)
  }

  function DecodePublicKey(f: Falcon, s: seq<Byte>): Parse<seq<Byte>> {
    var (b, s1) :- DecodeMap(PublicKeyStep, Zeros(PUBKEY_SIZE), s);
    if f.validKey(b) then Ok(b, s1) else Err(InvalidPublicKey)
  }

  function DecodeSignature(f: Falcon, s: seq<Byte>): Parse<seq<Byte>> {
    var (b, s1) :- ReadBin(s);
    if f.validSig(b) then Ok(b, s1) else Err(InvalidSignature)
  }

  function VerifierStep(key: seq<Byte>, acc: MerkleVerifier, s: seq<Byte>): Parse<MerkleVerifier> {
    if key == K_CMT then Then(ReadDigest(SUMHASH_SIZE, s), v => acc.(commitment := v))
    else if key == K_LF then Then(ReadUint(s), v => acc.(keyLifetime := v))
    else Unknown(acc, s)
  }

  function DecodeVerifier(s: seq<Byte>): Parse<MerkleVerifier> {
    DecodeMap(VerifierStep, NO_VERIFIER, s)
  }

  function MssField(f: Falcon, key: seq<Byte>, acc: MerkleSignature, s: seq<Byte>): Parse<MerkleSignature> {
    if key == K_SIG then Then(DecodeSignature(f, s), v => acc.(signature := v))
    else if key == K_IDX then Then(ReadUint(s), v => acc.(vcIndex := v))
    else if key == K_PRF then Then(DecodeProof(s), v => acc.(proof := v))
    else if key == K_VKEY then Then(DecodePublicKey(f, s), v => acc.(verifyingKey := v))
    else Unknown(acc, s)
  }

  function MssStep(f: Falcon): (seq<Byte>, MerkleSignature, seq<Byte>) -> Parse<MerkleSignature> {
    (key, acc, s) => MssField(f, key, acc, s)
  }

  function DecodeMss(f: Falcon, s: seq<Byte>): Parse<MerkleSignature> {
    DecodeMap(MssStep(f), NoSignature(f), s)
  }

  // ---------------------------------------------------------------- reveals

  function SigSlotField(f: Falcon, key: seq<Byte>, acc: SigSlot, s: seq<Byte>): Parse<SigSlot> {
    if key == K_S then Then(DecodeMss(f, s), v => acc.(mss := v))
    else if key == K_L then Then(ReadUint(s), v => acc.(l := v))
    else Unknown(acc, s)
  }

  function SigSlotStep(f: Falcon): (seq<Byte>, SigSlot, seq<Byte>) -> Parse<SigSlot> {
    (key, acc, s) => SigSlotField(f, key, acc, s)
  }

  function DecodeSigSlot(f: Falcon, s: seq<Byte>): Parse<SigSlot> {
    DecodeMap(SigSlotStep(f), SigSlot(NoSignature(f), 0), s)
  }

  function ParticipantStep(key: seq<Byte>, acc: Participant, s: seq<Byte>): Parse<Participant> {
    if key == K_P then Then(DecodeVerifier(s), v => acc.(pk := v))
    else if key == K_W then Then(ReadUint(s), v => acc.(weight := v))
    else Unknown(acc, s)
  }

  function DecodeParticipant(s: seq<Byte>): Parse<Participant> {
    DecodeMap(ParticipantStep, NO_PARTICIPANT, s)
  }

  function RevealField(f: Falcon, key: seq<Byte>, acc: Reveal, s: seq<Byte>): Parse<Reveal> {
    if key == K_S then Then(DecodeSigSlot(f, s), v => acc.(sigSlot := v))
    else if key == K_P then Then(DecodeParticipant(s), v => acc.(participant := v))
    else Unknown(acc, s)
  }

  function RevealStep(f: Falcon): (seq<Byte>, Reveal, seq<Byte>) -> Parse<Reveal> {
    (key, acc, s) => RevealField(f, key, acc, s)
  }

  function DecodeReveal(f: Falcon, s: seq<Byte>): Parse<Reveal> {
    DecodeMap(RevealStep(f), Reveal(SigSlot(NoSignature(f), 0), NO_PARTICIPANT), s)
  }

  // ---------------------------------------------------------------- state proofs

  function DecodeRevealAt(f: Falcon, s: seq<Byte>): Parse<RevealAt> {
    var (pos, s1) :- ReadUint(s);
    Then(DecodeReveal(f, s1), v => RevealAt(pos, v))
  }

  function RevealItem(f: Falcon): seq<Byte> -> Parse<RevealAt> {
    s => DecodeRevealAt(f, s)
  }

  function ReadReveals(f: Falcon, s: seq<Byte>): Parse<seq<RevealAt>> {
    var (n, s1) :- ReadMapLen(s);
    if n > MAX_REVEALS then Err(TooManyReveals(n, MAX_REVEALS)) else Repeat(RevealItem(f), n, [], s1)
  }

  function ReadPositions(s: seq<Byte>): Parse<seq<U64>> {
    var (n, s1) :- ReadArrayLen(s);
    if n > MAX_REVEALS then Err(TooManyReveals(n, MAX_REVEALS)) else Repeat(ReadUint, n, [], s1)
  }

  function StateProofField(f: Falcon, key: seq<Byte>, acc: StateProof, s: seq<Byte>): Parse<StateProof> {
    if key == K_C then Then(ReadDigest(SUMHASH_SIZE, s), v => acc.(sigCommitment := v))
    else if key == K_W then Then(ReadWeight(s), v => acc.(signedWeight := v))
    else if key == K_S_UPPER then Then(DecodeProof(s), v => acc.(sigProofs := v))
    else if key == K_P_UPPER then Then(DecodeProof(s), v => acc.(partProofs := v))
    else if key == K_V then Then(ReadU8(s), v => acc.(saltVersion := v))
    else if key == K_R then Then(ReadReveals(f, s), v => acc.(openings := v))
    else if key == K_PR then Then(ReadPositions(s), v => acc.(positions := v))
    else Unknown(acc, s)
  }

  function StateProofStep(f: Falcon): (seq<Byte>, StateProof, seq<Byte>) -> Parse<StateProof> {
    (key, acc, s) => StateProofField(f, key, acc, s)
  }

  const NO_STATE_PROOF: StateProof := StateProof(ZeroDigest(SUMHASH_SIZE), 0, NO_PROOF, NO_PROOF, 0, [], [])

  function DecodeStateProof(f: Falcon, s: seq<Byte>): Parse<StateProof> {
    DecodeMap(StateProofStep(f), NO_STATE_PROOF, s)
  }

  // ---------------------------------------------------------------- messages and headers

  function MessageStep(key: seq<Byte>, acc: Message, s: seq<Byte>): Parse<Message> {
    if key == K_P_UPPER then Then(ReadUint(s), v => acc.(lnProvenWeight := v))
    else if key == K_B then Then(ReadDigest(SHA256_SIZE, s), v => acc.(blockHeaders := v))
    else if key == K_F then Then(ReadUint(s), v => acc.(firstRound := v))
    else if key == K_L then Then(ReadUint(s), v => acc.(lastRound := v))
    else if key == K_V then Then(ReadDigest(SUMHASH_SIZE, s), v => acc.(voters := v))
    else Unknown(acc, s)
  }

  const NO_MESSAGE: Message := Message(ZeroDigest(SHA256_SIZE), ZeroDigest(SUMHASH_SIZE), 0, 0, 0)

  function DecodeMessage(s: seq<Byte>): Parse<Message> {
    DecodeMap(MessageStep, NO_MESSAGE, s)
  }

  function HeaderStep(key: seq<Byte>, acc: LightBlockHeader, s: seq<Byte>): Parse<LightBlockHeader> {
    if key == K_0 then Then(ReadDigest(SHA256_SIZE, s), v => acc.(seed := v))
    else if key == K_1 then Then(ReadDigest(SHA256_SIZE, s), v => acc.(blockHash := v))
    else if key == K_GH then Then(ReadDigest(SHA256_SIZE, s), v => acc.(genesisHash := v))
    else if key == K_R then Then(ReadUint(s), v => acc.(round := v))
    else if key == K_TC then Then(ReadDigest(SHA256_SIZE, s), v => acc.(txnCommitment := v))
    else Unknown(acc, s)
  }

  const NO_HEADER: LightBlockHeader :=
    LightBlockHeader(Zeros(SHA256_SIZE), Zeros(SHA256_SIZE), Zeros(SHA256_SIZE), 0, ZeroDigest(SHA256_SIZE))

  function DecodeHeader(s: seq<Byte>): Parse<LightBlockHeader> {
    DecodeMap(HeaderStep, NO_HEADER, s)
  }

  // ---------------------------------------------------------------- every decoder agrees with the skipper

  lemma UnknownConsumes<T>(acc: T, s: seq<Byte>, ext: seq<Byte>)
    ensures Consumes(1, Unknown(acc, s), Unknown(acc, s + ext), s, ext)
  {
    FieldReadersConform(0, s, ext);
  }

  lemma HashFactoryStepConforms()
    ensures StepConforms(HashFactoryStep)
  {
    forall key, acc, s, ext
      ensures Consumes(1, HashFactoryStep(key, acc, s), HashFactoryStep(key, acc, s + ext), s, ext)
    {
      hide Skip, SkipMany, ReadUint;
      FieldReadersConform(0, s, ext);
      UnknownConsumes(acc, s, ext);
    }
  }

  lemma ReadPathConsumes(s: seq<Byte>, ext: seq<Byte>)
    ensures Consumes(1, ReadPath(s), ReadPath(s + ext), s, ext)
  {
    hide Skip, SkipMany, ReadArrayLen;
    forall t, more
      ensures Consumes(1, PathItem(t), PathItem(t + more), t, more)
    {
      FieldReadersConform(SUMHASH_SIZE, t, more);
    }
    HeadersSkip(s);
    LengthsExtend(s, ext);
    SkipOne(s);
    var h := ReadArrayLen(s);
    if h.Ok? { RepeatConforms(1, PathItem, h.value, [], h.rest, ext); }
  }

  lemma ProofStepConforms()
    ensures StepConforms(ProofStep)
  {
    forall key, acc, s, ext
      ensures Consumes(1, ProofStep(key, acc, s), ProofStep(key, acc, s + ext), s, ext)
    {
      hide Skip, SkipMany, ReadU8, ReadPath, DecodeMap;
      FieldReadersConform(0, s, ext);
      ReadPathConsumes(s, ext);
      HashFactoryStepConforms();
      DecodeMapConforms(HashFactoryStep, Sha512_256, s, ext);
      UnknownConsumes(acc, s, ext);
    }
  }

  lemma DecodeProofConsumes(s: seq<Byte>, ext: seq<Byte>)
    ensures Consumes(1, DecodeProof(s), DecodeProof(s + ext), s, ext)
  {
    hide Skip, SkipMany, DecodeMap;
    ProofStepConforms();
    DecodeMapConforms(ProofStep, ProofParts(NO_PROOF, Sumhash512), s, ext);
  }

  lemma DecodeVerifierConsumes(s: seq<Byte>, ext: seq<Byte>)
    ensures Consumes(1, DecodeVerifier(s), DecodeVerifier(s + ext), s, ext)
  {
    forall key, acc, t, more
      ensures Consumes(1, VerifierStep(key, acc, t), VerifierStep(key, acc, t + more), t, more)
    {
      hide Skip, SkipMany, ReadUint, ReadDigest;
      FieldReadersConform(SUMHASH_SIZE, t, more);
      UnknownConsumes(acc, t, more);
    }
    DecodeMapConforms(VerifierStep, NO_VERIFIER, s, ext);
  }

  lemma DecodeMssConsumes(f: Falcon, s: seq<Byte>, ext: seq<Byte>)
    ensures Consumes(1, DecodeMss(f, s), DecodeMss(f, s + ext), s, ext)
  {
    forall key, acc, t, more
      ensures Consumes(1, MssStep(f)(key, acc, t), MssStep(f)(key, acc, t + more), t, more)
    {
      MssFieldConsumes(f, key, acc, t, more);
    }
    DecodeMapConforms(MssStep(f), NoSignature(f), s, ext);
  }

  lemma MssFieldConsumes(f: Falcon, key: seq<Byte>, acc: MerkleSignature, s: seq<Byte>, ext: seq<Byte>)
    ensures Consumes(1, MssField(f, key, acc, s), MssField(f, key, acc, s + ext), s, ext)
  {
    hide Skip, SkipMany, ReadUint, ReadBin, DecodeProof, DecodePublicKey;
    FieldReadersConform(0, s, ext);
    DecodeProofConsumes(s, ext);
    DecodePublicKeyConsumes(f, s, ext);
    UnknownConsumes(acc, s, ext);
  }

  lemma DecodePublicKeyConsumes(f: Falcon, s: seq<Byte>, ext: seq<Byte>)
    ensures Consumes(1, DecodePublicKey(f, s), DecodePublicKey(f, s + ext), s, ext)
  {
    hide Skip, SkipMany, DecodeMap, ReadKey;
    forall key, acc, t, more
      ensures Consumes(1, PublicKeyStep(key, acc, t), PublicKeyStep(key, acc, t + more), t, more)
    {
      FieldReadersConform(0, t, more);
      UnknownConsumes(acc, t, more);
    }
    DecodeMapConforms(PublicKeyStep, Zeros(PUBKEY_SIZE), s, ext);
  }

  lemma DecodeSigSlotConsumes(f: Falcon, s: seq<Byte>, ext: seq<Byte>)
    ensures Consumes(1, DecodeSigSlot(f, s), DecodeSigSlot(f, s + ext), s, ext)
  {
    forall key, acc, t, more
      ensures Consumes(1, SigSlotStep(f)(key, acc, t), SigSlotStep(f)(key, acc, t + more), t, more)
    {
      hide Skip, SkipMany, ReadUint, DecodeMss;
      FieldReadersConform(0, t, more);
      DecodeMssConsumes(f, t, more);
      UnknownConsumes(acc, t, more);
    }
    DecodeMapConforms(SigSlotStep(f), SigSlot(NoSignature(f), 0), s, ext);
  }

  lemma DecodeParticipantConsumes(s: seq<Byte>, ext: seq<Byte>)
    ensures Consumes(1, DecodeParticipant(s), DecodeParticipant(s + ext), s, ext)
  {
    forall key, acc, t, more
      ensures Consumes(1, ParticipantStep(key, acc, t), ParticipantStep(key, acc, t + more), t, more)
    {
      hide Skip, SkipMany, ReadUint, DecodeVerifier;
      FieldReadersConform(0, t, more);
      DecodeVerifierConsumes(t, more);
      UnknownConsumes(acc, t, more);
    }
    DecodeMapConforms(ParticipantStep, NO_PARTICIPANT, s, ext);
  }

  lemma DecodeRevealConsumes(f: Falcon, s: seq<Byte>, ext: seq<Byte>)
    ensures Consumes(1, DecodeReveal(f, s), DecodeReveal(f, s + ext), s, ext)
  {
    forall key, acc, t, more
      ensures Consumes(1, RevealStep(f)(key, acc, t), RevealStep(f)(key, acc, t + more), t, more)
    {
      hide Skip, SkipMany, DecodeSigSlot, DecodeParticipant;
      DecodeSigSlotConsumes(f, t, more);
      DecodeParticipantConsumes(t, more);
      UnknownConsumes(acc, t, more);
    }
    DecodeMapConforms(RevealStep(f), Reveal(SigSlot(NoSignature(f), 0), NO_PARTICIPANT), s, ext);
  }

  lemma RevealItemConforms(f: Falcon)
    ensures DecoderConforms(2, RevealItem(f))
  {
    forall s, ext
      ensures Consumes(2, RevealItem(f)(s), RevealItem(f)(s + ext), s, ext)
    {
      RevealAtConsumes(f, s, ext);
    }
  }

  lemma RevealAtConsumes(f: Falcon, s: seq<Byte>, ext: seq<Byte>)
    ensures Consumes(2, DecodeRevealAt(f, s), DecodeRevealAt(f, s + ext), s, ext)
  {
    hide Skip, SkipMany, ReadUint, DecodeReveal;
    UintConsumes(s, ext);
    var p := ReadUint(s);
    if p.Ok? {
      DecodeRevealConsumes(f, p.rest, ext);
      SkipManyAppend(1, 1, s);
    }
  }

  lemma UintConsumes(s: seq<Byte>, ext: seq<Byte>)
    ensures Consumes(1, ReadUint(s), ReadUint(s + ext), s, ext)
  {
    FieldReadersConform(0, s, ext);
  }

  lemma ReadRevealsConsumes(f: Falcon, s: seq<Byte>, ext: seq<Byte>)
    ensures Consumes(1, ReadReveals(f, s), ReadReveals(f, s + ext), s, ext)
  {
    hide Skip, SkipMany, ReadMapLen, ReadArrayLen, RevealItem, Repeat, ReadStrLen, ReadBinLen;
    RevealItemConforms(f);
    HeadersSkip(s);
    LengthsExtend(s, ext);
    SkipOne(s);
    var h := ReadMapLen(s);
    if h.Ok? { RepeatConforms(2, RevealItem(f), h.value, [], h.rest, ext); }
  }

  lemma ReadPositionsConsumes(s: seq<Byte>, ext: seq<Byte>)
    ensures Consumes(1, ReadPositions(s), ReadPositions(s + ext), s, ext)
  {
    hide Skip, SkipMany, ReadArrayLen, ReadUint;
    forall t, more
      ensures Consumes(1, ReadUint(t), ReadUint(t + more), t, more)
    {
      FieldReadersConform(0, t, more);
    }
    HeadersSkip(s);
    LengthsExtend(s, ext);
    SkipOne(s);
    var h := ReadArrayLen(s);
    if h.Ok? { RepeatConforms(1, ReadUint, h.value, [], h.rest, ext); }
  }

  /** A state proof decoder that succeeds stops where the skipper stops. */
  lemma DecodeStateProofConsumes(f: Falcon, s: seq<Byte>, ext: seq<Byte>)
    ensures Consumes(1, DecodeStateProof(f, s), DecodeStateProof(f, s + ext), s, ext)
  {
    forall key, acc, t, more
      ensures Consumes(1, StateProofStep(f)(key, acc, t), StateProofStep(f)(key, acc, t + more), t, more)
    {
      StateProofFieldConsumes(f, key, acc, t, more);
    }
    DecodeMapConforms(StateProofStep(f), NO_STATE_PROOF, s, ext);
  }

  lemma StateProofFieldConsumes(f: Falcon, key: seq<Byte>, acc: StateProof, s: seq<Byte>, ext: seq<Byte>)
    ensures Consumes(1, StateProofField(f, key, acc, s), StateProofField(f, key, acc, s + ext), s, ext)
  {
    hide Skip, SkipMany, ReadDigest, ReadWeight, ReadU8, DecodeProof, ReadReveals, ReadPositions;
    FieldReadersConform(SUMHASH_SIZE, s, ext);
    DecodeProofConsumes(s, ext);
    ReadRevealsConsumes(f, s, ext);
    ReadPositionsConsumes(s, ext);
    UnknownConsumes(acc, s, ext);
  }

  lemma DecodeMessageConsumes(s: seq<Byte>, ext: seq<Byte>)
    ensures Consumes(1, DecodeMessage(s), DecodeMessage(s + ext), s, ext)
  {
    forall key, acc, t, more
      ensures Consumes(1, MessageStep(key, acc, t), MessageStep(key, acc, t + more), t, more)
    {
      hide Skip, SkipMany, ReadUint, ReadDigest;
      FieldReadersConform(SHA256_SIZE, t, more);
      FieldReadersConform(SUMHASH_SIZE, t, more);
      UnknownConsumes(acc, t, more);
    }
    DecodeMapConforms(MessageStep, NO_MESSAGE, s, ext);
  }

  lemma DecodeHeaderConsumes(s: seq<Byte>, ext: seq<Byte>)
    ensures Consumes(1, DecodeHeader(s), DecodeHeader(s + ext), s, ext)
  {
    forall key, acc, t, more
      ensures Consumes(1, HeaderStep(key, acc, t), HeaderStep(key, acc, t + more), t, more)
    {
      hide Skip, SkipMany, ReadUint, ReadDigest;
      FieldReadersConform(SHA256_SIZE, t, more);
      UnknownConsumes(acc, t, more);
    }
    DecodeMapConforms(HeaderStep, NO_HEADER, s, ext);
  }

  // ---------------------------------------------------------------- prefix-freeness

  /** What `decode` accepts is prefix-free: extensions are trailing bytes and strict prefixes fail. */
  lemma PrefixFree<T(!new)>(decoder: seq<Byte> -> Parse<T>, bytes: seq<Byte>, ext: seq<Byte>)
    requires DecoderConforms(1, decoder) && DecodeAll(decoder, bytes).Ok?
    ensures Skip(bytes) == Ok((), [])
    ensures ext != [] ==> DecodeAll(decoder, bytes + ext) == Err(TrailingBytes)
    ensures ext < bytes ==> DecodeAll(decoder, ext).Err?
  {
    hide Skip, SkipMany;
    SkipOne(bytes);
    assert Consumes(1, decoder(bytes), decoder(bytes + ext), bytes, ext);
    if ext < bytes {
      var more := bytes[|ext|..];
      assert bytes == ext + more;
      assert Consumes(1, decoder(ext), decoder(ext + more), ext, more);
    }
  }

  lemma AllDecodersConform(f: Falcon)
    ensures DecoderConforms(1, (s: seq<Byte>) => DecodeStateProof(f, s))
    ensures DecoderConforms(1, DecodeMessage)
    ensures DecoderConforms(1, DecodeHeader)
    ensures DecoderConforms(1, DecodeProof)
  {
    hide Consumes, DecodeStateProof, DecodeMessage, DecodeHeader, DecodeProof;
    forall s, ext
      ensures Consumes(1, DecodeStateProof(f, s), DecodeStateProof(f, s + ext), s, ext)
    {
      DecodeStateProofConsumes(f, s, ext);
    }
    forall s, ext
      ensures Consumes(1, DecodeMessage(s), DecodeMessage(s + ext), s, ext)
    {
      DecodeMessageConsumes(s, ext);
    }
    forall s, ext
      ensures Consumes(1, DecodeHeader(s), DecodeHeader(s + ext), s, ext)
    {
      DecodeHeaderConsumes(s, ext);
    }
    forall s, ext
      ensures Consumes(1, DecodeProof(s), DecodeProof(s + ext), s, ext)
    {
      DecodeProofConsumes(s, ext);
    }
  }
}
