/** The decoders as they run: loops over map entries that advance one shared reader. */
module DecodeLoops {
  import opened Bytes
  import opened Hashing
  import opened MerkleTree
  import opened Types
  import opened Wire
  import opened Decoders
  import opened TypedDecoders
  import R = Reader

  // ---------------------------------------------------------------- field readers

  method TakeDigest(r: R.Reader, size: nat) returns (res: R.Result<Digest>)
    requires r.Valid()
    modifies r
    ensures r.Valid() && old(r.pos) <= r.pos && r.Agrees(res, ReadDigest(size, old(r.Rest())))
  {
    hide ReadBin;
    var b :- r.ReadBin();
    res := if |b| != size then R.Failure(InvalidDigestSize(size, |b|)) else R.Success(b);
  }

  method TakeKey(r: R.Reader) returns (res: R.Result<seq<Byte>>)
    requires r.Valid()
    modifies r
    ensures r.Valid() && old(r.pos) <= r.pos && r.Agrees(res, ReadKey(old(r.Rest())))
  {
    hide ReadBin;
    var b :- r.ReadBin();
    res := if |b| != PUBKEY_SIZE then R.Failure(InvalidPublicKeySize(PUBKEY_SIZE, |b|)) else R.Success(b);
  }

  method TakeU8(r: R.Reader) returns (res: R.Result<Byte>)
    requires r.Valid()
    modifies r
    ensures r.Valid() && old(r.pos) <= r.pos && r.Agrees(res, ReadU8(old(r.Rest())))
  {
    hide ReadUint;
    var v :- r.ReadUint();
    res := R.Success(v % 256);
  }

  method TakeWeight(r: R.Reader) returns (res: R.Result<U64>)
    requires r.Valid()
    modifies r
    ensures r.Valid() && old(r.pos) <= r.pos && r.Agrees(res, ReadWeight(old(r.Rest())))
  {
    hide ReadUint;
    var v :- r.ReadUint();
    res := if v == 0 then R.Failure(ZeroSignedWeight) else R.Success(v);
  }

  method TakeHashType(r: R.Reader) returns (res: R.Result<HashType>)
    requires r.Valid()
    modifies r
    ensures r.Valid() && old(r.pos) <= r.pos && r.Agrees(res, DecodeHashType(old(r.Rest())))
  {
    hide ReadUint;
    var v :- r.ReadUint();
    if v == 0 { res := R.Success(Sha512_256); }
    else if v == 1 { res := R.Success(Sumhash512); }
    else if v == 2 { res := R.Success(Sha256); }
    else if v == 3 { res := R.Success(Sha512); }
    else { res := R.Failure(InvalidHashType(v)); }
  }

  method TakeSignature(r: R.Reader, f: Falcon) returns (res: R.Result<seq<Byte>>)
    requires r.Valid()
    modifies r
    ensures r.Valid() && old(r.pos) <= r.pos && r.Agrees(res, DecodeSignature(f, old(r.Rest())))
  {
    hide ReadBin;
    var b :- r.ReadBin();
    res := if f.validSig(b) then R.Success(b) else R.Failure(InvalidSignature);
  }

  method TakePath(r: R.Reader) returns (res: R.Result<seq<Digest>>)
    requires r.Valid()
    modifies r
    ensures r.Valid() && old(r.pos) <= r.pos && r.Agrees(res, ReadPath(old(r.Rest())))
  {
    hide R.Reader.Rest, R.Reader.Valid, ReadArrayLen, ReadDigest;
    var n :- r.ReadArrayLen();
    ghost var start := r.Rest();
    var path: seq<Digest> := [];
    var i := 0;
    while i < n
      invariant 0 <= i <= n && r.Valid() && old(r.pos) <= r.pos
      invariant Repeat(PathItem, n - i, path, r.Rest()) == Repeat(PathItem, n, [], start)
    {
      var digest :- TakeDigest(r, SUMHASH_SIZE);
      path := path + [digest];
      i := i + 1;
    }
    res := R.Success(path);
  }

  // ---------------------------------------------------------------- records

  /** `HashFactory::decode_from` */
  method DecodeHashFactoryFrom(r: R.Reader) returns (res: R.Result<HashType>)
    requires r.Valid()
    modifies r
    ensures r.Valid() && old(r.pos) <= r.pos && r.Agrees(res, DecodeHashFactory(old(r.Rest())))
  {
    hide R.Reader.Rest, R.Reader.Valid, Fields, ReadMapLen, ReadStr, Skip, DecodeHashType;
    var n :- r.ReadMapLen();
    ghost var start := r.Rest();
    var out := Sha512_256;
    var i := 0;
    while i < n
      invariant 0 <= i <= n && r.Valid() && old(r.pos) <= r.pos
      invariant Fields(HashFactoryStep, n - i, out, r.Rest()) == Fields(HashFactoryStep, n, Sha512_256, start)
    {
      FieldsNext(HashFactoryStep, n - i, out, r.Rest());
      var key :- r.ReadStr();
      if key == K_T {
        var v :- TakeHashType(r);
        out := v;
      } else {
        var _ :- r.Skip();
      }
      i := i + 1;
    }
    FieldsDone(HashFactoryStep, out, r.Rest());
    res := R.Success(out);
  }

  /** `Proof::<Sumhash512>::decode_from` */
  method DecodeProofFrom(r: R.Reader) returns (res: R.Result<Proof>)
    requires r.Valid()
    modifies r
    ensures r.Valid() && old(r.pos) <= r.pos && r.Agrees(res, DecodeProof(old(r.Rest())))
  {
    hide R.Reader.Rest, R.Reader.Valid, Fields, ReadMapLen, ReadStr, Skip, ReadU8, ReadPath, DecodeHashFactory;
    var n :- r.ReadMapLen();
    ghost var start := r.Rest();
    var out := ProofParts(NO_PROOF, Sumhash512);
    var i := 0;
    while i < n
      invariant 0 <= i <= n && r.Valid() && old(r.pos) <= r.pos
      invariant Fields(ProofStep, n - i, out, r.Rest()) == Fields(ProofStep, n, ProofParts(NO_PROOF, Sumhash512), start)
    {
      FieldsNext(ProofStep, n - i, out, r.Rest());
      var key :- r.ReadStr();
      if key == K_TD {
        var v :- TakeU8(r);
        out := out.(proof := out.proof.(treeDepth := v));
      } else if key == K_PTH {
        var v :- TakePath(r);
        out := out.(proof := out.proof.(path := v));
      } else if key == K_HSH {
        var v :- DecodeHashFactoryFrom(r);
        out := out.(hashType := v);
      } else {
        var _ :- r.Skip();
      }
      i := i + 1;
    }
    FieldsDone(ProofStep, out, r.Rest());
    res := if out.hashType != Sumhash512 then R.Failure(HashTypeMismatch(Sumhash512, out.hashType))
           else R.Success(out.proof);
  }

  /** `PublicKey::decode_from` */
  method DecodePublicKeyFrom(r: R.Reader, f: Falcon) returns (res: R.Result<seq<Byte>>)
    requires r.Valid()
    modifies r
    ensures r.Valid() && old(r.pos) <= r.pos && r.Agrees(res, DecodePublicKey(f, old(r.Rest())))
  {
    hide R.Reader.Rest, R.Reader.Valid, Fields, ReadMapLen, ReadStr, Skip, ReadKey;
    var n :- r.ReadMapLen();
    ghost var start := r.Rest();
    var out := Zeros(PUBKEY_SIZE);
    var i := 0;
    while i < n
      invariant 0 <= i <= n && r.Valid() && old(r.pos) <= r.pos
      invariant Fields(PublicKeyStep, n - i, out, r.Rest()) == Fields(PublicKeyStep, n, Zeros(PUBKEY_SIZE), start)
    {
      FieldsNext(PublicKeyStep, n - i, out, r.Rest());
      var key :- r.ReadStr();
      if key == K_K {
        var v :- TakeKey(r);
        out := v;
      } else {
        var _ :- r.Skip();
      }
      i := i + 1;
    }
    FieldsDone(PublicKeyStep, out, r.Rest());
    res := if f.validKey(out) then R.Success(out) else R.Failure(InvalidPublicKey);
  }

  /** `MerkleVerifier::decode_from` */
  method DecodeVerifierFrom(r: R.Reader) returns (res: R.Result<MerkleVerifier>)
    requires r.Valid()
    modifies r
    ensures r.Valid() && old(r.pos) <= r.pos && r.Agrees(res, DecodeVerifier(old(r.Rest())))
  {
    hide R.Reader.Rest, R.Reader.Valid, Fields, ReadMapLen, ReadStr, Skip, ReadDigest, ReadUint;
    var n :- r.ReadMapLen();
    ghost var start := r.Rest();
    var out := NO_VERIFIER;
    var i := 0;
    while i < n
      invariant 0 <= i <= n && r.Valid() && old(r.pos) <= r.pos
      invariant Fields(VerifierStep, n - i, out, r.Rest()) == Fields(VerifierStep, n, NO_VERIFIER, start)
    {
      FieldsNext(VerifierStep, n - i, out, r.Rest());
      var key :- r.ReadStr();
      if key == K_CMT {
        var v :- TakeDigest(r, SUMHASH_SIZE);
        out := out.(commitment := v);
      } else if key == K_LF {
        var v :- r.ReadUint();
        out := out.(keyLifetime := v);
      } else {
        var _ :- r.Skip();
      }
      i := i + 1;
    }
    FieldsDone(VerifierStep, out, r.Rest());
    res := R.Success(out);
  }

  /** `MerkleSignatureScheme::decode_from` */
  method DecodeMssFrom(r: R.Reader, f: Falcon) returns (res: R.Result<MerkleSignature>)
    requires r.Valid()
    modifies r
    ensures r.Valid() && old(r.pos) <= r.pos && r.Agrees(res, DecodeMss(f, old(r.Rest())))
  {
    hide R.Reader.Rest, R.Reader.Valid, Fields, ReadMapLen, ReadStr, Skip, DecodeSignature, ReadUint, DecodeProof;
    hide DecodePublicKey, NoSignature;
    var n :- r.ReadMapLen();
    ghost var start := r.Rest();
    var out := NoSignature(f);
    var i := 0;
    while i < n
      invariant 0 <= i <= n && r.Valid() && old(r.pos) <= r.pos
      invariant Fields(MssStep(f), n - i, out, r.Rest()) == Fields(MssStep(f), n, NoSignature(f), start)
    {
      FieldsNext(MssStep(f), n - i, out, r.Rest());
      var key :- r.ReadStr();
      if key == K_SIG {
        var v :- TakeSignature(r, f);
        out := out.(signature := v);
      } else if key == K_IDX {
        var v :- r.ReadUint();
        out := out.(vcIndex := v);
      } else if key == K_PRF {
        var v :- DecodeProofFrom(r);
        out := out.(proof := v);
      } else if key == K_VKEY {
        var v :- DecodePublicKeyFrom(r, f);
        out := out.(verifyingKey := v);
      } else {
        var _ :- r.Skip();
      }
      i := i + 1;
    }
    FieldsDone(MssStep(f), out, r.Rest());
    res := R.Success(out);
  }

  /** `SigSlotCommit::decode_from` */
  method DecodeSigSlotFrom(r: R.Reader, f: Falcon) returns (res: R.Result<SigSlot>)
    requires r.Valid()
    modifies r
    ensures r.Valid() && old(r.pos) <= r.pos && r.Agrees(res, DecodeSigSlot(f, old(r.Rest())))
  {
    hide R.Reader.Rest, R.Reader.Valid, Fields, ReadMapLen, ReadStr, Skip, DecodeMss, ReadUint, NoSignature;
    var n :- r.ReadMapLen();
    ghost var start := r.Rest();
    var out := SigSlot(NoSignature(f), 0);
    var i := 0;
    while i < n
      invariant 0 <= i <= n && r.Valid() && old(r.pos) <= r.pos
      invariant Fields(SigSlotStep(f), n - i, out, r.Rest())
             == Fields(SigSlotStep(f), n, SigSlot(NoSignature(f), 0), start)
    {
      FieldsNext(SigSlotStep(f), n - i, out, r.Rest());
      var key :- r.ReadStr();
      if key == K_S {
        var v :- DecodeMssFrom(r, f);
        out := out.(mss := v);
      } else if key == K_L {
        var v :- r.ReadUint();
        out := out.(l := v);
      } else {
        var _ :- r.Skip();
      }
      i := i + 1;
    }
    FieldsDone(SigSlotStep(f), out, r.Rest());
    res := R.Success(out);
  }

  /** `Participant::decode_from` */
  method DecodeParticipantFrom(r: R.Reader) returns (res: R.Result<Participant>)
    requires r.Valid()
    modifies r
    ensures r.Valid() && old(r.pos) <= r.pos && r.Agrees(res, DecodeParticipant(old(r.Rest())))
  {
    hide R.Reader.Rest, R.Reader.Valid, Fields, ReadMapLen, ReadStr, Skip, DecodeVerifier, ReadUint;
    var n :- r.ReadMapLen();
    ghost var start := r.Rest();
    var out := NO_PARTICIPANT;
    var i := 0;
    while i < n
      invariant 0 <= i <= n && r.Valid() && old(r.pos) <= r.pos
      invariant Fields(ParticipantStep, n - i, out, r.Rest()) == Fields(ParticipantStep, n, NO_PARTICIPANT, start)
    {
      FieldsNext(ParticipantStep, n - i, out, r.Rest());
      var key :- r.ReadStr();
      if key == K_P {
        var v :- DecodeVerifierFrom(r);
        out := out.(pk := v);
      } else if key == K_W {
        var v :- r.ReadUint();
        out := out.(weight := v);
      } else {
        var _ :- r.Skip();
      }
      i := i + 1;
    }
    FieldsDone(ParticipantStep, out, r.Rest());
    res := R.Success(out);
  }

  /** `Reveal::decode_from` */
  method DecodeRevealFrom(r: R.Reader, f: Falcon) returns (res: R.Result<Reveal>)
    requires r.Valid()
    modifies r
    ensures r.Valid() && old(r.pos) <= r.pos && r.Agrees(res, DecodeReveal(f, old(r.Rest())))
  {
    hide R.Reader.Rest, R.Reader.Valid, Fields, ReadMapLen, ReadStr, Skip, DecodeSigSlot, DecodeParticipant;
    hide NoSignature;
    var n :- r.ReadMapLen();
    ghost var start := r.Rest();
    var out := Reveal(SigSlot(NoSignature(f), 0), NO_PARTICIPANT);
    var i := 0;
    while i < n
      invariant 0 <= i <= n && r.Valid() && old(r.pos) <= r.pos
      invariant Fields(RevealStep(f), n - i, out, r.Rest())
             == Fields(RevealStep(f), n, Reveal(SigSlot(NoSignature(f), 0), NO_PARTICIPANT), start)
    {
      FieldsNext(RevealStep(f), n - i, out, r.Rest());
      var key :- r.ReadStr();
      if key == K_S {
        var v :- DecodeSigSlotFrom(r, f);
        out := out.(sigSlot := v);
      } else if key == K_P {
        var v :- DecodeParticipantFrom(r);
        out := out.(participant := v);
      } else {
        var _ :- r.Skip();
      }
      i := i + 1;
    }
    FieldsDone(RevealStep(f), out, r.Rest());
    res := R.Success(out);
  }

  /** The `"r"` field: at most `MAX_REVEALS` positions with their reveals, in wire order. */
  method TakeReveals(r: R.Reader, f: Falcon) returns (res: R.Result<seq<RevealAt>>)
    requires r.Valid()
    modifies r
    ensures r.Valid() && old(r.pos) <= r.pos && r.Agrees(res, ReadReveals(f, old(r.Rest())))
  {
    hide R.Reader.Rest, R.Reader.Valid, ReadMapLen, ReadUint, DecodeReveal;
    var n :- r.ReadMapLen();
    if n > MAX_REVEALS { return R.Failure(TooManyReveals(n, MAX_REVEALS)); }
    ghost var start := r.Rest();
    var openings: seq<RevealAt> := [];
    var i := 0;
    while i < n
      invariant 0 <= i <= n && r.Valid() && old(r.pos) <= r.pos
      invariant Repeat(RevealItem(f), n - i, openings, r.Rest()) == Repeat(RevealItem(f), n, [], start)
    {
      var pos :- r.ReadUint();
      var opening :- DecodeRevealFrom(r, f);
      openings := openings + [RevealAt(pos, opening)];
      i := i + 1;
    }
    res := R.Success(openings);
  }

  /** The `"pr"` field: at most `MAX_REVEALS` positions. */
  method TakePositions(r: R.Reader) returns (res: R.Result<seq<U64>>)
    requires r.Valid()
    modifies r
    ensures r.Valid() && old(r.pos) <= r.pos && r.Agrees(res, ReadPositions(old(r.Rest())))
  {
    hide R.Reader.Rest, R.Reader.Valid, ReadArrayLen, ReadUint;
    var n :- r.ReadArrayLen();
    if n > MAX_REVEALS { return R.Failure(TooManyReveals(n, MAX_REVEALS)); }
    ghost var start := r.Rest();
    var positions: seq<U64> := [];
    var i := 0;
    while i < n
      invariant 0 <= i <= n && r.Valid() && old(r.pos) <= r.pos
      invariant Repeat(ReadUint, n - i, positions, r.Rest()) == Repeat(ReadUint, n, [], start)
    {
      var pos :- r.ReadUint();
      positions := positions + [pos];
      i := i + 1;
    }
    res := R.Success(positions);
  }

  /** `StateProof::decode_from` */
  method DecodeStateProofFrom(r: R.Reader, f: Falcon) returns (res: R.Result<StateProof>)
    requires r.Valid()
    modifies r
    ensures r.Valid() && old(r.pos) <= r.pos && r.Agrees(res, DecodeStateProof(f, old(r.Rest())))
  {
    hide R.Reader.Rest, R.Reader.Valid, Fields, ReadMapLen, ReadStr, Skip, ReadDigest, ReadWeight, ReadU8;
    hide DecodeProof, ReadReveals, ReadPositions;
    var n :- r.ReadMapLen();
    ghost var start := r.Rest();
    var out := NO_STATE_PROOF;
    var i := 0;
    while i < n
      invariant 0 <= i <= n && r.Valid() && old(r.pos) <= r.pos
      invariant Fields(StateProofStep(f), n - i, out, r.Rest()) == Fields(StateProofStep(f), n, NO_STATE_PROOF, start)
    {
      FieldsNext(StateProofStep(f), n - i, out, r.Rest());
      var key :- r.ReadStr();
      if key == K_C {
        var v :- TakeDigest(r, SUMHASH_SIZE);
        out := out.(sigCommitment := v);
      } else if key == K_W {
        var v :- TakeWeight(r);
        out := out.(signedWeight := v);
      } else if key == K_S_UPPER {
        var v :- DecodeProofFrom(r);
        out := out.(sigProofs := v);
      } else if key == K_P_UPPER {
        var v :- DecodeProofFrom(r);
        out := out.(partProofs := v);
      } else if key == K_V {
        var v :- TakeU8(r);
        out := out.(saltVersion := v);
      } else if key == K_R {
        var v :- TakeReveals(r, f);
        out := out.(openings := v);
      } else if key == K_PR {
        var v :- TakePositions(r);
        out := out.(positions := v);
      } else {
        var _ :- r.Skip();
      }
      i := i + 1;
    }
    FieldsDone(StateProofStep(f), out, r.Rest());
    res := R.Success(out);
  }

  /** `StateProofMessage::decode_from` */
  method DecodeMessageFrom(r: R.Reader) returns (res: R.Result<Message>)
    requires r.Valid()
    modifies r
    ensures r.Valid() && old(r.pos) <= r.pos && r.Agrees(res, DecodeMessage(old(r.Rest())))
  {
    hide R.Reader.Rest, R.Reader.Valid, Fields, ReadMapLen, ReadStr, Skip, ReadDigest, ReadUint;
    var n :- r.ReadMapLen();
    ghost var start := r.Rest();
    var out := NO_MESSAGE;
    var i := 0;
    while i < n
      invariant 0 <= i <= n && r.Valid() && old(r.pos) <= r.pos
      invariant Fields(MessageStep, n - i, out, r.Rest()) == Fields(MessageStep, n, NO_MESSAGE, start)
    {
      FieldsNext(MessageStep, n - i, out, r.Rest());
      var key :- r.ReadStr();
      if key == K_P_UPPER {
        var v :- r.ReadUint();
        out := out.(lnProvenWeight := v);
      } else if key == K_B {
        var v :- TakeDigest(r, SHA256_SIZE);
        out := out.(blockHeaders := v);
      } else if key == K_F {
        var v :- r.ReadUint();
        out := out.(firstRound := v);
      } else if key == K_L {
        var v :- r.ReadUint();
        out := out.(lastRound := v);
      } else if key == K_V {
        var v :- TakeDigest(r, SUMHASH_SIZE);
        out := out.(voters := v);
      } else {
        var _ :- r.Skip();
      }
      i := i + 1;
    }
    FieldsDone(MessageStep, out, r.Rest());
    res := R.Success(out);
  }

  /** `LightBlockHeader::decode_from` */
  method DecodeHeaderFrom(r: R.Reader) returns (res: R.Result<LightBlockHeader>)
    requires r.Valid()
    modifies r
    ensures r.Valid() && old(r.pos) <= r.pos && r.Agrees(res, DecodeHeader(old(r.Rest())))
  {
    hide R.Reader.Rest, R.Reader.Valid, Fields, ReadMapLen, ReadStr, Skip, ReadDigest, ReadUint;
    var n :- r.ReadMapLen();
    ghost var start := r.Rest();
    var out := NO_HEADER;
    var i := 0;
    while i < n
      invariant 0 <= i <= n && r.Valid() && old(r.pos) <= r.pos
      invariant Fields(HeaderStep, n - i, out, r.Rest()) == Fields(HeaderStep, n, NO_HEADER, start)
    {
      FieldsNext(HeaderStep, n - i, out, r.Rest());
      var key :- r.ReadStr();
      if key == K_0 {
        var v :- TakeDigest(r, SHA256_SIZE);
        out := out.(seed := v);
      } else if key == K_1 {
        var v :- TakeDigest(r, SHA256_SIZE);
        out := out.(blockHash := v);
      } else if key == K_GH {
        var v :- TakeDigest(r, SHA256_SIZE);
        out := out.(genesisHash := v);
      } else if key == K_R {
        var v :- r.ReadUint();
        out := out.(round := v);
      } else if key == K_TC {
        var v :- TakeDigest(r, SHA256_SIZE);
        out := out.(txnCommitment := v);
      } else {
        var _ :- r.Skip();
      }
      i := i + 1;
    }
    FieldsDone(HeaderStep, out, r.Rest());
    res := R.Success(out);
  }

  // ---------------------------------------------------------------- whole inputs

  /** A result without a position carries the value or the error of `p`. */
  ghost predicate Same<T>(res: R.Result<T>, p: Parse<T>) {
    match p
    case Ok(v, _) => res == R.Success(v)
    case Err(e) => res == R.Failure(e)
  }

  /** The check for unread bytes that ends every `decode`. */
  method Finish<T>(r: R.Reader, v: T, ghost p: Parse<T>) returns (res: R.Result<T>)
    requires r.Valid() && p == Ok(v, r.Rest())
    ensures Same(res, if |p.rest| > 0 then Err(TrailingBytes) else p)
  {
    var n := r.Remaining();
    res := if n > 0 then R.Failure(TrailingBytes) else R.Success(v);
  }

  method StateProofFromMsgpack(bytes: seq<Byte>, f: Falcon) returns (res: R.Result<StateProof>)
    ensures Same(res, DecodeAll((s: seq<Byte>) => DecodeStateProof(f, s), bytes))
  {
    hide DecodeStateProof;
    var r := new R.Reader(bytes);
    var v :- DecodeStateProofFrom(r, f);
    res := Finish(r, v, DecodeStateProof(f, bytes));
  }

  method MessageFromMsgpack(bytes: seq<Byte>) returns (res: R.Result<Message>)
    ensures Same(res, DecodeAll(DecodeMessage, bytes))
  {
    hide DecodeMessage;
    var r := new R.Reader(bytes);
    var v :- DecodeMessageFrom(r);
    res := Finish(r, v, DecodeMessage(bytes));
  }

  method HeaderFromMsgpack(bytes: seq<Byte>) returns (res: R.Result<LightBlockHeader>)
    ensures Same(res, DecodeAll(DecodeHeader, bytes))
  {
    hide DecodeHeader;
    var r := new R.Reader(bytes);
    var v :- DecodeHeaderFrom(r);
    res := Finish(r, v, DecodeHeader(bytes));
  }
}
