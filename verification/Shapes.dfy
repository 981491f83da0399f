/** Whatever is decoded has the lengths that the program's types fix, so the verifier can be run on it. */
module Shapes {
  import opened Bytes
  import opened Hashing
  import opened Types
  import opened Leaves
  import opened Wire
  import opened Decoders
  import opened TypedDecoders
  import opened RoundTrip
  import opened VerifierRun

  // ---------------------------------------------------------------- loops keep what their steps keep

  /** A step that succeeds keeps the property. */
  ghost predicate StepKeeps<T(!new)>(step: (seq<Byte>, T, seq<Byte>) -> Parse<T>, P: T -> bool) {
    forall key, acc, s :: P(acc) && step(key, acc, s).Ok? ==> P(step(key, acc, s).value)
  }

  lemma {:induction false} FieldsKeep<T(!new)>(
    step: (seq<Byte>, T, seq<Byte>) -> Parse<T>, P: T -> bool, n: nat, acc: T, s: seq<Byte>)
    requires StepKeeps(step, P) && P(acc)
    ensures Fields(step, n, acc, s).Ok? ==> P(Fields(step, n, acc, s).value)
    decreases n
  {
    hide ReadStr;
    if n > 0 && ReadStr(s).Ok? {
      var k := ReadStr(s);
      var next := step(k.value, acc, k.rest);
      if next.Ok? { FieldsKeep(step, P, n - 1, next.value, next.rest); }
    }
  }

  lemma DecodeMapKeeps<T(!new)>(step: (seq<Byte>, T, seq<Byte>) -> Parse<T>, P: T -> bool, init: T, s: seq<Byte>)
    requires StepKeeps(step, P) && P(init)
    ensures DecodeMap(step, init, s).Ok? ==> P(DecodeMap(step, init, s).value)
  {
    hide ReadMapLen, Fields;
    var h := ReadMapLen(s);
    if h.Ok? { FieldsKeep(step, P, h.value, init, h.rest); }
  }

  ghost predicate All<T>(xs: seq<T>, P: T -> bool) {
    forall i :: 0 <= i < |xs| ==> P(xs[i])
  }

  lemma {:induction false} RepeatKeeps<T(!new)>(
    item: seq<Byte> -> Parse<T>, P: T -> bool, n: nat, acc: seq<T>, s: seq<Byte>)
    requires All(acc, P) && forall t :: item(t).Ok? ==> P(item(t).value)
    ensures Repeat(item, n, acc, s).Ok? ==> All(Repeat(item, n, acc, s).value, P)
    decreases n
  {
    if n > 0 {
      var x := item(s);
      if x.Ok? { RepeatKeeps(item, P, n - 1, acc + [x.value], x.rest); }
    }
  }

  // ---------------------------------------------------------------- proofs and keys

  lemma DigestLength(size: nat, s: seq<Byte>)
    ensures ReadDigest(size, s).Ok? ==> |ReadDigest(size, s).value| == size
  {
    hide ReadBin;
  }

  lemma ReadPathValid(s: seq<Byte>)
    ensures ReadPath(s).Ok? ==> DigestPath(ReadPath(s).value)
  {
    hide ReadArrayLen, ReadDigest, Repeat;
    var P := (d: Digest) => |d| == SUMHASH_SIZE;
    forall t
      ensures PathItem(t).Ok? ==> P(PathItem(t).value)
    {
      DigestLength(SUMHASH_SIZE, t);
    }
    var h := ReadArrayLen(s);
    if h.Ok? { RepeatKeeps(PathItem, P, h.value, [], h.rest); }
  }

  lemma ProofValid(s: seq<Byte>)
    ensures DecodeProof(s).Ok? ==> DigestPath(DecodeProof(s).value.path)
  {
    hide DecodeMap, ReadPath, ReadU8, DecodeHashFactory, Skip;
    var P := (parts: ProofParts) => DigestPath(parts.proof.path);
    forall key, acc, t | P(acc) && ProofStep(key, acc, t).Ok?
      ensures P(ProofStep(key, acc, t).value)
    {
      ReadPathValid(t);
    }
    DecodeMapKeeps(ProofStep, P, ProofParts(NO_PROOF, Sumhash512), s);
  }

  lemma PublicKeyValid(f: Falcon, s: seq<Byte>)
    ensures DecodePublicKey(f, s).Ok? ==> |DecodePublicKey(f, s).value| == PUBKEY_SIZE
  {
    hide DecodeMap, ReadBin, Skip;
    DecodeMapKeeps(PublicKeyStep, (b: seq<Byte>) => |b| == PUBKEY_SIZE, Zeros(PUBKEY_SIZE), s);
  }

  lemma VerifierValid(s: seq<Byte>)
    ensures DecodeVerifier(s).Ok? ==> |DecodeVerifier(s).value.commitment| == SUMHASH_SIZE
  {
    hide DecodeMap, ReadBin, ReadUint, Skip;
    DecodeMapKeeps(VerifierStep, (v: MerkleVerifier) => |v.commitment| == SUMHASH_SIZE, NO_VERIFIER, s);
  }

  lemma MssValid(f: Falcon, s: seq<Byte>)
    ensures DecodeMss(f, s).Ok? ==> ValidMss(DecodeMss(f, s).value)
  {
    hide DecodeMap, DecodeSignature, ReadUint, DecodeProof, DecodePublicKey, Skip, Zeros;
    var P := (m: MerkleSignature) => ValidMss(m);
    forall key, acc, t | P(acc) && MssStep(f)(key, acc, t).Ok?
      ensures P(MssStep(f)(key, acc, t).value)
    {
      ProofValid(t);
      PublicKeyValid(f, t);
    }
    DecodeMapKeeps(MssStep(f), P, NoSignature(f), s);
  }

  // ---------------------------------------------------------------- reveals

  lemma SigSlotValid(f: Falcon, s: seq<Byte>)
    ensures DecodeSigSlot(f, s).Ok? ==> ValidMss(DecodeSigSlot(f, s).value.mss)
  {
    hide DecodeMap, DecodeMss, ReadUint, Skip, Zeros;
    var P := (slot: SigSlot) => ValidMss(slot.mss);
    forall key, acc, t | P(acc) && SigSlotStep(f)(key, acc, t).Ok?
      ensures P(SigSlotStep(f)(key, acc, t).value)
    {
      MssValid(f, t);
    }
    DecodeMapKeeps(SigSlotStep(f), P, SigSlot(NoSignature(f), 0), s);
  }

  lemma ParticipantValid(s: seq<Byte>)
    ensures DecodeParticipant(s).Ok? ==> ValidParticipant(DecodeParticipant(s).value)
  {
    hide DecodeMap, DecodeVerifier, ReadUint, Skip;
    var P := (p: Participant) => ValidParticipant(p);
    forall key, acc, t | P(acc) && ParticipantStep(key, acc, t).Ok?
      ensures P(ParticipantStep(key, acc, t).value)
    {
      VerifierValid(t);
    }
    DecodeMapKeeps(ParticipantStep, P, NO_PARTICIPANT, s);
  }

  ghost predicate ValidReveal(r: Reveal) {
    ValidMss(r.sigSlot.mss) && ValidParticipant(r.participant)
  }

  lemma RevealValid(f: Falcon, s: seq<Byte>)
    ensures DecodeReveal(f, s).Ok? ==> ValidReveal(DecodeReveal(f, s).value)
  {
    hide DecodeMap, DecodeSigSlot, DecodeParticipant, Skip, Zeros;
    var P := (r: Reveal) => ValidReveal(r);
    forall key, acc, t | P(acc) && RevealStep(f)(key, acc, t).Ok?
      ensures P(RevealStep(f)(key, acc, t).value)
    {
      SigSlotValid(f, t);
      ParticipantValid(t);
    }
    DecodeMapKeeps(RevealStep(f), P, Reveal(SigSlot(NoSignature(f), 0), NO_PARTICIPANT), s);
  }

  lemma ReadRevealsValid(f: Falcon, s: seq<Byte>)
    ensures ReadReveals(f, s).Ok? ==> ValidOpenings(ReadReveals(f, s).value)
  {
    hide ReadMapLen, ReadUint, DecodeReveal, Repeat;
    var P := (o: RevealAt) => ValidOpening(o);
    forall t
      ensures RevealItem(f)(t).Ok? ==> P(RevealItem(f)(t).value)
    {
      var p := ReadUint(t);
      if p.Ok? { RevealValid(f, p.rest); }
    }
    var h := ReadMapLen(s);
    if h.Ok? { RepeatKeeps(RevealItem(f), P, h.value, [], h.rest); }
  }

  // ---------------------------------------------------------------- whole records

  /** Every state proof that is decoded, from whatever bytes, is one that the verifier can be run on. */
  lemma DecodedStateProofValid(f: Falcon, s: seq<Byte>)
    ensures DecodeStateProof(f, s).Ok? ==> ValidStateProof(DecodeStateProof(f, s).value)
  {
    hide DecodeMap, ReadDigest, ReadWeight, DecodeProof, ReadU8, ReadReveals, ReadPositions, Skip;
    var P := (sp: StateProof) => ValidStateProof(sp);
    forall key, acc, t | P(acc) && StateProofStep(f)(key, acc, t).Ok?
      ensures P(StateProofStep(f)(key, acc, t).value)
    {
      DigestLength(SUMHASH_SIZE, t);
      ProofValid(t);
      ReadRevealsValid(f, t);
    }
    DecodeMapKeeps(StateProofStep(f), P, NO_STATE_PROOF, s);
  }

  /** Every message that is decoded has digests of the right lengths, so its own encoding round-trips. */
  lemma DecodedMessageValid(s: seq<Byte>)
    ensures DecodeMessage(s).Ok? ==> ValidMessage(DecodeMessage(s).value)
  {
    hide DecodeMap, ReadDigest, ReadUint, Skip;
    var P := (m: Message) => ValidMessage(m);
    forall key, acc, t | P(acc) && MessageStep(key, acc, t).Ok?
      ensures P(MessageStep(key, acc, t).value)
    {
      DigestLength(SHA256_SIZE, t);
      DigestLength(SUMHASH_SIZE, t);
    }
    DecodeMapKeeps(MessageStep, P, NO_MESSAGE, s);
  }

  /** The same for light block headers. */
  lemma DecodedHeaderValid(s: seq<Byte>)
    ensures DecodeHeader(s).Ok? ==> ValidHeader(DecodeHeader(s).value)
  {
    hide DecodeMap, ReadDigest, ReadUint, Skip, Zeros;
    var P := (h: LightBlockHeader) => ValidHeader(h);
    forall key, acc, t | P(acc) && HeaderStep(key, acc, t).Ok?
      ensures P(HeaderStep(key, acc, t).value)
    {
      DigestLength(SHA256_SIZE, t);
    }
    DecodeMapKeeps(HeaderStep, P, NO_HEADER, s);
  }
}
