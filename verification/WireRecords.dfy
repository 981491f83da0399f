/**
 The records of the wire, told from values alone: which key fills which field, what is missing, what is refused. The
 keys are written out as bytes. Every decoder yields exactly this, on every byte string.
 */
module WireRecords {
  import opened Bytes
  import opened Hashing
  import opened MerkleTree
  import opened Types
  import opened Wire
  import opened WireValues
  import opened WireReadings
  import opened Decoders
  import opened TypedDecoders

  // ---------------------------------------------------------------- fields

  function DigestIn(size: nat, t: Value): Reading<Digest> {
    match BinIn(t)
    case Fault(e) => Fault(e)
    case Content(b) => if |b| == size then Content(b) else Fault(InvalidDigestSize(size, |b|))
  }

  function Digest64In(t: Value): Reading<Digest> { DigestIn(64, t) }

  function Digest32In(t: Value): Reading<Digest> { DigestIn(32, t) }

  /** Only the low byte of a number is kept. */
  function ByteIn(t: Value): Reading<Byte> {
    Change(UintIn(t), (v: U64) => v % 256)
  }

  function WeightIn(t: Value): Reading<U64> {
    if UintIn(t) == Content(0) then Fault(ZeroSignedWeight) else UintIn(t)
  }

  function PathIn(t: Value): Reading<seq<Digest>> {
    match ItemsIn(t)
    case Fault(e) => Fault(e)
    case Content(items) => ListIn(items, Digest64In)
  }

  lemma DigestMeans(t: Value, rest: seq<Byte>)
    ensures forall size: nat :: Means(ReadDigest(size, Emit(t) + rest), DigestIn(size, t), rest)
    ensures Means(ReadU8(Emit(t) + rest), ByteIn(t), rest)
    ensures Means(ReadWeight(Emit(t) + rest), WeightIn(t), rest)
  {
    hide Emit, ReadBin, ReadUint, BinIn, UintIn;
    BinMeans(t, rest);
    UintMeans(t, rest);
  }

  lemma PathMeans(t: Value, rest: seq<Byte>)
    ensures Means(ReadPath(Emit(t) + rest), PathIn(t), rest)
  {
    hide Emit, ReadArrayLen, ItemsIn, Repeat, ListIn, DigestIn;
    ArrayLenMeans(t, rest);
    forall u: Value, more
      ensures Means(PathItem(Emit(u) + more), Digest64In(u), more)
    {
      DigestMeans(u, more);
    }
    if ItemsIn(t).Content? {
      RepeatMeans(PathItem, Digest64In, ItemsIn(t).content, [], rest);
      assert forall vs: seq<Digest> :: [] + vs == vs;
    }
  }

  // ---------------------------------------------------------------- proofs

  /** "t" */
  function HashTypeIn(t: Value): Reading<HashType> {
    match UintIn(t)
    case Fault(e) => Fault(e)
    case Content(v) =>
      if v == 0 then Content(Sha512_256) else if v == 1 then Content(Sumhash512)
      else if v == 2 then Content(Sha256) else if v == 3 then Content(Sha512)
      else Fault(InvalidHashType(v))
  }

  function HashFactoryRecord(es: seq<Pair>): HashType {
    Last(es, [0x74], HashTypeIn, Sha512_256)
  }

  function HashFactoryCheck(key: seq<Byte>, t: Value): Option<DecodeError> {
    if key == [0x74] then FaultOf(HashTypeIn(t)) else None
  }

  function HashFactoryIn(t: Value): Reading<HashType> {
    RecordIn(t, HashFactoryRecord, HashFactoryCheck)
  }

  lemma HashTypeMeans(t: Value, rest: seq<Byte>)
    ensures Means(DecodeHashType(Emit(t) + rest), HashTypeIn(t), rest)
  {
    hide Emit, ReadUint, UintIn;
    UintMeans(t, rest);
  }

  lemma HashFactoryFieldMeans(es: seq<Pair>, e: Pair, more: seq<Byte>)
    ensures StepAt(HashFactoryStep, HashFactoryRecord, HashFactoryCheck, es, e, more)
  {
    hide Zeros;
    hide Emit, Last, DecodeHashType, HashTypeIn, Skip;
    LastSnoc(es, e, [0x74], HashTypeIn, Sha512_256);
    HashTypeMeans(e.value, more);
    UnknownMeans(e.value, more);
  }

  lemma HashFactoryMeans(t: Value, rest: seq<Byte>)
    ensures Means(DecodeHashFactory(Emit(t) + rest), HashFactoryIn(t), rest)
  {
    hide DecodeMap, RecordIn;
    forall es: seq<Pair>, e: Pair, more
      ensures StepAt(HashFactoryStep, HashFactoryRecord, HashFactoryCheck, es, e, more)
    {
      HashFactoryFieldMeans(es, e, more);
    }
    MapMeans(HashFactoryStep, HashFactoryRecord, HashFactoryCheck, t, rest);
  }

  /** "td", "pth" and "hsh"; a proof without a hash type is one over Sumhash512. */
  function ProofRecord(es: seq<Pair>): ProofParts {
    ProofParts(Proof(Last(es, [0x74, 0x64], ByteIn, 0), Last(es, [0x70, 0x74, 0x68], PathIn, [])),
               Last(es, [0x68, 0x73, 0x68], HashFactoryIn, Sumhash512))
  }

  function ProofCheck(key: seq<Byte>, t: Value): Option<DecodeError> {
    if key == [0x74, 0x64] then FaultOf(ByteIn(t))
    else if key == [0x70, 0x74, 0x68] then FaultOf(PathIn(t))
    else if key == [0x68, 0x73, 0x68] then FaultOf(HashFactoryIn(t))
    else None
  }

  function ProofIn(t: Value): Reading<Proof> {
    match RecordIn(t, ProofRecord, ProofCheck)
    case Fault(e) => Fault(e)
    case Content(parts) =>
      if parts.hashType == Sumhash512 then Content(parts.proof) else Fault(HashTypeMismatch(Sumhash512, parts.hashType))
  }

  lemma ProofFieldMeans(es: seq<Pair>, e: Pair, more: seq<Byte>)
    ensures StepAt(ProofStep, ProofRecord, ProofCheck, es, e, more)
  {
    hide Zeros;
    hide Emit, Last, ReadU8, ReadPath, DecodeHashFactory, ByteIn, PathIn, HashFactoryIn, Skip;
    LastSnoc(es, e, [0x74, 0x64], ByteIn, 0);
    LastSnoc(es, e, [0x70, 0x74, 0x68], PathIn, []);
    LastSnoc(es, e, [0x68, 0x73, 0x68], HashFactoryIn, Sumhash512);
    DigestMeans(e.value, more);
    PathMeans(e.value, more);
    HashFactoryMeans(e.value, more);
    UnknownMeans(e.value, more);
  }

  lemma ProofMeans(t: Value, rest: seq<Byte>)
    ensures Means(DecodeProof(Emit(t) + rest), ProofIn(t), rest)
  {
    hide DecodeMap, RecordIn;
    forall es: seq<Pair>, e: Pair, more
      ensures StepAt(ProofStep, ProofRecord, ProofCheck, es, e, more)
    {
      ProofFieldMeans(es, e, more);
    }
    MapMeans(ProofStep, ProofRecord, ProofCheck, t, rest);
  }

  // ---------------------------------------------------------------- keys and signatures

  function KeyBytesIn(t: Value): Reading<seq<Byte>> {
    match BinIn(t)
    case Fault(e) => Fault(e)
    case Content(b) => if |b| == 1793 then Content(b) else Fault(InvalidPublicKeySize(1793, |b|))
  }

  /** "k" */
  function PublicKeyRecord(es: seq<Pair>): seq<Byte> {
    Last(es, [0x6b], KeyBytesIn, Zeros(1793))
  }

  function PublicKeyCheck(key: seq<Byte>, t: Value): Option<DecodeError> {
    if key == [0x6b] then FaultOf(KeyBytesIn(t)) else None
  }

  function PublicKeyIn(f: Falcon, t: Value): Reading<seq<Byte>> {
    match RecordIn(t, PublicKeyRecord, PublicKeyCheck)
    case Fault(e) => Fault(e)
    case Content(b) => if f.validKey(b) then Content(b) else Fault(InvalidPublicKey)
  }

  lemma KeyBytesMeans(t: Value, rest: seq<Byte>)
    ensures Means(ReadKey(Emit(t) + rest), KeyBytesIn(t), rest)
  {
    hide Emit, ReadBin, BinIn;
    BinMeans(t, rest);
  }

  lemma PublicKeyFieldMeans(f: Falcon, es: seq<Pair>, e: Pair, more: seq<Byte>)
    ensures StepAt(PublicKeyStep, PublicKeyRecord, PublicKeyCheck, es, e, more)
  {
    hide Zeros;
    hide Emit, Last, ReadKey, KeyBytesIn, Skip;
    LastSnoc(es, e, [0x6b], KeyBytesIn, Zeros(1793));
    KeyBytesMeans(e.value, more);
    UnknownMeans(e.value, more);
  }

  lemma PublicKeyMeans(f: Falcon, t: Value, rest: seq<Byte>)
    ensures Means(DecodePublicKey(f, Emit(t) + rest), PublicKeyIn(f, t), rest)
  {
    hide DecodeMap, RecordIn, Zeros;
    forall es: seq<Pair>, e: Pair, more
      ensures StepAt(PublicKeyStep, PublicKeyRecord, PublicKeyCheck, es, e, more)
    {
      PublicKeyFieldMeans(f, es, e, more);
    }
    MapMeans(PublicKeyStep, PublicKeyRecord, PublicKeyCheck, t, rest);
  }

  function SignatureIn(f: Falcon, t: Value): Reading<seq<Byte>> {
    match BinIn(t)
    case Fault(e) => Fault(e)
    case Content(b) => if f.validSig(b) then Content(b) else Fault(InvalidSignature)
  }

  lemma SignatureMeans(f: Falcon, t: Value, rest: seq<Byte>)
    ensures Means(DecodeSignature(f, Emit(t) + rest), SignatureIn(f, t), rest)
  {
    hide Emit, ReadBin, BinIn;
    BinMeans(t, rest);
  }

  /** "cmt" and "lf" */
  function VerifierRecord(es: seq<Pair>): MerkleVerifier {
    MerkleVerifier(Last(es, [0x63, 0x6d, 0x74], Digest64In, Zeros(64)), Last(es, [0x6c, 0x66], UintIn, 0))
  }

  function VerifierCheck(key: seq<Byte>, t: Value): Option<DecodeError> {
    if key == [0x63, 0x6d, 0x74] then FaultOf(Digest64In(t))
    else if key == [0x6c, 0x66] then FaultOf(UintIn(t))
    else None
  }

  function VerifierIn(t: Value): Reading<MerkleVerifier> {
    RecordIn(t, VerifierRecord, VerifierCheck)
  }

  lemma VerifierFieldMeans(es: seq<Pair>, e: Pair, more: seq<Byte>)
    ensures StepAt(VerifierStep, VerifierRecord, VerifierCheck, es, e, more)
  {
    hide Zeros;
    hide Emit, Last, ReadDigest, DigestIn, ReadUint, UintIn, Skip;
    LastSnoc(es, e, [0x63, 0x6d, 0x74], Digest64In, Zeros(64));
    LastSnoc(es, e, [0x6c, 0x66], UintIn, 0);
    DigestMeans(e.value, more);
    UintMeans(e.value, more);
    UnknownMeans(e.value, more);
  }

  lemma VerifierMeans(t: Value, rest: seq<Byte>)
    ensures Means(DecodeVerifier(Emit(t) + rest), VerifierIn(t), rest)
  {
    hide DecodeMap, RecordIn, Zeros;
    forall es: seq<Pair>, e: Pair, more
      ensures StepAt(VerifierStep, VerifierRecord, VerifierCheck, es, e, more)
    {
      VerifierFieldMeans(es, e, more);
    }
    MapMeans(VerifierStep, VerifierRecord, VerifierCheck, t, rest);
  }

  function SignatureReader(f: Falcon): Value -> Reading<seq<Byte>> { (t: Value) => SignatureIn(f, t) }

  function PublicKeyReader(f: Falcon): Value -> Reading<seq<Byte>> { (t: Value) => PublicKeyIn(f, t) }

  /** "sig", "idx", "prf" and "vkey"; without a signature, the two bytes of an empty one. */
  function MssOf(f: Falcon, es: seq<Pair>): MerkleSignature {
    MerkleSignature(Last(es, [0x73, 0x69, 0x67], SignatureReader(f), [f.header, 0]),
                    Last(es, [0x69, 0x64, 0x78], UintIn, 0),
                    Last(es, [0x70, 0x72, 0x66], ProofIn, Proof(0, [])),
                    Last(es, [0x76, 0x6b, 0x65, 0x79], PublicKeyReader(f), Zeros(1793)))
  }

  function MssFault(f: Falcon, key: seq<Byte>, t: Value): Option<DecodeError> {
    if key == [0x73, 0x69, 0x67] then FaultOf(SignatureIn(f, t))
    else if key == [0x69, 0x64, 0x78] then FaultOf(UintIn(t))
    else if key == [0x70, 0x72, 0x66] then FaultOf(ProofIn(t))
    else if key == [0x76, 0x6b, 0x65, 0x79] then FaultOf(PublicKeyIn(f, t))
    else None
  }

  function MssRecord(f: Falcon): seq<Pair> -> MerkleSignature { (es: seq<Pair>) => MssOf(f, es) }

  function MssCheck(f: Falcon): (seq<Byte>, Value) -> Option<DecodeError> {
    (key: seq<Byte>, t: Value) => MssFault(f, key, t)
  }

  function MssIn(f: Falcon, t: Value): Reading<MerkleSignature> {
    RecordIn(t, MssRecord(f), MssCheck(f))
  }

  lemma MssMeans(f: Falcon, t: Value, rest: seq<Byte>)
    ensures Means(DecodeMss(f, Emit(t) + rest), MssIn(f, t), rest)
  {
    hide DecodeMap, RecordIn, Zeros, Last;
    forall es: seq<Pair>, e: Pair, more
      ensures StepAt(MssStep(f), MssRecord(f), MssCheck(f), es, e, more)
    {
      MssFieldMeans(f, es, e, more);
    }
    EmptyMss(f);
    MapMeans(MssStep(f), MssRecord(f), MssCheck(f), t, rest);
  }

  lemma EmptyMss(f: Falcon)
    ensures MssRecord(f)([]) == NoSignature(f)
  {
    hide Zeros;
  }

  lemma MssFieldMeans(f: Falcon, es: seq<Pair>, e: Pair, more: seq<Byte>)
    ensures StepAt(MssStep(f), MssRecord(f), MssCheck(f), es, e, more)
  {
    hide Emit, Last, ReadUint, UintIn, DecodeSignature, SignatureIn, DecodeProof, ProofIn, DecodePublicKey, PublicKeyIn;
    hide Skip, Zeros;
    LastSnoc(es, e, [0x73, 0x69, 0x67], SignatureReader(f), [f.header, 0]);
    LastSnoc(es, e, [0x69, 0x64, 0x78], UintIn, 0);
    LastSnoc(es, e, [0x70, 0x72, 0x66], ProofIn, Proof(0, []));
    LastSnoc(es, e, [0x76, 0x6b, 0x65, 0x79], PublicKeyReader(f), Zeros(1793));
    SignatureMeans(f, e.value, more);
    UintMeans(e.value, more);
    ProofMeans(e.value, more);
    PublicKeyMeans(f, e.value, more);
    UnknownMeans(e.value, more);
  }

  // ---------------------------------------------------------------- reveals

  function MssReader(f: Falcon): Value -> Reading<MerkleSignature> { (t: Value) => MssIn(f, t) }

  /** "s" and "l" */
  function SigSlotOf(f: Falcon, es: seq<Pair>): SigSlot {
    SigSlot(Last(es, [0x73], MssReader(f), MssOf(f, [])), Last(es, [0x6c], UintIn, 0))
  }

  function SigSlotFault(f: Falcon, key: seq<Byte>, t: Value): Option<DecodeError> {
    if key == [0x73] then FaultOf(MssIn(f, t)) else if key == [0x6c] then FaultOf(UintIn(t)) else None
  }

  function SigSlotRecord(f: Falcon): seq<Pair> -> SigSlot { (es: seq<Pair>) => SigSlotOf(f, es) }

  function SigSlotCheck(f: Falcon): (seq<Byte>, Value) -> Option<DecodeError> {
    (key: seq<Byte>, t: Value) => SigSlotFault(f, key, t)
  }

  function SigSlotIn(f: Falcon, t: Value): Reading<SigSlot> {
    RecordIn(t, SigSlotRecord(f), SigSlotCheck(f))
  }

  lemma SigSlotFieldMeans(f: Falcon, es: seq<Pair>, e: Pair, more: seq<Byte>)
    ensures StepAt(SigSlotStep(f), SigSlotRecord(f), SigSlotCheck(f), es, e, more)
  {
    hide Zeros;
    hide Emit, Last, ReadUint, UintIn, DecodeMss, MssIn, Skip;
    LastSnoc(es, e, [0x73], MssReader(f), MssOf(f, []));
    LastSnoc(es, e, [0x6c], UintIn, 0);
    MssMeans(f, e.value, more);
    UintMeans(e.value, more);
    UnknownMeans(e.value, more);
  }

  lemma SigSlotMeans(f: Falcon, t: Value, rest: seq<Byte>)
    ensures Means(DecodeSigSlot(f, Emit(t) + rest), SigSlotIn(f, t), rest)
  {
    hide DecodeMap, RecordIn, MssOf, NoSignature;
    forall es: seq<Pair>, e: Pair, more
      ensures StepAt(SigSlotStep(f), SigSlotRecord(f), SigSlotCheck(f), es, e, more)
    {
      SigSlotFieldMeans(f, es, e, more);
    }
    EmptyMss(f);
    MapMeans(SigSlotStep(f), SigSlotRecord(f), SigSlotCheck(f), t, rest);
  }

  /** "p" and "w" */
  function ParticipantRecord(es: seq<Pair>): Participant {
    Participant(Last(es, [0x70], VerifierIn, VerifierRecord([])), Last(es, [0x77], UintIn, 0))
  }

  function ParticipantCheck(key: seq<Byte>, t: Value): Option<DecodeError> {
    if key == [0x70] then FaultOf(VerifierIn(t)) else if key == [0x77] then FaultOf(UintIn(t)) else None
  }

  function ParticipantIn(t: Value): Reading<Participant> {
    RecordIn(t, ParticipantRecord, ParticipantCheck)
  }

  lemma ParticipantFieldMeans(es: seq<Pair>, e: Pair, more: seq<Byte>)
    ensures StepAt(ParticipantStep, ParticipantRecord, ParticipantCheck, es, e, more)
  {
    hide Zeros;
    hide Emit, Last, ReadUint, UintIn, DecodeVerifier, VerifierIn, VerifierRecord, Skip;
    LastSnoc(es, e, [0x70], VerifierIn, VerifierRecord([]));
    LastSnoc(es, e, [0x77], UintIn, 0);
    VerifierMeans(e.value, more);
    UintMeans(e.value, more);
    UnknownMeans(e.value, more);
  }

  lemma ParticipantMeans(t: Value, rest: seq<Byte>)
    ensures Means(DecodeParticipant(Emit(t) + rest), ParticipantIn(t), rest)
  {
    hide DecodeMap, RecordIn, Zeros;
    forall es: seq<Pair>, e: Pair, more
      ensures StepAt(ParticipantStep, ParticipantRecord, ParticipantCheck, es, e, more)
    {
      ParticipantFieldMeans(es, e, more);
    }
    MapMeans(ParticipantStep, ParticipantRecord, ParticipantCheck, t, rest);
  }

  function SigSlotReader(f: Falcon): Value -> Reading<SigSlot> { (t: Value) => SigSlotIn(f, t) }

  /** "s" and "p" */
  function RevealOf(f: Falcon, es: seq<Pair>): Reveal {
    Reveal(Last(es, [0x73], SigSlotReader(f), SigSlotOf(f, [])),
           Last(es, [0x70], ParticipantIn, ParticipantRecord([])))
  }

  function RevealFault(f: Falcon, key: seq<Byte>, t: Value): Option<DecodeError> {
    if key == [0x73] then FaultOf(SigSlotIn(f, t)) else if key == [0x70] then FaultOf(ParticipantIn(t)) else None
  }

  function RevealRecord(f: Falcon): seq<Pair> -> Reveal { (es: seq<Pair>) => RevealOf(f, es) }

  function RevealCheck(f: Falcon): (seq<Byte>, Value) -> Option<DecodeError> {
    (key: seq<Byte>, t: Value) => RevealFault(f, key, t)
  }

  function RevealIn(f: Falcon, t: Value): Reading<Reveal> {
    RecordIn(t, RevealRecord(f), RevealCheck(f))
  }

  lemma EmptyReveal(f: Falcon)
    ensures RevealRecord(f)([]) == Reveal(SigSlot(NoSignature(f), 0), NO_PARTICIPANT)
  {
    hide Zeros, NoSignature, MssOf;
    EmptyMss(f);
  }

  lemma RevealMeans(f: Falcon, t: Value, rest: seq<Byte>)
    ensures Means(DecodeReveal(f, Emit(t) + rest), RevealIn(f, t), rest)
  {
    hide DecodeMap, RecordIn, RevealOf, Zeros;
    forall es: seq<Pair>, e: Pair, more
      ensures StepAt(RevealStep(f), RevealRecord(f), RevealCheck(f), es, e, more)
    {
      RevealFieldMeans(f, es, e, more);
    }
    EmptyReveal(f);
    MapMeans(RevealStep(f), RevealRecord(f), RevealCheck(f), t, rest);
  }

  lemma RevealFieldMeans(f: Falcon, es: seq<Pair>, e: Pair, more: seq<Byte>)
    ensures StepAt(RevealStep(f), RevealRecord(f), RevealCheck(f), es, e, more)
  {
    hide Emit, Last, DecodeSigSlot, SigSlotIn, DecodeParticipant, ParticipantIn, SigSlotOf, ParticipantRecord, Skip;
    LastSnoc(es, e, [0x73], SigSlotReader(f), SigSlotOf(f, []));
    LastSnoc(es, e, [0x70], ParticipantIn, ParticipantRecord([]));
    SigSlotMeans(f, e.value, more);
    ParticipantMeans(e.value, more);
    UnknownMeans(e.value, more);
  }

  // ---------------------------------------------------------------- state proofs

  /** The openings in wire order; the keys are positions. */
  function OpeningsIn(f: Falcon, es: seq<Pair>): Reading<seq<RevealAt>> {
    if es == [] then Content([])
    else
      match UintIn(es[0].key)
      case Fault(e) => Fault(e)
      case Content(position) =>
        match RevealIn(f, es[0].value)
        case Fault(e) => Fault(e)
        case Content(opening) => Change(OpeningsIn(f, es[1..]), os => [RevealAt(position, opening)] + os)
  }

  function RevealsIn(f: Falcon, t: Value): Reading<seq<RevealAt>> {
    match EntriesIn(t)
    case Fault(e) => Fault(e)
    case Content(es) => if |es| <= 640 then OpeningsIn(f, es) else Fault(TooManyReveals(|es|, 640))
  }

  function PositionsIn(t: Value): Reading<seq<U64>> {
    match ItemsIn(t)
    case Fault(e) => Fault(e)
    case Content(items) => if |items| <= 640 then ListIn(items, UintIn) else Fault(TooManyReveals(|items|, 640))
  }

  lemma {:induction false} OpeningsMean(f: Falcon, es: seq<Pair>, acc: seq<RevealAt>, rest: seq<Byte>)
    ensures Means(Repeat(RevealItem(f), |es|, acc, EmitEntries(es) + rest),
                  Change(OpeningsIn(f, es), os => acc + os), rest)
    decreases |es|
  {
    hide Emit, ReadUint, UintIn, DecodeReveal, RevealIn;
    if es == [] {
      assert EmitEntries(es) + rest == rest && acc + [] == acc;
    } else {
      var more := EmitEntries(es[1..]) + rest;
      var value := Emit(es[0].value) + more;
      assert EmitEntries(es) + rest == Emit(es[0].key) + value;
      UintMeans(es[0].key, value);
      RevealMeans(f, es[0].value, more);
      if UintIn(es[0].key).Content? && RevealIn(f, es[0].value).Content? {
        var o := RevealAt(UintIn(es[0].key).content, RevealIn(f, es[0].value).content);
        OpeningsMean(f, es[1..], acc + [o], rest);
        assert forall os: seq<RevealAt> :: (acc + [o]) + os == acc + ([o] + os);
      }
    }
  }

  lemma RevealsMean(f: Falcon, t: Value, rest: seq<Byte>)
    ensures Means(ReadReveals(f, Emit(t) + rest), RevealsIn(f, t), rest)
  {
    hide Emit, ReadMapLen, EntriesIn, Repeat, OpeningsIn, RevealItem;
    MapLenMeans(t, rest);
    if EntriesIn(t).Content? {
      OpeningsMean(f, EntriesIn(t).content, [], rest);
      assert forall os: seq<RevealAt> :: [] + os == os;
    }
  }

  lemma PositionsMean(t: Value, rest: seq<Byte>)
    ensures Means(ReadPositions(Emit(t) + rest), PositionsIn(t), rest)
  {
    hide Emit, ReadArrayLen, ItemsIn, Repeat, ListIn, ReadUint, UintIn;
    ArrayLenMeans(t, rest);
    forall u: Value, more
      ensures Means(ReadUint(Emit(u) + more), UintIn(u), more)
    {
      UintMeans(u, more);
    }
    if ItemsIn(t).Content? {
      RepeatMeans(ReadUint, UintIn, ItemsIn(t).content, [], rest);
      assert forall vs: seq<U64> :: [] + vs == vs;
    }
  }

  function RevealsReader(f: Falcon): Value -> Reading<seq<RevealAt>> { (t: Value) => RevealsIn(f, t) }

  /** "c", "w", "S", "P", "v", "r" and "pr" */
  function StateProofOf(f: Falcon, es: seq<Pair>): StateProof {
    StateProof(
      Last(es, [0x63], Digest64In, Zeros(64)),
      Last(es, [0x77], WeightIn, 0),
      Last(es, [0x53], ProofIn, Proof(0, [])),
      Last(es, [0x50], ProofIn, Proof(0, [])),
      Last(es, [0x76], ByteIn, 0),
      Last(es, [0x72], RevealsReader(f), []),
      Last(es, [0x70, 0x72], PositionsIn, []))
  }

  function StateProofFault(f: Falcon, key: seq<Byte>, t: Value): Option<DecodeError> {
    if key == [0x63] then FaultOf(Digest64In(t))
    else if key == [0x77] then FaultOf(WeightIn(t))
    else if key == [0x53] || key == [0x50] then FaultOf(ProofIn(t))
    else if key == [0x76] then FaultOf(ByteIn(t))
    else if key == [0x72] then FaultOf(RevealsIn(f, t))
    else if key == [0x70, 0x72] then FaultOf(PositionsIn(t))
    else None
  }

  function StateProofRecord(f: Falcon): seq<Pair> -> StateProof { (es: seq<Pair>) => StateProofOf(f, es) }

  function StateProofCheck(f: Falcon): (seq<Byte>, Value) -> Option<DecodeError> {
    (key: seq<Byte>, t: Value) => StateProofFault(f, key, t)
  }

  function StateProofIn(f: Falcon, t: Value): Reading<StateProof> {
    RecordIn(t, StateProofRecord(f), StateProofCheck(f))
  }

  lemma StateProofFieldMeans(f: Falcon, es: seq<Pair>, e: Pair, more: seq<Byte>)
    ensures StepAt(StateProofStep(f), StateProofRecord(f), StateProofCheck(f), es, e, more)
  {
    hide Emit, Last, Skip, Zeros, ReadDigest, DigestIn, ReadWeight, WeightIn, DecodeProof, ProofIn, ReadU8, ByteIn;
    hide ReadReveals, RevealsIn, ReadPositions, PositionsIn, StrIn, Formed;
    LastSnoc(es, e, [0x63], Digest64In, Zeros(64));
    LastSnoc(es, e, [0x77], WeightIn, 0);
    LastSnoc(es, e, [0x53], ProofIn, Proof(0, []));
    LastSnoc(es, e, [0x50], ProofIn, Proof(0, []));
    LastSnoc(es, e, [0x76], ByteIn, 0);
    LastSnoc(es, e, [0x72], RevealsReader(f), []);
    LastSnoc(es, e, [0x70, 0x72], PositionsIn, []);
    DigestMeans(e.value, more);
    ProofMeans(e.value, more);
    RevealsMean(f, e.value, more);
    PositionsMean(e.value, more);
    UnknownMeans(e.value, more);
  }

  lemma StateProofMeans(f: Falcon, t: Value, rest: seq<Byte>)
    ensures Means(DecodeStateProof(f, Emit(t) + rest), StateProofIn(f, t), rest)
  {
    hide DecodeMap, RecordIn, Zeros;
    forall es: seq<Pair>, e: Pair, more
      ensures StepAt(StateProofStep(f), StateProofRecord(f), StateProofCheck(f), es, e, more)
    {
      StateProofFieldMeans(f, es, e, more);
    }
    MapMeans(StateProofStep(f), StateProofRecord(f), StateProofCheck(f), t, rest);
  }

  // ---------------------------------------------------------------- messages and headers

  /** "P", "b", "f", "l" and "v" */
  function MessageRecord(es: seq<Pair>): Message {
    Message(
      Last(es, [0x62], Digest32In, Zeros(32)),
      Last(es, [0x76], Digest64In, Zeros(64)),
      Last(es, [0x50], UintIn, 0),
      Last(es, [0x66], UintIn, 0),
      Last(es, [0x6c], UintIn, 0))
  }

  function MessageCheck(key: seq<Byte>, t: Value): Option<DecodeError> {
    if key == [0x62] then FaultOf(Digest32In(t))
    else if key == [0x76] then FaultOf(Digest64In(t))
    else if key == [0x50] || key == [0x66] || key == [0x6c] then FaultOf(UintIn(t))
    else None
  }

  function MessageIn(t: Value): Reading<Message> {
    RecordIn(t, MessageRecord, MessageCheck)
  }

  lemma MessageFieldMeans(es: seq<Pair>, e: Pair, more: seq<Byte>)
    ensures StepAt(MessageStep, MessageRecord, MessageCheck, es, e, more)
  {
    hide Zeros;
    hide Emit, Last, ReadDigest, DigestIn, ReadUint, UintIn, Skip;
    LastSnoc(es, e, [0x62], Digest32In, Zeros(32));
    LastSnoc(es, e, [0x76], Digest64In, Zeros(64));
    LastSnoc(es, e, [0x50], UintIn, 0);
    LastSnoc(es, e, [0x66], UintIn, 0);
    LastSnoc(es, e, [0x6c], UintIn, 0);
    DigestMeans(e.value, more);
    UintMeans(e.value, more);
    UnknownMeans(e.value, more);
  }

  lemma MessageMeans(t: Value, rest: seq<Byte>)
    ensures Means(DecodeMessage(Emit(t) + rest), MessageIn(t), rest)
  {
    hide DecodeMap, RecordIn, Zeros;
    forall es: seq<Pair>, e: Pair, more
      ensures StepAt(MessageStep, MessageRecord, MessageCheck, es, e, more)
    {
      MessageFieldMeans(es, e, more);
    }
    MapMeans(MessageStep, MessageRecord, MessageCheck, t, rest);
  }

  /** "0", "1", "gh", "r" and "tc" */
  function HeaderRecord(es: seq<Pair>): LightBlockHeader {
    LightBlockHeader(
      Last(es, [0x30], Digest32In, Zeros(32)),
      Last(es, [0x31], Digest32In, Zeros(32)),
      Last(es, [0x67, 0x68], Digest32In, Zeros(32)),
      Last(es, [0x72], UintIn, 0),
      Last(es, [0x74, 0x63], Digest32In, Zeros(32)))
  }

  function HeaderCheck(key: seq<Byte>, t: Value): Option<DecodeError> {
    if key == [0x30] || key == [0x31] || key == [0x67, 0x68] || key == [0x74, 0x63] then FaultOf(Digest32In(t))
    else if key == [0x72] then FaultOf(UintIn(t))
    else None
  }

  function HeaderIn(t: Value): Reading<LightBlockHeader> {
    RecordIn(t, HeaderRecord, HeaderCheck)
  }

  lemma HeaderFieldMeans(es: seq<Pair>, e: Pair, more: seq<Byte>)
    ensures StepAt(HeaderStep, HeaderRecord, HeaderCheck, es, e, more)
  {
    hide Zeros;
    hide Emit, Last, ReadDigest, DigestIn, ReadUint, UintIn, Skip;
    LastSnoc(es, e, [0x30], Digest32In, Zeros(32));
    LastSnoc(es, e, [0x31], Digest32In, Zeros(32));
    LastSnoc(es, e, [0x67, 0x68], Digest32In, Zeros(32));
    LastSnoc(es, e, [0x72], UintIn, 0);
    LastSnoc(es, e, [0x74, 0x63], Digest32In, Zeros(32));
    DigestMeans(e.value, more);
    UintMeans(e.value, more);
    UnknownMeans(e.value, more);
  }

  lemma HeaderMeans(t: Value, rest: seq<Byte>)
    ensures Means(DecodeHeader(Emit(t) + rest), HeaderIn(t), rest)
  {
    hide DecodeMap, RecordIn, Zeros;
    forall es: seq<Pair>, e: Pair, more
      ensures StepAt(HeaderStep, HeaderRecord, HeaderCheck, es, e, more)
    {
      HeaderFieldMeans(es, e, more);
    }
    MapMeans(HeaderStep, HeaderRecord, HeaderCheck, t, rest);
  }

  // ---------------------------------------------------------------- on all byte strings

  /**
   A state proof is decoded from exactly the byte strings that are one value with this meaning: each field from the
   last entry of its key, in whatever order and format, absent ones from their defaults, unknown ones ignored.
   */
  lemma StateProofDecodedIff(f: Falcon, s: seq<Byte>, sp: StateProof)
    ensures DecodeAll((b: seq<Byte>) => DecodeStateProof(f, b), s) == Ok(sp, [])
       <==> exists t: Value :: s == Emit(t) && StateProofIn(f, t) == Content(sp)
  {
    hide Emit, DecodeStateProof, StateProofIn, Consumes;
    var decoder, read := (b: seq<Byte>) => DecodeStateProof(f, b), (t: Value) => StateProofIn(f, t);
    AllDecodersConform(f);
    forall t: Value, rest
      ensures Means(decoder(Emit(t) + rest), read(t), rest)
    {
      StateProofMeans(f, t, rest);
    }
    WholeIff(decoder, read, s, sp);
  }

  lemma WholeIff<T(!new)>(decoder: seq<Byte> -> Parse<T>, read: Value -> Reading<T>, s: seq<Byte>, v: T)
    requires DecoderConforms(1, decoder) && ItemMeans(decoder, read)
    ensures DecodeAll(decoder, s) == Ok(v, []) <==> exists t: Value :: s == Emit(t) && read(t) == Content(v)
  {
    hide Emit, DecoderConforms, ItemMeans;
    DecodesIff(decoder, read, s, v, []);
    forall t: Value
      ensures Emit(t) + [] == Emit(t)
    {
    }
  }

  /** The same for messages. */
  lemma MessageDecodedIff(s: seq<Byte>, m: Message)
    ensures DecodeAll(DecodeMessage, s) == Ok(m, []) <==> exists t: Value :: s == Emit(t) && MessageIn(t) == Content(m)
  {
    hide Emit, DecodeMessage, MessageIn, Consumes, DecodeStateProof;
    AllDecodersConform(Falcon(_ => false, _ => false, 0, _ => 0, _ => None, (_, _, _) => false));
    forall t: Value, rest
      ensures Means(DecodeMessage(Emit(t) + rest), MessageIn(t), rest)
    {
      MessageMeans(t, rest);
    }
    WholeIff(DecodeMessage, MessageIn, s, m);
  }

  /** The same for light block headers. */
  lemma HeaderDecodedIff(s: seq<Byte>, h: LightBlockHeader)
    ensures DecodeAll(DecodeHeader, s) == Ok(h, []) <==> exists t: Value :: s == Emit(t) && HeaderIn(t) == Content(h)
  {
    hide Emit, DecodeHeader, HeaderIn, Consumes, DecodeStateProof;
    AllDecodersConform(Falcon(_ => false, _ => false, 0, _ => 0, _ => None, (_, _, _) => false));
    forall t: Value, rest
      ensures Means(DecodeHeader(Emit(t) + rest), HeaderIn(t), rest)
    {
      HeaderMeans(t, rest);
    }
    WholeIff(DecodeHeader, HeaderIn, s, h);
  }
}
