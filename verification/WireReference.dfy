/** Reference encodings: a value for every record, with its keys written out, from which the decoder gives it back. */
module WireReference {
  import opened Bytes
  import opened Hashing
  import opened MerkleTree
  import opened Types
  import opened Leaves
  import opened Wire
  import opened WireValues
  import opened WireReadings
  import opened WireRecords
  import opened TypedDecoders

  // ---------------------------------------------------------------- scalars and lists

  function UintValue(v: U64): (t: Value)
    ensures UintIn(t) == Content(v)
  {
    Pow256Values();
    FromBEInvertsBE(8, v);
    if v <= 127 then PositiveFix(v) else Unsigned(3, BE(8, v))
  }

  function BinValue(b: seq<Byte>): (t: Value)
    requires |b| < TWO_32
    ensures BinIn(t) == Content(b)
  {
    Pow256Values();
    Bin(2, b)
  }

  /** A field under a key of at most four ASCII letters. */
  function FieldValue(key: seq<Byte>, t: Value): (e: Pair)
    requires |key| <= 4 && Ascii(key)
    ensures StrIn(e.key) == Content(key) && e.value == t
  {
    AsciiIsUtf8(key);
    Entry(FixStr(key), t)
  }

  /** The first byte of the key. */
  function Initial(e: Pair): int {
    match StrIn(e.key)
    case Content(key) => if key == [] then -1 else key[0]
    case Fault(_) => -1
  }

  function Field1(a: Byte, t: Value): (e: Pair)
    requires a <= 127
    ensures StrIn(e.key) == Content([a]) && e.value == t && Initial(e) == a
  {
    FieldValue([a], t)
  }

  function Field2(a: Byte, b: Byte, t: Value): (e: Pair)
    requires a <= 127 && b <= 127
    ensures StrIn(e.key) == Content([a, b]) && e.value == t && Initial(e) == a
  {
    FieldValue([a, b], t)
  }

  function Field3(a: Byte, b: Byte, c: Byte, t: Value): (e: Pair)
    requires a <= 127 && b <= 127 && c <= 127
    ensures StrIn(e.key) == Content([a, b, c]) && e.value == t && Initial(e) == a
  {
    FieldValue([a, b, c], t)
  }

  function Field4(a: Byte, b: Byte, c: Byte, d: Byte, t: Value): (e: Pair)
    requires a <= 127 && b <= 127 && c <= 127 && d <= 127
    ensures StrIn(e.key) == Content([a, b, c, d]) && e.value == t && Initial(e) == a
  {
    FieldValue([a, b, c, d], t)
  }

  predicate AllDigests(path: seq<Digest>) {
    forall i :: 0 <= i < |path| ==> |path[i]| == 64
  }

  function MapValue(es: seq<Pair>): (t: Value)
    requires |es| < TWO_32
    ensures EntriesIn(t) == Content(es)
  {
    Pow256Values();
    if |es| <= 15 then FixMap(es) else Map(2, es)
  }

  function ArrayValue(items: seq<Value>): (t: Value)
    requires |items| < TWO_32
    ensures ItemsIn(t) == Content(items)
  {
    Pow256Values();
    Array(2, items)
  }

  function DigestValues(path: seq<Digest>): (items: seq<Value>)
    requires AllDigests(path)
    ensures |items| == |path|
  {
    if path == [] then [] else [BinValue(path[0])] + DigestValues(path[1..])
  }

  function UintValues(ns: seq<U64>): (items: seq<Value>)
    ensures |items| == |ns|
  {
    if ns == [] then [] else [UintValue(ns[0])] + UintValues(ns[1..])
  }

  lemma {:induction false} DigestValuesRead(path: seq<Digest>)
    requires AllDigests(path)
    ensures ListIn(DigestValues(path), Digest64In) == Content(path)
  {
    hide BinIn;
    if path != [] {
      DigestValuesRead(path[1..]);
      assert path == [path[0]] + path[1..];
    }
  }

  lemma {:induction false} UintValuesRead(ns: seq<U64>)
    ensures ListIn(UintValues(ns), UintIn) == Content(ns)
  {
    hide UintIn;
    if ns != [] {
      UintValuesRead(ns[1..]);
      assert ns == [ns[0]] + ns[1..];
    }
  }

  // ---------------------------------------------------------------- reading a list of distinct fields

  lemma {:induction false} NoFaults(es: seq<Pair>, check: (seq<Byte>, Value) -> Option<DecodeError>)
    requires forall i :: 0 <= i < |es| ==>
               StrIn(es[i].key).Content? && check(StrIn(es[i].key).content, es[i].value).None?
    ensures FirstFault(es, check) == None
  {
    hide StrIn;
    if es != [] { NoFaults(es[1..], check); }
  }

  predicate DistinctInitials(es: seq<Pair>) {
    forall i, j :: 0 <= i < j < |es| ==> Initial(es[j]) != Initial(es[i])
  }

  /** Here keys are told apart by their first bytes. */
  lemma {:induction false} LastAt<T>(es: seq<Pair>, i: nat, key: seq<Byte>, read: Value -> Reading<T>, default: T)
    requires i < |es| && StrIn(es[i].key) == Content(key) && read(es[i].value).Content?
    requires DistinctInitials(es)
    ensures Last(es, key, read, default) == read(es[i].value).content
    decreases |es|
  {
    if i < |es| - 1 {
      assert Initial(es[|es| - 1]) != Initial(es[i]);
      LastAt(es[..|es| - 1], i, key, read, default);
    }
  }

  // ---------------------------------------------------------------- proofs

  predicate ProofFits(p: Proof) {
    AllDigests(p.path) && |p.path| < TWO_32
  }

  /** "t" -> 1 */
  function SumhashValue(): Value {
    MapValue([Field1(0x74, PositiveFix(1))])
  }

  /** "hsh", "pth" and "td" */
  function ProofFields(p: Proof): seq<Pair>
    requires ProofFits(p)
  {
    [ Field3(0x68, 0x73, 0x68, SumhashValue()),
      Field3(0x70, 0x74, 0x68, ArrayValue(DigestValues(p.path))),
      Field2(0x74, 0x64, UintValue(p.treeDepth)) ]
  }

  function ProofValue(p: Proof): Value
    requires ProofFits(p)
  {
    MapValue(ProofFields(p))
  }

  lemma HashFactoryRead()
    ensures HashFactoryIn(SumhashValue()) == Content(Sumhash512)
  {
    hide StrIn, Initial, EntriesIn, MapValue, Field1;
    var es: seq<Pair> := [Field1(0x74, PositiveFix(1))];
    NoFaults(es, HashFactoryCheck);
    LastAt(es, 0, [0x74], HashTypeIn, Sha512_256);
  }

  predicate ProofLaidOut(es: seq<Pair>, p: Proof) {
    && |es| == 3 && StrIn(es[0].key) == Content([0x68, 0x73, 0x68]) && StrIn(es[1].key) == Content([0x70, 0x74, 0x68])
    && StrIn(es[2].key) == Content([0x74, 0x64]) && DistinctInitials(es)
    && HashFactoryIn(es[0].value) == Content(Sumhash512) && PathIn(es[1].value) == Content(p.path)
    && ByteIn(es[2].value) == Content(p.treeDepth)
  }

  lemma ProofLayout(p: Proof)
    requires ProofFits(p)
    ensures ProofLaidOut(ProofFields(p), p)
  {
    hide ListIn, HashFactoryIn, UintIn, StrIn, Initial, EntriesIn, ItemsIn, MapValue, ArrayValue, Field2, Field3;
    hide SumhashValue, UintValue, DigestValues;
    HashFactoryRead();
    DigestValuesRead(p.path);
  }

  lemma ProofFieldsRead(es: seq<Pair>, p: Proof)
    requires ProofLaidOut(es, p)
    ensures FirstFault(es, ProofCheck) == None && ProofRecord(es) == ProofParts(p, Sumhash512)
  {
    hide StrIn, Initial, HashFactoryIn, PathIn, ByteIn, DistinctInitials, Last, FirstFault, Formed;
    NoFaults(es, ProofCheck);
    LastAt(es, 2, [0x74, 0x64], ByteIn, 0);
    LastAt(es, 1, [0x70, 0x74, 0x68], PathIn, []);
    LastAt(es, 0, [0x68, 0x73, 0x68], HashFactoryIn, Sumhash512);
  }

  lemma ProofRead(p: Proof)
    requires ProofFits(p)
    ensures ProofIn(ProofValue(p)) == Content(p)
  {
    hide EntriesIn, MapValue, ProofFields, ProofRecord, FirstFault, ProofLaidOut, ProofFits;
    ProofLayout(p);
    ProofFieldsRead(ProofFields(p), p);
  }

  // ---------------------------------------------------------------- signatures and participants

  predicate MssFits(f: Falcon, mss: MerkleSignature) {
    && |mss.signature| < TWO_32 && f.validSig(mss.signature)
    && |mss.verifyingKey| == 1793 && f.validKey(mss.verifyingKey) && ProofFits(mss.proof)
  }

  /** "k" */
  function KeyValue(key: seq<Byte>): Value
    requires |key| < TWO_32
  {
    MapValue([Field1(0x6b, BinValue(key))])
  }

  lemma KeyRead(f: Falcon, key: seq<Byte>)
    requires |key| == 1793 && f.validKey(key)
    ensures PublicKeyIn(f, KeyValue(key)) == Content(key)
  {
    hide StrIn, Initial, EntriesIn, MapValue, Field1, BinValue, BinIn;
    var es: seq<Pair> := [Field1(0x6b, BinValue(key))];
    NoFaults(es, PublicKeyCheck);
    LastAt(es, 0, [0x6b], KeyBytesIn, Zeros(1793));
  }

  /** "sig", "idx", "prf" and "vkey" */
  function MssFields(mss: MerkleSignature): seq<Pair>
    requires |mss.signature| < TWO_32 && |mss.verifyingKey| < TWO_32 && ProofFits(mss.proof)
  {
    [ Field3(0x73, 0x69, 0x67, BinValue(mss.signature)),
      Field3(0x69, 0x64, 0x78, UintValue(mss.vcIndex)),
      Field3(0x70, 0x72, 0x66, ProofValue(mss.proof)),
      Field4(0x76, 0x6b, 0x65, 0x79, KeyValue(mss.verifyingKey)) ]
  }

  function MssValue(mss: MerkleSignature): Value
    requires |mss.signature| < TWO_32 && |mss.verifyingKey| < TWO_32 && ProofFits(mss.proof)
  {
    MapValue(MssFields(mss))
  }

  /** The fields at their places, with what they hold. */
  predicate MssLaidOut(f: Falcon, es: seq<Pair>, mss: MerkleSignature) {
    && |es| == 4 && StrIn(es[0].key) == Content([0x73, 0x69, 0x67]) && StrIn(es[1].key) == Content([0x69, 0x64, 0x78])
    && StrIn(es[2].key) == Content([0x70, 0x72, 0x66]) && StrIn(es[3].key) == Content([0x76, 0x6b, 0x65, 0x79])
    && DistinctInitials(es)
    && SignatureIn(f, es[0].value) == Content(mss.signature) && UintIn(es[1].value) == Content(mss.vcIndex)
    && ProofIn(es[2].value) == Content(mss.proof) && PublicKeyIn(f, es[3].value) == Content(mss.verifyingKey)
  }

  lemma MssLayout(f: Falcon, mss: MerkleSignature)
    requires MssFits(f, mss)
    ensures MssLaidOut(f, MssFields(mss), mss)
  {
    hide StrIn, Initial, EntriesIn, MapValue, Field3, Field4, BinValue, BinIn, UintValue, UintIn, ProofValue, ProofIn;
    hide KeyValue, PublicKeyIn, ProofFits;
    ProofRead(mss.proof);
    KeyRead(f, mss.verifyingKey);
  }

  lemma MssFaultless(f: Falcon, es: seq<Pair>, mss: MerkleSignature)
    requires MssLaidOut(f, es, mss)
    ensures FirstFault(es, MssCheck(f)) == None
  {
    hide StrIn, Initial, SignatureIn, UintIn, ProofIn, PublicKeyIn, FirstFault, DistinctInitials;
    NoFaults(es, MssCheck(f));
  }

  lemma MssFieldsRead(f: Falcon, es: seq<Pair>, mss: MerkleSignature)
    requires MssLaidOut(f, es, mss)
    ensures MssOf(f, es) == mss
  {
    hide StrIn, Initial, SignatureIn, UintIn, ProofIn, PublicKeyIn, Zeros, Last, DistinctInitials;
    LastAt(es, 0, [0x73, 0x69, 0x67], SignatureReader(f), [f.header, 0]);
    LastAt(es, 1, [0x69, 0x64, 0x78], UintIn, 0);
    LastAt(es, 2, [0x70, 0x72, 0x66], ProofIn, Proof(0, []));
    LastAt(es, 3, [0x76, 0x6b, 0x65, 0x79], PublicKeyReader(f), Zeros(1793));
  }

  lemma MssRead(f: Falcon, mss: MerkleSignature)
    requires MssFits(f, mss)
    ensures MssIn(f, MssValue(mss)) == Content(mss)
  {
    hide EntriesIn, MapValue, MssFields, MssOf, FirstFault, MssLaidOut, ProofFits;
    MssLayout(f, mss);
    MssFaultless(f, MssFields(mss), mss);
    MssFieldsRead(f, MssFields(mss), mss);
  }

  /** "s" and "l" */
  function SigSlotValue(slot: SigSlot): Value
    requires |slot.mss.signature| < TWO_32 && |slot.mss.verifyingKey| < TWO_32 && ProofFits(slot.mss.proof)
  {
    MapValue([Field1(0x73, MssValue(slot.mss)), Field1(0x6c, UintValue(slot.l))])
  }

  lemma SigSlotRead(f: Falcon, slot: SigSlot)
    requires MssFits(f, slot.mss)
    ensures SigSlotIn(f, SigSlotValue(slot)) == Content(slot)
  {
    hide StrIn, Initial, EntriesIn, MapValue, Field1, MssValue, MssIn, MssOf, UintValue, UintIn, ProofFits;
    var es: seq<Pair> := [Field1(0x73, MssValue(slot.mss)), Field1(0x6c, UintValue(slot.l))];
    MssRead(f, slot.mss);
    NoFaults(es, SigSlotCheck(f));
    LastAt(es, 0, [0x73], MssReader(f), MssOf(f, []));
    LastAt(es, 1, [0x6c], UintIn, 0);
  }

  /** "cmt" and "lf" */
  function VerifierValue(v: MerkleVerifier): Value
    requires |v.commitment| < TWO_32
  {
    MapValue([Field3(0x63, 0x6d, 0x74, BinValue(v.commitment)), Field2(0x6c, 0x66, UintValue(v.keyLifetime))])
  }

  lemma VerifierRead(v: MerkleVerifier)
    requires |v.commitment| == 64
    ensures VerifierIn(VerifierValue(v)) == Content(v)
  {
    hide StrIn, Initial, EntriesIn, MapValue, Field2, Field3, BinValue, BinIn, UintValue, UintIn, Zeros;
    var es: seq<Pair> :=
      [Field3(0x63, 0x6d, 0x74, BinValue(v.commitment)), Field2(0x6c, 0x66, UintValue(v.keyLifetime))];
    NoFaults(es, VerifierCheck);
    LastAt(es, 0, [0x63, 0x6d, 0x74], Digest64In, Zeros(64));
    LastAt(es, 1, [0x6c, 0x66], UintIn, 0);
  }

  /** "p" and "w" */
  function ParticipantValue(p: Participant): Value
    requires |p.pk.commitment| < TWO_32
  {
    MapValue([Field1(0x70, VerifierValue(p.pk)), Field1(0x77, UintValue(p.weight))])
  }

  lemma ParticipantRead(p: Participant)
    requires |p.pk.commitment| == 64
    ensures ParticipantIn(ParticipantValue(p)) == Content(p)
  {
    hide StrIn, Initial, EntriesIn, MapValue, Field1, VerifierValue, VerifierIn, VerifierRecord, UintValue, UintIn;
    var es: seq<Pair> := [Field1(0x70, VerifierValue(p.pk)), Field1(0x77, UintValue(p.weight))];
    VerifierRead(p.pk);
    NoFaults(es, ParticipantCheck);
    LastAt(es, 0, [0x70], VerifierIn, VerifierRecord([]));
    LastAt(es, 1, [0x77], UintIn, 0);
  }

  predicate RevealFits(f: Falcon, r: Reveal) {
    MssFits(f, r.sigSlot.mss) && |r.participant.pk.commitment| == 64
  }

  /** "s" and "p" */
  function RevealValue(f: Falcon, r: Reveal): Value
    requires RevealFits(f, r)
  {
    MapValue([Field1(0x73, SigSlotValue(r.sigSlot)), Field1(0x70, ParticipantValue(r.participant))])
  }

  lemma RevealRead(f: Falcon, r: Reveal)
    requires RevealFits(f, r)
    ensures RevealIn(f, RevealValue(f, r)) == Content(r)
  {
    hide StrIn, Initial, EntriesIn, MapValue, Field1, SigSlotValue, SigSlotIn, SigSlotOf, ParticipantValue;
    hide ParticipantIn, ParticipantRecord, ProofFits;
    var es: seq<Pair> := [Field1(0x73, SigSlotValue(r.sigSlot)), Field1(0x70, ParticipantValue(r.participant))];
    SigSlotRead(f, r.sigSlot);
    ParticipantRead(r.participant);
    NoFaults(es, RevealCheck(f));
    LastAt(es, 0, [0x73], SigSlotReader(f), SigSlotOf(f, []));
    LastAt(es, 1, [0x70], ParticipantIn, ParticipantRecord([]));
  }

  // ---------------------------------------------------------------- state proofs

  predicate OpeningsFit(f: Falcon, openings: seq<RevealAt>) {
    forall i :: 0 <= i < |openings| ==> RevealFits(f, openings[i].opening)
  }

  function OpeningEntry(f: Falcon, o: RevealAt): (e: Pair)
    requires RevealFits(f, o.opening)
    ensures UintIn(e.key) == Content(o.position) && e.value == RevealValue(f, o.opening)
  {
    Entry(UintValue(o.position), RevealValue(f, o.opening))
  }

  /** Positions as keys, in wire order. */
  function OpeningEntries(f: Falcon, openings: seq<RevealAt>): (es: seq<Pair>)
    requires OpeningsFit(f, openings)
    ensures |es| == |openings|
  {
    hide Formed, RevealFits, RevealValue, UintIn;
    if openings == [] then []
    else
      [OpeningEntry(f, openings[0])] + OpeningEntries(f, openings[1..])
  }

  lemma {:induction false} OpeningsRead(f: Falcon, openings: seq<RevealAt>)
    requires OpeningsFit(f, openings)
    ensures OpeningsIn(f, OpeningEntries(f, openings)) == Content(openings)
  {
    hide UintIn, OpeningEntry, RevealValue, RevealIn, RevealFits;
    if openings != [] {
      RevealRead(f, openings[0].opening);
      OpeningsRead(f, openings[1..]);
      assert openings == [openings[0]] + openings[1..];
    }
  }

  /** What a state proof must keep to, so that its encoding is within the decoder's bounds. */
  predicate StateProofFits(f: Falcon, sp: StateProof) {
    && |sp.sigCommitment| == 64 && sp.signedWeight > 0 && ProofFits(sp.sigProofs) && ProofFits(sp.partProofs)
    && |sp.openings| <= 640 && OpeningsFit(f, sp.openings) && |sp.positions| <= 640
  }

  function Seven(a: Pair, b: Pair, c: Pair, d: Pair, e: Pair, f: Pair, g: Pair): (es: seq<Pair>)
    ensures |es| == 7 && es[0] == a && es[1] == b && es[2] == c && es[3] == d && es[4] == e && es[5] == f && es[6] == g
  {
    [a, b, c, d, e, f, g]
  }

  /** "c", "w", "S", "P", "v", "r" and "pr" */
  function StateProofFields(f: Falcon, sp: StateProof): seq<Pair>
    requires StateProofFits(f, sp)
  {
    Seven(
      Field1(0x63, BinValue(sp.sigCommitment)),
      Field1(0x77, UintValue(sp.signedWeight)),
      Field1(0x53, ProofValue(sp.sigProofs)),
      Field1(0x50, ProofValue(sp.partProofs)),
      Field1(0x76, UintValue(sp.saltVersion)),
      Field1(0x72, MapValue(OpeningEntries(f, sp.openings))),
      Field2(0x70, 0x72, ArrayValue(UintValues(sp.positions))))
  }

  function StateProofValue(f: Falcon, sp: StateProof): Value
    requires StateProofFits(f, sp)
  {
    MapValue(StateProofFields(f, sp))
  }

  predicate StateProofKeyed(es: seq<Pair>) {
    && |es| == 7 && StrIn(es[0].key) == Content([0x63]) && StrIn(es[1].key) == Content([0x77])
    && StrIn(es[2].key) == Content([0x53]) && StrIn(es[3].key) == Content([0x50])
    && StrIn(es[4].key) == Content([0x76]) && StrIn(es[5].key) == Content([0x72])
    && StrIn(es[6].key) == Content([0x70, 0x72]) && DistinctInitials(es)
  }

  predicate StateProofLaidOut(f: Falcon, es: seq<Pair>, sp: StateProof) {
    && StateProofKeyed(es)
    && Digest64In(es[0].value) == Content(sp.sigCommitment) && WeightIn(es[1].value) == Content(sp.signedWeight)
    && ProofIn(es[2].value) == Content(sp.sigProofs) && ProofIn(es[3].value) == Content(sp.partProofs)
    && ByteIn(es[4].value) == Content(sp.saltVersion) && RevealsIn(f, es[5].value) == Content(sp.openings)
    && PositionsIn(es[6].value) == Content(sp.positions)
  }

  lemma StateProofKeys(f: Falcon, sp: StateProof)
    requires StateProofFits(f, sp)
    ensures StateProofKeyed(StateProofFields(f, sp))
  {
    hide StrIn, Initial, MapValue, ArrayValue, Field1, Field2, BinValue, UintValue, ProofValue, OpeningEntries;
    hide UintValues, OpeningsFit, ProofFits, Seven, Formed;
  }

  lemma StateProofLayout(f: Falcon, sp: StateProof)
    requires StateProofFits(f, sp)
    ensures StateProofLaidOut(f, StateProofFields(f, sp), sp)
  {
    hide StrIn, Initial, EntriesIn, ItemsIn, MapValue, ArrayValue, Field1, Field2, BinValue, BinIn, UintValue, UintIn;
    hide ProofValue, ProofIn, ListIn, OpeningsIn, OpeningEntries, UintValues, OpeningsFit, ProofFits, StateProofKeyed;
    hide Seven, Formed;
    StateProofKeys(f, sp);
    ProofRead(sp.sigProofs);
    ProofRead(sp.partProofs);
    OpeningsRead(f, sp.openings);
    UintValuesRead(sp.positions);
  }

  lemma StateProofFaultless(f: Falcon, es: seq<Pair>, sp: StateProof)
    requires StateProofLaidOut(f, es, sp)
    ensures FirstFault(es, StateProofCheck(f)) == None
  {
    hide StrIn, Initial, WeightIn, DigestIn, ProofIn, ByteIn, RevealsIn, PositionsIn, DistinctInitials, FirstFault;
    hide Formed;
    NoFaults(es, StateProofCheck(f));
  }

  lemma StateProofFieldsRead(f: Falcon, es: seq<Pair>, sp: StateProof)
    requires StateProofLaidOut(f, es, sp)
    ensures StateProofOf(f, es) == sp
  {
    hide StrIn, Initial, WeightIn, DigestIn, ProofIn, ByteIn, RevealsIn, PositionsIn, Zeros, Last, DistinctInitials;
    LastAt(es, 0, [0x63], Digest64In, Zeros(64));
    LastAt(es, 1, [0x77], WeightIn, 0);
    LastAt(es, 2, [0x53], ProofIn, Proof(0, []));
    LastAt(es, 3, [0x50], ProofIn, Proof(0, []));
    LastAt(es, 4, [0x76], ByteIn, 0);
    LastAt(es, 5, [0x72], RevealsReader(f), []);
    LastAt(es, 6, [0x70, 0x72], PositionsIn, []);
  }

  lemma StateProofRead(f: Falcon, sp: StateProof)
    requires StateProofFits(f, sp)
    ensures StateProofIn(f, StateProofValue(f, sp)) == Content(sp)
  {
    hide EntriesIn, MapValue, StateProofFields, StateProofOf, FirstFault, StateProofLaidOut, StateProofFits;
    StateProofLayout(f, sp);
    StateProofFaultless(f, StateProofFields(f, sp), sp);
    StateProofFieldsRead(f, StateProofFields(f, sp), sp);
  }

  // ---------------------------------------------------------------- the round trips

  /** Decoding the reference encoding of a state proof gives the state proof back, whatever follows. */
  lemma StateProofRoundTrip(f: Falcon, sp: StateProof, rest: seq<Byte>)
    requires StateProofFits(f, sp)
    ensures DecodeStateProof(f, Emit(StateProofValue(f, sp)) + rest) == Ok(sp, rest)
  {
    hide Emit, DecodeStateProof, StateProofIn, StateProofValue, StateProofFits;
    StateProofRead(f, sp);
    StateProofMeans(f, StateProofValue(f, sp), rest);
  }

  /** The same for each record within it. */
  lemma NestedRoundTrips(f: Falcon, r: Reveal, p: Proof, rest: seq<Byte>)
    requires RevealFits(f, r) && ProofFits(p)
    ensures DecodeReveal(f, Emit(RevealValue(f, r)) + rest) == Ok(r, rest)
    ensures DecodeSigSlot(f, Emit(SigSlotValue(r.sigSlot)) + rest) == Ok(r.sigSlot, rest)
    ensures DecodeMss(f, Emit(MssValue(r.sigSlot.mss)) + rest) == Ok(r.sigSlot.mss, rest)
    ensures DecodeParticipant(Emit(ParticipantValue(r.participant)) + rest) == Ok(r.participant, rest)
    ensures DecodeVerifier(Emit(VerifierValue(r.participant.pk)) + rest) == Ok(r.participant.pk, rest)
    ensures DecodeProof(Emit(ProofValue(p)) + rest) == Ok(p, rest)
  {
    hide Emit, DecodeReveal, DecodeSigSlot, DecodeMss, DecodeParticipant, DecodeVerifier, DecodeProof, ProofFits;
    hide RevealValue, SigSlotValue, MssValue, ParticipantValue, VerifierValue, ProofValue;
    hide RevealIn, SigSlotIn, MssIn, ParticipantIn, VerifierIn, ProofIn;
    RevealRead(f, r);
    SigSlotRead(f, r.sigSlot);
    MssRead(f, r.sigSlot.mss);
    ParticipantRead(r.participant);
    VerifierRead(r.participant.pk);
    ProofRead(p);
    RevealMeans(f, RevealValue(f, r), rest);
    SigSlotMeans(f, SigSlotValue(r.sigSlot), rest);
    MssMeans(f, MssValue(r.sigSlot.mss), rest);
    ParticipantMeans(ParticipantValue(r.participant), rest);
    VerifierMeans(VerifierValue(r.participant.pk), rest);
    ProofMeans(ProofValue(p), rest);
  }
}
