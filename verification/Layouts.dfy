/** What every hashed byte string holds, field by field at its offsets. */
module Layouts {
  import opened Bytes
  import opened Bits
  import opened Hashing
  import opened MerkleTree
  import opened Types
  import opened Coin
  import opened Leaves
  import opened Verifier
  import opened Wire
  import opened PackEncoder
  import opened Canonical
  import opened Decoders
  import opened TypedDecoders
  import opened RoundTrip
  import LightClient

  // ---------------------------------------------------------------- numbers

  lemma DivideTwice(x: nat, p: nat)
    requires p > 0
    ensures x / 256 / p == x / (256 * p)
  {
    var h, y := x / 256, x % 256;
    var q, r := h / p, h % p;
    assert x == q * (256 * p) + (256 * r + y) by { assert 256 * (q * p) == q * (256 * p); }
    QuotientUnique(x, q, 256 * r + y, 256 * p);
  }

  /** Byte `i` of a little-endian number is its digit of weight 256^i. */
  lemma {:induction false} LEDigit(n: nat, x: nat, i: nat)
    requires i < n
    ensures LE(n, x)[i] == x / Pow256(i) % 256
  {
    if i > 0 {
      LEDigit(n - 1, x / 256, i - 1);
      DivideTwice(x, Pow256(i - 1));
    }
  }

  /** And of a big-endian one, the digit of weight 256^(n - 1 - i). */
  lemma {:induction false} BEDigit(n: nat, x: nat, i: nat)
    requires i < n
    ensures BE(n, x)[i] == x / Pow256(n - 1 - i) % 256
  {
    if i < n - 1 {
      BEDigit(n - 1, x / 256, i);
      DivideTwice(x, Pow256(n - 2 - i));
    }
  }

  // ---------------------------------------------------------------- trees

  /** "MA", left child, right child; a missing right child is the padding. */
  lemma ParentLayout(h: HashFn, level: seq<Digest>, pad: Digest, k: nat)
    requires 2 * k < |level|
    ensures Parents(h, level, pad)[k]
         == h.digest([0x4d, 0x41] + (level[2 * k] + if 2 * k + 1 < |level| then level[2 * k + 1] else pad))
  {
    var left, right := level[2 * k], if 2 * k + 1 < |level| then level[2 * k + 1] else pad;
    assert [0x4d, 0x41] + (left + right) == [0x4d, 0x41] + left + right;
  }

  /** A node on the left is hashed in front of its sibling, one on the right behind it. */
  lemma StepLayout(h: HashFn, current: Digest, i: nat, path: seq<Digest>)
    requires path != []
    ensures var parent := h.digest([0x4d, 0x41] + if i % 2 == 0 then current + path[0] else path[0] + current);
            Climb(h, current, i, path) == Climb(h, parent, i / 2, path[1..])
  {
    assert [0x4d, 0x41] + (current + path[0]) == [0x4d, 0x41] + current + path[0];
    assert [0x4d, 0x41] + (path[0] + current) == [0x4d, 0x41] + path[0] + current;
  }

  // ---------------------------------------------------------------- leaves of the state proof trees

  /** "spp", weight, key lifetime, key commitment. */
  lemma ParticipantLayout(p: Participant)
    ensures var s := ParticipantPreimage(p);
            && |s| == 19 + |p.pk.commitment| && s[..3] == [0x73, 0x70, 0x70]
            && FromLE(s[3..11]) == p.weight && FromLE(s[11..19]) == p.pk.keyLifetime && s[19..] == p.pk.commitment
  {
    hide LE, FromLE;
    Pow256Values();
    var s := ParticipantPreimage(p);
    assert s[3..11] == LE(8, p.weight) && s[11..19] == LE(8, p.pk.keyLifetime);
    FromLEInvertsLE(8, p.weight);
    FromLEInvertsLE(8, p.pk.keyLifetime);
  }

  /** "KP", crypto suite zero, start of the epoch, key. */
  lemma KeyLayout(round: U64, key: seq<Byte>)
    ensures var s := KeyPreimage(round, key);
            |s| == 12 + |key| && s[..4] == [0x4b, 0x50, 0, 0] && FromLE(s[4..12]) == round && s[12..] == key
  {
    hide FromLE;
    Pow256Values();
    var s := KeyPreimage(round, key);
    assert LE(2, 0) == [0, 0] by { assert LE(1, 0) == [0] + LE(0, 0); }
    hide LE;
    assert s[4..12] == LE(8, round) && s[..4] == [0x4b, 0x50] + LE(2, 0);
    FromLEInvertsLE(8, round);
  }

  lemma {:induction false} FlattenAt(path: seq<Digest>, i: nat)
    requires i < |path| && forall k :: 0 <= k < |path| ==> |path[k]| == 64
    ensures |Flatten(path)| == 64 * |path| && Flatten(path)[64 * i..64 * i + 64] == path[i]
  {
    FlattenLength(path);
    FlattenLength(path[1..]);
    if i > 0 {
      FlattenAt(path[1..], i - 1);
      assert Flatten(path)[64 * i..64 * i + 64] == Flatten(path[1..])[64 * (i - 1)..64 * (i - 1) + 64];
    }
  }

  /** Where the entries of a path start: behind a zero entry for every level that the depth lacks. */
  function PathStart(depth: Byte): nat {
    if depth <= 16 then 64 * (16 - depth) else 0
  }

  /** The path at its place, zeros around it. */
  lemma PathLayout(p: Proof)
    requires PathPad(p.treeDepth) + |p.path| <= MSS_VC_MAX_DEPTH
    requires forall k :: 0 <= k < |p.path| ==> |p.path[k]| == 64
    ensures var s, at := PathArea(p), PathStart(p.treeDepth);
            && |s| == 1024 && at + 64 * |p.path| <= 1024
            && (forall i :: 0 <= i < |p.path| ==> s[at + 64 * i..at + 64 * i + 64] == p.path[i])
            && (forall k :: 0 <= k < at || at + 64 * |p.path| <= k < 1024 ==> s[k] == 0)
  {
    hide Flatten;
    var s, at := PathArea(p), PathStart(p.treeDepth);
    FlattenLength(p.path);
    assert s[at..at + 64 * |p.path|] == Flatten(p.path);
    forall i | 0 <= i < |p.path|
      ensures s[at + 64 * i..at + 64 * i + 64] == p.path[i]
    {
      FlattenAt(p.path, i);
      assert s[at + 64 * i..at + 64 * i + 64] == s[at..at + 64 * |p.path|][64 * i..64 * i + 64];
    }
  }

  /** Suite zero, constant-time signature, key, index, depth; the path area follows. */
  lemma MssLayout(f: Falcon, mss: MerkleSignature)
    requires f.Valid() && ValidMss(mss) && MssBytes(f, mss).Fixed?
    ensures var s := MssBytes(f, mss).bytes;
            && |s| == 4366 && s[..2] == [0, 0] && Some(s[2..1540]) == f.toCt(mss.signature)
            && s[1540..3333] == mss.verifyingKey && FromLE(s[3333..3341]) == mss.vcIndex
            && s[3341] == mss.proof.treeDepth && s[3342..] == PathArea(mss.proof)
  {
    hide FromLE, PathArea, Flatten;
    Pow256Values();
    FlattenLength(mss.proof.path);
    PathLayout(mss.proof);
    var s := MssBytes(f, mss).bytes;
    assert LE(2, 0) == [0, 0] by { assert LE(1, 0) == [0] + LE(0, 0); }
    hide LE;
    var ct := f.toCt(mss.signature).value;
    assert s[3333..3341] == LE(8, mss.vcIndex) && s[..2] == LE(2, 0) && s[2..1540] == ct;
    assert s[1540..3333] == mss.verifyingKey;
    assert s[3342..] == PathArea(mss.proof);
    FromLEInvertsLE(8, mss.vcIndex);
  }

  /** "sps", start of the weight range, signature; an empty slot is "MB". */
  lemma SlotLayout(f: Falcon, slot: SigSlot)
    requires SlotPreimage(f, slot).Fixed?
    ensures |slot.mss.signature| <= 2 ==> SlotPreimage(f, slot).bytes == [0x4d, 0x42]
    ensures |slot.mss.signature| > 2 ==>
              var s := SlotPreimage(f, slot).bytes;
              && |s| >= 11 && s[..3] == [0x73, 0x70, 0x73] && FromLE(s[3..11]) == slot.l
              && MssBytes(f, slot.mss) == SlotBytes.Fixed(s[11..])
  {
    hide LE, FromLE, MssBytes;
    Pow256Values();
    var s := SlotPreimage(f, slot).bytes;
    if |slot.mss.signature| > 2 {
      assert s[3..11] == LE(8, slot.l);
      FromLEInvertsLE(8, slot.l);
    }
  }

  // ---------------------------------------------------------------- the seed of the coins

  /** "spc", version zero, participants, threshold, signatures, signed weight, hash of "spm" and the message. */
  lemma SeedLayout(env: Env, sp: StateProof, msg: Message, anchor: TrustAnchor)
    requires |anchor.partCommitment| == |sp.sigCommitment| == 64
    ensures var s := SeedBytes(CoinSeed(env, sp, msg, anchor));
            && CoinStream(env, sp, msg, anchor) == env.shake(s)
            && |s| >= 148 && s[..4] == [0x73, 0x70, 0x63, 0] && s[4..68] == anchor.partCommitment
            && FromLE(s[68..76]) == anchor.lnProvenWeight && s[76..140] == sp.sigCommitment
            && FromLE(s[140..148]) == sp.signedWeight
            && s[148..] == env.sha.digest([0x73, 0x70, 0x6d] + EncodeMessage(msg))
  {
    hide LE, FromLE, EncodeMessage;
    Pow256Values();
    var s := SeedBytes(CoinSeed(env, sp, msg, anchor));
    assert s[68..76] == LE(8, anchor.lnProvenWeight) && s[140..148] == LE(8, sp.signedWeight);
    FromLEInvertsLE(8, anchor.lnProvenWeight);
    FromLEInvertsLE(8, sp.signedWeight);
  }

  // ---------------------------------------------------------------- headers and transactions

  /** "TL", transaction digest, outcome digest; "B256" and the encoded header. */
  lemma LightClientLayout(t: LightClient.Txn, h: LightBlockHeader)
    requires t.Valid()
    ensures var s := LightClient.TxnPreimage(t);
            |s| == 66 && s[..2] == [0x54, 0x4c] && s[2..34] == t.txn && s[34..] == t.stib
    ensures LightClient.HeaderPreimage(h) == [0x42, 0x32, 0x35, 0x36] + EncodeHeader(h)
  {
    hide EncodeHeader;
  }

  // ---------------------------------------------------------------- encoded headers and messages

  /** A map whose fields are listed in key order is written as they stand. */
  lemma AscendingBytes(p: Pack)
    requires Ascending(KeyLe, p.fields)
    ensures EncodePack(p) == WriteMapHeader(|p.fields|) + JoinFields(EncodeFields(p.fields))
  {
    hide EncodeFields, JoinFields, WriteMapHeader;
    KeyLeIsTotalOrder();
    SortAscendingIsIdentity(KeyLe, p.fields);
    SortThenEncode(p.fields);
  }

  function FieldBytes(fields: seq<Fld>): seq<Byte> {
    JoinFields(EncodeFields(fields))
  }

  lemma FieldBytesUnfold(a: seq<Fld>)
    requires a != []
    ensures FieldBytes(a) == WriteStr(a[0].key) + EncodeValue(a[0].value) + FieldBytes(a[1..])
  {
    hide EncodeValue, WriteStr;
    assert EncodeFields(a)[1..] == EncodeFields(a[1..]);
  }

  lemma NoFieldBytes()
    ensures FieldBytes([]) == []
  {
  }

  lemma {:induction false} FieldBytesAppend(a: seq<Fld>, b: seq<Fld>)
    ensures FieldBytes(a + b) == FieldBytes(a) + FieldBytes(b)
    decreases |a|
  {
    hide EncodeValue, WriteStr, FieldBytes;
    if a == [] {
      NoFieldBytes();
      assert a + b == b && [] + FieldBytes(b) == FieldBytes(b);
    } else {
      assert (a + b)[1..] == a[1..] + b;
      FieldBytesAppend(a[1..], b);
      FieldBytesUnfold(a);
      FieldBytesUnfold(a + b);
      var head := WriteStr(a[0].key) + EncodeValue(a[0].value);
      assert head + (FieldBytes(a[1..]) + FieldBytes(b)) == (head + FieldBytes(a[1..])) + FieldBytes(b);
    }
  }

  lemma FieldBytesWhen(present: bool, field: Fld)
    ensures FieldBytes(When(present, field))
         == if present then WriteStr(field.key) + EncodeValue(field.value) else []
  {
    hide EncodeValue, WriteStr, FieldBytes;
    NoFieldBytes();
    if present {
      FieldBytesUnfold([field]);
      assert [field][1..] == [];
    }
  }

  /** Five optional fields in a row. */
  lemma FiveFields(fs: seq<Fld>, p0: bool, p1: bool, p2: bool, p3: bool, p4: bool)
    requires |fs| == 5
    ensures FieldBytes([] + When(p0, fs[0]) + When(p1, fs[1]) + When(p2, fs[2]) + When(p3, fs[3]) + When(p4, fs[4]))
         == FieldBytes(When(p0, fs[0])) + FieldBytes(When(p1, fs[1])) + FieldBytes(When(p2, fs[2]))
          + FieldBytes(When(p3, fs[3])) + FieldBytes(When(p4, fs[4]))
  {
    hide FieldBytes, When;
    var s1 := [] + When(p0, fs[0]);
    assert s1 == When(p0, fs[0]);
    var s2 := s1 + When(p1, fs[1]);
    var s3 := s2 + When(p2, fs[2]);
    FieldBytesAppend(s1, When(p1, fs[1]));
    FieldBytesAppend(s2, When(p2, fs[2]));
    FieldBytesAppend(s3, When(p3, fs[3]));
    FieldBytesAppend(s3 + When(p3, fs[3]), When(p4, fs[4]));
  }

  /** What a field is written as if it is present. */
  function Written(present: bool, bytes: seq<Byte>): seq<Byte> {
    if present then bytes else []
  }

  function One(present: bool): nat { if present then 1 else 0 }

  lemma BinField(key: Key, b: seq<Byte>, present: bool, size: Byte, head: seq<Byte>)
    requires |key| <= 31 && |b| == size && head == [0xa0 + |key|] + key + [0xc4, size]
    ensures FieldBytes(When(present, Item(key, Bin(b)))) == Written(present, head + b)
  {
    FieldBytesWhen(present, Item(key, Bin(b)));
  }

  lemma UintField(key: Key, v: U64, present: bool, head: seq<Byte>)
    requires |key| <= 31 && head == [0xa0 + |key|] + key
    ensures FieldBytes(When(present, Item(key, Uint(v)))) == Written(present, head + WriteUint(v))
  {
    hide WriteUint;
    FieldBytesWhen(present, Item(key, Uint(v)));
  }

  lemma FieldCount(fs: seq<Fld>, p0: bool, p1: bool, p2: bool, p3: bool, p4: bool)
    requires |fs| == 5
    ensures |[] + When(p0, fs[0]) + When(p1, fs[1]) + When(p2, fs[2]) + When(p3, fs[3]) + When(p4, fs[4])|
         == One(p0) + One(p1) + One(p2) + One(p3) + One(p4)
  {
  }

  lemma ShortHeader(n: nat)
    requires n <= 5
    ensures WriteMapHeader(n) == [0x80 + n]
  {
  }

  /** A header as bytes: "0" and "1" unless all zero, "gh", "r" unless zero, "tc". */
  lemma HeaderLayout(h: LightBlockHeader)
    requires ValidHeader(h)
    ensures var s, b, r := h.seed != Zeros(32), h.blockHash != Zeros(32), h.round != 0;
            EncodeHeader(h)
            == [0x82 + One(s) + One(b) + One(r)]
             + (Written(s, [0xa1, 0x30, 0xc4, 0x20] + h.seed)
                + Written(b, [0xa1, 0x31, 0xc4, 0x20] + h.blockHash)
                + Written(true, [0xa2, 0x67, 0x68, 0xc4, 0x20] + h.genesisHash)
                + Written(r, [0xa1, 0x72] + WriteUint(h.round))
                + Written(true, [0xa2, 0x74, 0x63, 0xc4, 0x20] + h.txnCommitment))
  {
    hide EncodeValue, WriteUint, FieldBytes, Zeros, HeaderPack, KeyLe, Reads, HeaderStep, ApplyHeader, When, Written;
    hide EncodePack, WriteMapHeader, FoldFields;
    var s, b, r := h.seed != Zeros(32), h.blockHash != Zeros(32), h.round != 0;
    var fs: seq<Fld> := [Item(K_0, Bin(h.seed)), Item(K_1, Bin(h.blockHash)), Item(K_GH, Bin(h.genesisHash)),
                         Item(K_R, Uint(h.round)), Item(K_TC, Bin(h.txnCommitment))];
    HeaderDescribed(h);
    HeaderFields(h);
    PackLayout(HeaderPack(h), fs, s, b, true, r, true);
    BinField(K_0, h.seed, s, 0x20, [0xa1, 0x30, 0xc4, 0x20]);
    BinField(K_1, h.blockHash, b, 0x20, [0xa1, 0x31, 0xc4, 0x20]);
    BinField(K_GH, h.genesisHash, true, 0x20, [0xa2, 0x67, 0x68, 0xc4, 0x20]);
    UintField(K_R, h.round, r, [0xa1, 0x72]);
    BinField(K_TC, h.txnCommitment, true, 0x20, [0xa2, 0x74, 0x63, 0xc4, 0x20]);
  }

  /** A map of at most five fields in key order. */
  lemma PackLayout(p: Pack, fs: seq<Fld>, p0: bool, p1: bool, p2: bool, p3: bool, p4: bool)
    requires |fs| == 5 && Ascending(KeyLe, p.fields)
    requires p.fields == [] + When(p0, fs[0]) + When(p1, fs[1]) + When(p2, fs[2]) + When(p3, fs[3]) + When(p4, fs[4])
    ensures EncodePack(p)
         == [0x80 + One(p0) + One(p1) + One(p2) + One(p3) + One(p4)]
          + (FieldBytes(When(p0, fs[0])) + FieldBytes(When(p1, fs[1])) + FieldBytes(When(p2, fs[2]))
             + FieldBytes(When(p3, fs[3])) + FieldBytes(When(p4, fs[4])))
  {
    hide EncodePack, JoinFields, EncodeFields, KeyLe, When, WriteMapHeader;
    AscendingBytes(p);
    FieldCount(fs, p0, p1, p2, p3, p4);
    ShortHeader(|p.fields|);
    assert JoinFields(EncodeFields(p.fields)) == FieldBytes(p.fields);
    hide FieldBytes;
    FiveFields(fs, p0, p1, p2, p3, p4);
  }

  /** A message as bytes: "P" unless zero, "b", "f" and "l" unless zero, "v". */
  lemma MessageLayout(m: Message)
    requires ValidMessage(m)
    ensures var p, f, l := m.lnProvenWeight != 0, m.firstRound != 0, m.lastRound != 0;
            EncodeMessage(m)
            == [0x82 + One(p) + One(f) + One(l)]
             + (Written(p, [0xa1, 0x50] + WriteUint(m.lnProvenWeight))
                + Written(true, [0xa1, 0x62, 0xc4, 0x20] + m.blockHeaders)
                + Written(f, [0xa1, 0x66] + WriteUint(m.firstRound))
                + Written(l, [0xa1, 0x6c] + WriteUint(m.lastRound))
                + Written(true, [0xa1, 0x76, 0xc4, 0x40] + m.voters))
  {
    hide EncodeValue, WriteUint, FieldBytes, Zeros, MessagePack, KeyLe, Reads, MessageStep, ApplyMessage, When, Written;
    hide EncodePack, WriteMapHeader, FoldFields;
    var p, f, l := m.lnProvenWeight != 0, m.firstRound != 0, m.lastRound != 0;
    var fs: seq<Fld> := [Item(K_P_UPPER, Uint(m.lnProvenWeight)), Item(K_B, Bin(m.blockHeaders)),
                         Item(K_F, Uint(m.firstRound)), Item(K_L, Uint(m.lastRound)), Item(K_V, Bin(m.voters))];
    MessageDescribed(m);
    MessageFields(m);
    PackLayout(MessagePack(m), fs, p, true, f, l, true);
    UintField(K_P_UPPER, m.lnProvenWeight, p, [0xa1, 0x50]);
    BinField(K_B, m.blockHeaders, true, 0x20, [0xa1, 0x62, 0xc4, 0x20]);
    UintField(K_F, m.firstRound, f, [0xa1, 0x66]);
    UintField(K_L, m.lastRound, l, [0xa1, 0x6c]);
    BinField(K_V, m.voters, true, 0x40, [0xa1, 0x76, 0xc4, 0x40]);
  }

  /** A proof as bytes: "hsh" -> {"t": 1}, "pth" unless empty, "td" unless zero. */
  lemma ProofLayout(p: Proof)
    requires ValidProof(p)
    ensures var t, d := p.path != [], p.treeDepth != 0;
            EncodeProof(p)
            == [0x81 + One(t) + One(d)]
             + (Written(true, [0xa3, 0x68, 0x73, 0x68] + [0x81, 0xa1, 0x74, 0x01])
                + Written(t, [0xa3, 0x70, 0x74, 0x68] + (WriteArrayHeader(|p.path|) + WriteBins(p.path)))
                + Written(d, [0xa2, 0x74, 0x64] + WriteUint(p.treeDepth)))
  {
    hide WriteUint, WriteHeader, WriteBins, FieldBytes, KeyLe, Reads, ProofStep, ApplyProof, When, Written, EncodePack;
    hide FoldFields, EncodeValue, ProofPack;
    var t, d := p.path != [], p.treeDepth != 0;
    var hash := Item(K_HSH, Map(HashFactoryPack(Sumhash512)));
    var fs: seq<Fld> := [hash, Item(K_PTH, BinArray(p.path)), Item(K_TD, Uint(p.treeDepth)), hash, hash];
    ProofDescribed(p);
    ProofFields(p, fs);
    PackLayout(ProofPack(p), fs, true, t, d, false, false);
    NotWritten(hash);
    HashField();
    PathField(p.path, t);
    UintField(K_TD, p.treeDepth, d, [0xa2, 0x74, 0x64]);
  }

  lemma ProofFields(p: Proof, fs: seq<Fld>)
    requires |fs| == 5 && fs[0] == Item(K_HSH, Map(HashFactoryPack(Sumhash512)))
    requires fs[1] == Item(K_PTH, BinArray(p.path)) && fs[2] == Item(K_TD, Uint(p.treeDepth))
    ensures ProofPack(p).fields
         == [] + When(true, fs[0]) + When(p.path != [], fs[1]) + When(p.treeDepth != 0, fs[2])
          + When(false, fs[3]) + When(false, fs[4])
  {
  }

  lemma NotWritten(field: Fld)
    ensures FieldBytes(When(false, field)) == []
  {
  }

  lemma HashField()
    ensures FieldBytes(When(true, Item(K_HSH, Map(HashFactoryPack(Sumhash512)))))
         == Written(true, [0xa3, 0x68, 0x73, 0x68] + [0x81, 0xa1, 0x74, 0x01])
  {
    var fs := HashFactoryPack(Sumhash512).fields;
    assert fs == [Item(K_T, Uint(1))];
    AscendingBytes(HashFactoryPack(Sumhash512));
    UintField(K_T, 1, true, [0xa1, 0x74]);
    assert When(true, Item(K_T, Uint(1))) == fs;
    hide FieldBytes, EncodePack;
    FieldBytesWhen(true, Item(K_HSH, Map(HashFactoryPack(Sumhash512))));
  }

  lemma PathField(path: seq<Digest>, present: bool)
    ensures FieldBytes(When(present, Item(K_PTH, BinArray(path))))
         == Written(present, [0xa3, 0x70, 0x74, 0x68] + (WriteArrayHeader(|path|) + WriteBins(path)))
  {
    hide WriteBins, WriteHeader, FieldBytes;
    FieldBytesWhen(present, Item(K_PTH, BinArray(path)));
    assert WriteStr(K_PTH) == [0xa3, 0x70, 0x74, 0x68];
    assert EncodeValue(BinArray(path)) == WriteArrayHeader(|path|) + WriteBins(path);
  }

  // ---------------------------------------------------------------- what the builder adds and the lists it writes

  /** No field that is zero or empty is ever in a map. */
  predicate NothingEmpty(p: Pack) {
    forall i :: 0 <= i < |p.fields| ==> !IsEmptyValue(p.fields[i].value)
  }

  predicate IsEmptyValue(v: Value) {
    match v
    case Uint(n) => n == 0
    case Bin(b) => b == []
    case BinArray(bins) => bins == []
    case UintArray(ns) => ns == []
    case UintKeyedMap(entries) => entries == []
    case Map(inner) => inner.fields == []
  }

  /** Zero and empty fields are omitted; any other is added behind those that are there. */
  lemma BuilderOmits(p: Pack, key: Key, n: U64, b: seq<Byte>, bins: seq<seq<Byte>>, inner: Pack)
    requires NothingEmpty(p)
    ensures NothingEmpty(p.AddUint(key, n)) && NothingEmpty(p.AddBytes(key, b))
    ensures NothingEmpty(p.AddBytesArray(key, bins)) && NothingEmpty(p.AddMap(key, inner))
    ensures p.AddUint(key, n).fields == p.fields + When(n != 0, Item(key, Uint(n)))
    ensures p.AddBytes(key, b).fields == p.fields + When(b != [], Item(key, Bin(b)))
    ensures p.AddBytesArray(key, bins).fields == p.fields + When(bins != [], Item(key, BinArray(bins)))
    ensures p.AddMap(key, inner).fields == p.fields + When(inner.fields != [], Item(key, Map(inner)))
  {
    assert p.fields + [] == p.fields;
  }

  /** An array of numbers is read back in its order. */
  lemma UintArrayRead(ns: seq<U64>, rest: seq<Byte>)
    requires |ns| < TWO_32
    ensures ReadArrayLen(EncodeValue(UintArray(ns)) + rest) == Ok(|ns|, WriteUints(ns) + rest)
    ensures Repeat(ReadUint, |ns|, [], WriteUints(ns) + rest) == Ok(ns, rest)
  {
    hide ReadArrayLen, WriteHeader, WriteUints;
    assert EncodeValue(UintArray(ns)) + rest == WriteArrayHeader(|ns|) + (WriteUints(ns) + rest);
    Wire.HeaderRoundTrip(|ns|, WriteUints(ns) + rest);
    UintsRead(ns, [], rest);
    assert [] + ns == ns;
  }

  lemma {:induction false} UintsRead(ns: seq<U64>, acc: seq<U64>, rest: seq<Byte>)
    ensures Repeat(ReadUint, |ns|, acc, WriteUints(ns) + rest) == Ok(acc + ns, rest)
    decreases |ns|
  {
    hide ReadUint, WriteUint;
    if ns == [] {
      assert WriteUints(ns) + rest == rest && acc + ns == acc;
    } else {
      var more := WriteUints(ns[1..]) + rest;
      assert WriteUints(ns) + rest == WriteUint(ns[0]) + more;
      UintRoundTrip(ns[0], more);
      UintsRead(ns[1..], acc + [ns[0]], rest);
      assert acc + [ns[0]] + ns[1..] == acc + ns;
    }
  }

  /** The entries of an integer-keyed map in the order in which they are written: every key in front of its map. */
  lemma EntryRead(entries: seq<Item<U64, seq<Byte>>>, rest: seq<Byte>)
    requires entries != []
    ensures ReadUint(JoinEntries(entries) + rest)
         == Ok(entries[0].key, entries[0].value + (JoinEntries(entries[1..]) + rest))
  {
    hide ReadUint, WriteUint;
    FourParts(WriteUint(entries[0].key), entries[0].value, JoinEntries(entries[1..]), rest);
    UintRoundTrip(entries[0].key, entries[0].value + (JoinEntries(entries[1..]) + rest));
  }

  lemma FourParts(a: seq<Byte>, b: seq<Byte>, c: seq<Byte>, d: seq<Byte>)
    ensures (a + b + c) + d == a + (b + (c + d))
  {
  }
}
