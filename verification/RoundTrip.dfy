/** The encoders of headers, messages and proofs, and the decoders that invert them. */
module RoundTrip {
  import opened Bytes
  import opened Hashing
  import opened MerkleTree
  import opened Types
  import opened Wire
  import opened PackEncoder
  import opened Canonical
  import opened PackWriter
  import opened Decoders
  import opened TypedDecoders

  type Fld = Item<Key, Value>

  // ---------------------------------------------------------------- decoding what was encoded, generically

  function FoldFields<T>(apply: (Fld, T) -> T, fields: seq<Fld>, acc: T): T {
    if fields == [] then acc else FoldFields(apply, fields[1..], apply(fields[0], acc))
  }

  /** On the encoding of this field the decoder step performs `apply`, whatever follows. */
  ghost predicate Reads<T(!new)>(
    step: (seq<Byte>, T, seq<Byte>) -> Parse<T>, apply: (Fld, T) -> T, field: Fld)
  {
    forall acc, rest :: step(field.key, acc, EncodeValue(field.value) + rest) == Ok(apply(field, acc), rest)
  }

  lemma {:induction false} FieldsDecode<T(!new)>(
    step: (seq<Byte>, T, seq<Byte>) -> Parse<T>, apply: (Fld, T) -> T, fields: seq<Fld>, acc: T, rest: seq<Byte>)
    requires forall i :: 0 <= i < |fields| ==> Reads(step, apply, fields[i])
    ensures Fields(step, |fields|, acc, JoinFields(EncodeFields(fields)) + rest)
         == Ok(FoldFields(apply, fields, acc), rest)
  {
    hide EncodeValue, WriteStr, ReadStr;
    var bytes := JoinFields(EncodeFields(fields)) + rest;
    if fields == [] {
      assert bytes == rest;
      FieldsDone(step, acc, bytes);
    } else {
      var more := JoinFields(EncodeFields(fields[1..])) + rest;
      FirstField(fields, rest);
      hide EncodeFields, JoinFields, Fields;
      FieldsNext(step, |fields|, acc, bytes);
      StrRoundTrip(fields[0].key, EncodeValue(fields[0].value) + more);
      assert Reads(step, apply, fields[0]);
      FieldsDecode(step, apply, fields[1..], apply(fields[0], acc), rest);
    }
  }

  lemma FirstField(fields: seq<Fld>, rest: seq<Byte>)
    requires fields != []
    ensures JoinFields(EncodeFields(fields)) + rest
         == WriteStr(fields[0].key) + (EncodeValue(fields[0].value) + (JoinFields(EncodeFields(fields[1..])) + rest))
  {
    hide EncodeValue, WriteStr, EncodeFields, JoinFields;
    FieldsStep([], fields, 0);
    assert fields[0..] == fields;
    Regroup(WriteStr(fields[0].key), EncodeValue(fields[0].value), JoinFields(EncodeFields(fields[1..])), rest);
  }

  lemma Regroup(a: seq<Byte>, b: seq<Byte>, c: seq<Byte>, d: seq<Byte>)
    ensures [] + a + b + c + d == a + (b + (c + d))
  {
  }

  lemma SortedReads<T(!new)>(step: (seq<Byte>, T, seq<Byte>) -> Parse<T>, apply: (Fld, T) -> T, fields: seq<Fld>)
    requires forall i :: 0 <= i < |fields| ==> Reads(step, apply, fields[i])
    ensures forall i :: 0 <= i < |fields| ==> Reads(step, apply, SortByKey(KeyLe, fields)[i])
  {
    hide Reads;
    forall i | 0 <= i < |fields|
      ensures Reads(step, apply, SortByKey(KeyLe, fields)[i])
    {
      assert SortByKey(KeyLe, fields)[i] in multiset(fields);
      var j :| 0 <= j < |fields| && fields[j] == SortByKey(KeyLe, fields)[i];
    }
  }

  /** Decoding an encoded map folds its fields in key order, in whatever order they were added. */
  lemma PackDecodes<T(!new)>(
    step: (seq<Byte>, T, seq<Byte>) -> Parse<T>, apply: (Fld, T) -> T, p: Pack, init: T, rest: seq<Byte>)
    requires forall i :: 0 <= i < |p.fields| ==> Reads(step, apply, p.fields[i])
    requires |p.fields| < TWO_32
    ensures DecodeMap(step, init, EncodePack(p) + rest) == Ok(FoldFields(apply, SortByKey(KeyLe, p.fields), init), rest)
  {
    hide ReadMapLen, WriteMapHeader, Reads, Fields, JoinFields, EncodeFields, SortByKey;
    var sorted := SortByKey(KeyLe, p.fields);
    var body := JoinFields(EncodeFields(sorted));
    SortThenEncode(p.fields);
    SortedReads(step, apply, p.fields);
    assert EncodePack(p) + rest == WriteMapHeader(|p.fields|) + (body + rest);
    Wire.HeaderRoundTrip(|p.fields|, body + rest);
    FieldsDecode(step, apply, sorted, init, rest);
  }

  /** Fields that were added in key order are folded as they stand. */
  lemma AscendingPackDecodes<T(!new)>(
    step: (seq<Byte>, T, seq<Byte>) -> Parse<T>, apply: (Fld, T) -> T, p: Pack, init: T, rest: seq<Byte>)
    requires forall i :: 0 <= i < |p.fields| ==> Reads(step, apply, p.fields[i])
    requires Ascending(KeyLe, p.fields) && |p.fields| < TWO_32
    ensures DecodeMap(step, init, EncodePack(p) + rest) == Ok(FoldFields(apply, p.fields, init), rest)
  {
    hide DecodeMap, Reads, EncodePack, FoldFields;
    KeyLeIsTotalOrder();
    SortAscendingIsIdentity(KeyLe, p.fields);
    PackDecodes(step, apply, p, init, rest);
  }

  // ---------------------------------------------------------------- light block headers

  ghost predicate ValidHeader(h: LightBlockHeader) {
    |h.seed| == |h.blockHash| == |h.genesisHash| == |h.txnCommitment| == SHA256_SIZE
  }

  /** All-zero seed or block hash and a zero round are omitted; the other two fields never are. */
  function HeaderPack(h: LightBlockHeader): Pack {
    var p0 := Pack([]);
    var p1 := if h.seed != Zeros(SHA256_SIZE) then p0.AddBytes(K_0, h.seed) else p0;
    var p2 := if h.blockHash != Zeros(SHA256_SIZE) then p1.AddBytes(K_1, h.blockHash) else p1;
    p2.AddBytes(K_GH, h.genesisHash).AddUint(K_R, h.round).AddBytes(K_TC, h.txnCommitment)
  }

  function EncodeHeader(h: LightBlockHeader): seq<Byte> {
    EncodePack(HeaderPack(h))
  }

  function ApplyHeader(field: Fld, acc: LightBlockHeader): LightBlockHeader {
    match field.value
    case Uint(v) => acc.(round := v)
    case Bin(b) =>
      if field.key == K_0 then acc.(seed := b)
      else if field.key == K_1 then acc.(blockHash := b)
      else if field.key == K_GH then acc.(genesisHash := b)
      else acc.(txnCommitment := b)
    case _ => acc
  }

  ghost predicate HeaderField(field: Fld) {
    match field.value
    case Uint(v) => field.key == K_R
    case Bin(b) =>
      |b| == SHA256_SIZE && (field.key == K_0 || field.key == K_1 || field.key == K_GH || field.key == K_TC)
    case _ => false
  }

  lemma DigestReads(size: nat, b: seq<Byte>, rest: seq<Byte>)
    requires |b| == size < TWO_32
    ensures ReadDigest(size, WriteBin(b) + rest) == Ok(b, rest)
  {
    BinRoundTrip(b, rest);
  }

  lemma HeaderFieldReads(field: Fld)
    requires HeaderField(field)
    ensures Reads(HeaderStep, ApplyHeader, field)
  {
    forall acc, rest
      ensures HeaderStep(field.key, acc, EncodeValue(field.value) + rest) == Ok(ApplyHeader(field, acc), rest)
    {
      hide ReadDigest, ReadUint, WriteBin, WriteUint;
      match field.value
      case Uint(v) => UintRoundTrip(v, rest);
      case Bin(b) => DigestReads(SHA256_SIZE, b, rest);
    }
  }

  // ---------------------------------------------------------------- records as lists of optional fields

  function When(present: bool, field: Fld): seq<Fld> {
    if present then [field] else []
  }

  lemma {:induction false} FoldAppend<T>(apply: (Fld, T) -> T, a: seq<Fld>, b: seq<Fld>, acc: T)
    ensures FoldFields(apply, a + b, acc) == FoldFields(apply, b, FoldFields(apply, a, acc))
    decreases |a|
  {
    if a == [] {
      assert a + b == b;
    } else {
      assert (a + b)[1..] == a[1..] + b;
      FoldAppend(apply, a[1..], b, apply(a[0], acc));
    }
  }

  /**
   A list of at most `n` readable fields in key order, all before `next`, that takes the decoder from `init`
   to `value`.
   */
  ghost predicate Partial<T(!new)>(
    step: (seq<Byte>, T, seq<Byte>) -> Parse<T>, apply: (Fld, T) -> T, fields: seq<Fld>, next: Key, init: T,
    value: T, n: nat)
  {
    && Ascending(KeyLe, fields) && |fields| <= n
    && (forall i :: 0 <= i < |fields| ==> KeyLe(fields[i].key, next) && Reads(step, apply, fields[i]))
    && FoldFields(apply, fields, init) == value
  }

  lemma NothingYet<T(!new)>(step: (seq<Byte>, T, seq<Byte>) -> Parse<T>, apply: (Fld, T) -> T, first: Key, init: T)
    ensures Partial(step, apply, [], first, init, init, 0)
  {
  }

  /** Appending an optional field that comes later in key order. */
  lemma AppendField<T(!new)>(
    step: (seq<Byte>, T, seq<Byte>) -> Parse<T>, apply: (Fld, T) -> T, fields: seq<Fld>, present: bool, field: Fld,
    next: Key, init: T, value: T, n: nat)
    requires Partial(step, apply, fields, field.key, init, value, n)
    requires Reads(step, apply, field) && KeyLe(field.key, next)
    ensures Partial(step, apply, fields + When(present, field), next, init,
                    if present then apply(field, value) else value, n + 1)
  {
    hide Reads, KeyLe;
    KeyLeIsTotalOrder();
    FoldAppend(apply, fields, When(present, field), init);
    if present { assert [field][1..] == []; } else { assert fields + [] == fields; }
  }

  lemma HeaderKeysAscend()
    ensures KeyLe(K_0, K_1) && KeyLe(K_1, K_GH) && KeyLe(K_GH, K_R) && KeyLe(K_R, K_TC) && KeyLe(K_TC, K_TC)
  {
  }

  /** The field list is in key order, readable, and folds to the record. */
  ghost predicate Describes<T(!new)>(
    step: (seq<Byte>, T, seq<Byte>) -> Parse<T>, apply: (Fld, T) -> T, p: Pack, init: T, record: T)
  {
    && Ascending(KeyLe, p.fields) && |p.fields| < TWO_32
    && (forall i :: 0 <= i < |p.fields| ==> Reads(step, apply, p.fields[i]))
    && FoldFields(apply, p.fields, init) == record
  }

  lemma DescribedBy<T(!new)>(
    step: (seq<Byte>, T, seq<Byte>) -> Parse<T>, apply: (Fld, T) -> T, p: Pack, next: Key, init: T, record: T, n: nat)
    requires Partial(step, apply, p.fields, next, init, record, n) && n < TWO_32
    ensures Describes(step, apply, p, init, record)
  {
  }

  lemma HeaderDescribed(h: LightBlockHeader)
    requires ValidHeader(h)
    ensures Describes(HeaderStep, ApplyHeader, HeaderPack(h), NO_HEADER, h)
  {
    hide KeyLe, Reads, HeaderStep, Partial, Describes, Zeros, ApplyHeader, HeaderPack;
    HeaderKeysAscend();
    HeaderFields(h);
    HeaderValues(h);
    var zeros := Zeros(SHA256_SIZE);
    var f0, f1, f2 := Item(K_0, Bin(h.seed)), Item(K_1, Bin(h.blockHash)), Item(K_GH, Bin(h.genesisHash));
    var f3, f4 := Item(K_R, Uint(h.round)), Item(K_TC, Bin(h.txnCommitment));
    var v1 := NO_HEADER.(seed := h.seed);
    var v2 := v1.(blockHash := h.blockHash);
    var v3 := v2.(genesisHash := h.genesisHash);
    var v4 := v3.(round := h.round);
    HeaderFieldReads(f0);
    HeaderFieldReads(f1);
    HeaderFieldReads(f2);
    HeaderFieldReads(f3);
    HeaderFieldReads(f4);
    NothingYet(HeaderStep, ApplyHeader, K_0, NO_HEADER);
    AppendField(HeaderStep, ApplyHeader, [], h.seed != zeros, f0, K_1, NO_HEADER, NO_HEADER, 0);
    var s1 := [] + When(h.seed != zeros, f0);
    AppendField(HeaderStep, ApplyHeader, s1, h.blockHash != zeros, f1, K_GH, NO_HEADER, v1, 1);
    var s2 := s1 + When(h.blockHash != zeros, f1);
    AppendField(HeaderStep, ApplyHeader, s2, true, f2, K_R, NO_HEADER, v2, 2);
    var s3 := s2 + When(true, f2);
    AppendField(HeaderStep, ApplyHeader, s3, h.round != 0, f3, K_TC, NO_HEADER, v3, 3);
    var s4 := s3 + When(h.round != 0, f3);
    AppendField(HeaderStep, ApplyHeader, s4, true, f4, K_TC, NO_HEADER, v4, 4);
    DescribedBy(HeaderStep, ApplyHeader, HeaderPack(h), K_TC, NO_HEADER, h, 5);
  }

  /** Applying a field that is present sets it; one that is absent has its initial value. */
  lemma HeaderValues(h: LightBlockHeader)
    requires ValidHeader(h)
    ensures var v1 := NO_HEADER.(seed := h.seed);
            var v2 := v1.(blockHash := h.blockHash);
            var v3 := v2.(genesisHash := h.genesisHash);
            var v4 := v3.(round := h.round);
            var zeros := Zeros(SHA256_SIZE);
            && (h.seed != zeros ==> ApplyHeader(Item(K_0, Bin(h.seed)), NO_HEADER) == v1)
            && (h.seed == zeros ==> NO_HEADER == v1)
            && (h.blockHash != zeros ==> ApplyHeader(Item(K_1, Bin(h.blockHash)), v1) == v2)
            && (h.blockHash == zeros ==> v1 == v2)
            && ApplyHeader(Item(K_GH, Bin(h.genesisHash)), v2) == v3
            && (h.round != 0 ==> ApplyHeader(Item(K_R, Uint(h.round)), v3) == v4)
            && (h.round == 0 ==> v3 == v4)
            && ApplyHeader(Item(K_TC, Bin(h.txnCommitment)), v4) == h
  {
    hide Zeros;
  }

  /** The builder calls list exactly the fields that are present, in key order. */
  lemma HeaderFields(h: LightBlockHeader)
    requires ValidHeader(h)
    ensures HeaderPack(h).fields
         == [] + When(h.seed != Zeros(SHA256_SIZE), Item(K_0, Bin(h.seed)))
          + When(h.blockHash != Zeros(SHA256_SIZE), Item(K_1, Bin(h.blockHash)))
          + When(true, Item(K_GH, Bin(h.genesisHash)))
          + When(h.round != 0, Item(K_R, Uint(h.round)))
          + When(true, Item(K_TC, Bin(h.txnCommitment)))
  {
  }

  /** Decoding the encoding of any header gives the header back, omitted fields included. */
  lemma LightBlockHeaderRoundTrip(h: LightBlockHeader, rest: seq<Byte>)
    requires ValidHeader(h)
    ensures DecodeHeader(EncodeHeader(h) + rest) == Ok(h, rest)
    ensures DecodeAll(DecodeHeader, EncodeHeader(h)) == Ok(h, [])
  {
    hide KeyLe, Reads, DecodeMap, EncodePack;
    HeaderDescribed(h);
    AscendingPackDecodes(HeaderStep, ApplyHeader, HeaderPack(h), NO_HEADER, rest);
    AscendingPackDecodes(HeaderStep, ApplyHeader, HeaderPack(h), NO_HEADER, []);
    assert EncodeHeader(h) + [] == EncodeHeader(h);
  }

  /** Different headers have different encodings. */
  lemma HeaderEncodingInjective(g: LightBlockHeader, h: LightBlockHeader)
    requires ValidHeader(g) && ValidHeader(h) && EncodeHeader(g) == EncodeHeader(h)
    ensures g == h
  {
    hide DecodeHeader, EncodeHeader;
    LightBlockHeaderRoundTrip(g, []);
    LightBlockHeaderRoundTrip(h, []);
  }

  // ---------------------------------------------------------------- state proof messages

  ghost predicate ValidMessage(m: Message) {
    |m.blockHeaders| == SHA256_SIZE && |m.voters| == SUMHASH_SIZE
  }

  function MessagePack(m: Message): Pack {
    Pack([]).AddUint(K_P_UPPER, m.lnProvenWeight)
            .AddBytes(K_B, m.blockHeaders)
            .AddUint(K_F, m.firstRound)
            .AddUint(K_L, m.lastRound)
            .AddBytes(K_V, m.voters)
  }

  function EncodeMessage(m: Message): seq<Byte> {
    EncodePack(MessagePack(m))
  }

  function ApplyMessage(field: Fld, acc: Message): Message {
    match field.value
    case Uint(v) =>
      if field.key == K_P_UPPER then acc.(lnProvenWeight := v)
      else if field.key == K_F then acc.(firstRound := v)
      else acc.(lastRound := v)
    case Bin(b) => if field.key == K_B then acc.(blockHeaders := b) else acc.(voters := b)
    case _ => acc
  }

  ghost predicate MessageField(field: Fld) {
    match field.value
    case Uint(v) => field.key == K_P_UPPER || field.key == K_F || field.key == K_L
    case Bin(b) => (field.key == K_B && |b| == SHA256_SIZE) || (field.key == K_V && |b| == SUMHASH_SIZE)
    case _ => false
  }

  lemma MessageFieldReads(field: Fld)
    requires MessageField(field)
    ensures Reads(MessageStep, ApplyMessage, field)
  {
    forall acc, rest
      ensures MessageStep(field.key, acc, EncodeValue(field.value) + rest) == Ok(ApplyMessage(field, acc), rest)
    {
      hide ReadDigest, ReadUint, WriteBin, WriteUint;
      match field.value
      case Uint(v) => UintRoundTrip(v, rest);
      case Bin(b) => DigestReads(|b|, b, rest);
    }
  }

  lemma MessageKeysAscend()
    ensures KeyLe(K_P_UPPER, K_B) && KeyLe(K_B, K_F) && KeyLe(K_F, K_L) && KeyLe(K_L, K_V) && KeyLe(K_V, K_V)
  {
  }

  lemma MessageDescribed(m: Message)
    requires ValidMessage(m)
    ensures Describes(MessageStep, ApplyMessage, MessagePack(m), NO_MESSAGE, m)
  {
    hide KeyLe, Reads, MessageStep, Partial, Describes;
    MessageKeysAscend();
    var f0, f1 := Item(K_P_UPPER, Uint(m.lnProvenWeight)), Item(K_B, Bin(m.blockHeaders));
    var f2, f3, f4 := Item(K_F, Uint(m.firstRound)), Item(K_L, Uint(m.lastRound)), Item(K_V, Bin(m.voters));
    var v1 := NO_MESSAGE.(lnProvenWeight := m.lnProvenWeight);
    var v2 := v1.(blockHeaders := m.blockHeaders);
    var v3 := v2.(firstRound := m.firstRound);
    var v4 := v3.(lastRound := m.lastRound);
    MessageFieldReads(f0);
    MessageFieldReads(f1);
    MessageFieldReads(f2);
    MessageFieldReads(f3);
    MessageFieldReads(f4);
    NothingYet(MessageStep, ApplyMessage, K_P_UPPER, NO_MESSAGE);
    AppendField(MessageStep, ApplyMessage, [], m.lnProvenWeight != 0, f0, K_B, NO_MESSAGE, NO_MESSAGE, 0);
    var s1 := [] + When(m.lnProvenWeight != 0, f0);
    AppendField(MessageStep, ApplyMessage, s1, true, f1, K_F, NO_MESSAGE, v1, 1);
    var s2 := s1 + When(true, f1);
    AppendField(MessageStep, ApplyMessage, s2, m.firstRound != 0, f2, K_L, NO_MESSAGE, v2, 2);
    var s3 := s2 + When(m.firstRound != 0, f2);
    AppendField(MessageStep, ApplyMessage, s3, m.lastRound != 0, f3, K_V, NO_MESSAGE, v3, 3);
    var s4 := s3 + When(m.lastRound != 0, f3);
    AppendField(MessageStep, ApplyMessage, s4, true, f4, K_V, NO_MESSAGE, v4, 4);
    MessageFields(m);
    DescribedBy(MessageStep, ApplyMessage, MessagePack(m), K_V, NO_MESSAGE, m, 5);
  }

  lemma MessageFields(m: Message)
    requires ValidMessage(m)
    ensures MessagePack(m).fields
         == [] + When(m.lnProvenWeight != 0, Item(K_P_UPPER, Uint(m.lnProvenWeight)))
          + When(true, Item(K_B, Bin(m.blockHeaders)))
          + When(m.firstRound != 0, Item(K_F, Uint(m.firstRound)))
          + When(m.lastRound != 0, Item(K_L, Uint(m.lastRound)))
          + When(true, Item(K_V, Bin(m.voters)))
  {
  }

  /** Decoding the encoding of any message gives the message back, omitted zero fields included. */
  lemma MessageRoundTrip(m: Message, rest: seq<Byte>)
    requires ValidMessage(m)
    ensures DecodeMessage(EncodeMessage(m) + rest) == Ok(m, rest)
    ensures DecodeAll(DecodeMessage, EncodeMessage(m)) == Ok(m, [])
  {
    hide KeyLe, Reads, DecodeMap, EncodePack;
    MessageDescribed(m);
    AscendingPackDecodes(MessageStep, ApplyMessage, MessagePack(m), NO_MESSAGE, rest);
    AscendingPackDecodes(MessageStep, ApplyMessage, MessagePack(m), NO_MESSAGE, []);
    assert EncodeMessage(m) + [] == EncodeMessage(m);
  }

  /** Different messages have different encodings. */
  lemma MessageEncodingInjective(m: Message, n: Message)
    requires ValidMessage(m) && ValidMessage(n) && EncodeMessage(m) == EncodeMessage(n)
    ensures m == n
  {
    hide DecodeMessage, EncodeMessage;
    MessageRoundTrip(m, []);
    MessageRoundTrip(n, []);
  }

  // ---------------------------------------------------------------- proofs

  ghost predicate ValidProof(p: Proof) {
    |p.path| < TWO_32 && forall i :: 0 <= i < |p.path| ==> |p.path[i]| == SUMHASH_SIZE
  }

  /** The number a hash type is encoded as. */
  function HashTypeTag(t: HashType): U64 {
    match t
    case Sha512_256 => 0
    case Sumhash512 => 1
    case Sha256 => 2
    case Sha512 => 3
  }

  function HashFactoryPack(t: HashType): Pack {
    Pack([]).AddUint(K_T, HashTypeTag(t))
  }

  /** The encoding of a proof over Sumhash512. */
  function EncodeProof(p: Proof): seq<Byte> {
    EncodePack(ProofPack(p))
  }

  function ProofPack(p: Proof): Pack {
    Pack([]).AddMap(K_HSH, HashFactoryPack(Sumhash512)).AddBytesArray(K_PTH, p.path).AddUint(K_TD, p.treeDepth)
  }

  function ApplyHashFactory(field: Fld, acc: HashType): HashType {
    match field.value
    case Uint(v) => if v == 0 then Sha512_256 else if v == 1 then Sumhash512 else if v == 2 then Sha256 else Sha512
    case _ => acc
  }

  /** Every hash type survives encoding, the omitted zero tag included. */
  lemma HashFactoryRoundTrip(t: HashType, rest: seq<Byte>)
    ensures DecodeHashFactory(EncodePack(HashFactoryPack(t)) + rest) == Ok(t, rest)
  {
    hide EncodePack, DecodeMap;
    var p := HashFactoryPack(t);
    forall i | 0 <= i < |p.fields|
      ensures Reads(HashFactoryStep, ApplyHashFactory, p.fields[i])
    {
      forall acc, more
        ensures HashFactoryStep(p.fields[i].key, acc, EncodeValue(p.fields[i].value) + more)
             == Ok(ApplyHashFactory(p.fields[i], acc), more)
      {
        hide ReadUint, WriteUint;
        UintRoundTrip(HashTypeTag(t), more);
      }
    }
    AscendingPackDecodes(HashFactoryStep, ApplyHashFactory, p, Sha512_256, rest);
    assert p.fields != [] ==> p.fields[1..] == [];
  }

  lemma {:induction false} PathReads(path: seq<Digest>, acc: seq<Digest>, rest: seq<Byte>)
    requires forall i :: 0 <= i < |path| ==> |path[i]| == SUMHASH_SIZE
    ensures Repeat(PathItem, |path|, acc, WriteBins(path) + rest) == Ok(acc + path, rest)
    decreases |path|
  {
    hide ReadDigest, WriteBin;
    if path == [] {
      assert WriteBins(path) + rest == rest && acc + path == acc;
    } else {
      var more := WriteBins(path[1..]) + rest;
      assert WriteBins(path) + rest == WriteBin(path[0]) + more;
      DigestReads(SUMHASH_SIZE, path[0], more);
      PathReads(path[1..], acc + [path[0]], rest);
      assert acc + [path[0]] + path[1..] == acc + path;
    }
  }

  function ApplyProof(field: Fld, acc: ProofParts): ProofParts {
    match field.value
    case Uint(v) => acc.(proof := acc.proof.(treeDepth := v % 256))
    case BinArray(bins) => acc.(proof := acc.proof.(path := bins))
    case Map(_) => acc.(hashType := Sumhash512)
    case _ => acc
  }

  ghost predicate ProofField(field: Fld) {
    match field.value
    case Uint(v) => field.key == K_TD
    case BinArray(bins) => field.key == K_PTH && ValidProof(Proof(0, bins))
    case Map(p) => field.key == K_HSH && p == HashFactoryPack(Sumhash512)
    case _ => false
  }

  lemma ProofFieldReads(field: Fld)
    requires ProofField(field)
    ensures Reads(ProofStep, ApplyProof, field)
  {
    forall acc, rest
      ensures ProofStep(field.key, acc, EncodeValue(field.value) + rest) == Ok(ApplyProof(field, acc), rest)
    {
      hide ReadUint, WriteUint, ReadPath, WriteArrayHeader, WriteBins, EncodePack, DecodeHashFactory;
      match field.value
      case Uint(v) => UintRoundTrip(v, rest);
      case BinArray(bins) => WholePathReads(bins, rest);
      case Map(p) => HashFactoryRoundTrip(Sumhash512, rest);
    }
  }

  lemma WholePathReads(bins: seq<Digest>, rest: seq<Byte>)
    requires ValidProof(Proof(0, bins))
    ensures ReadPath((WriteArrayHeader(|bins|) + WriteBins(bins)) + rest) == Ok(bins, rest)
  {
    hide ReadArrayLen, WriteHeader;
    assert (WriteArrayHeader(|bins|) + WriteBins(bins)) + rest == WriteArrayHeader(|bins|) + (WriteBins(bins) + rest);
    Wire.HeaderRoundTrip(|bins|, WriteBins(bins) + rest);
    PathReads(bins, [], rest);
    assert [] + bins == bins;
  }

  lemma ProofKeysAscend()
    ensures KeyLe(K_HSH, K_PTH) && KeyLe(K_PTH, K_TD) && KeyLe(K_TD, K_TD)
  {
  }

  lemma ProofDescribed(p: Proof)
    requires ValidProof(p)
    ensures Describes(ProofStep, ApplyProof, ProofPack(p), ProofParts(NO_PROOF, Sumhash512), ProofParts(p, Sumhash512))
  {
    hide KeyLe, Reads, ProofStep, Partial, Describes;
    var init, done := ProofParts(NO_PROOF, Sumhash512), ProofParts(p, Sumhash512);
    var f0, f1 := Item(K_HSH, Map(HashFactoryPack(Sumhash512))), Item(K_PTH, BinArray(p.path));
    var f2, v2 := Item(K_TD, Uint(p.treeDepth)), ProofParts(Proof(0, p.path), Sumhash512);
    ProofKeysAscend();
    ProofFieldReads(f0);
    ProofFieldReads(f1);
    ProofFieldReads(f2);
    NothingYet(ProofStep, ApplyProof, K_HSH, init);
    AppendField(ProofStep, ApplyProof, [], true, f0, K_PTH, init, init, 0);
    var s1 := [] + When(true, f0);
    AppendField(ProofStep, ApplyProof, s1, p.path != [], f1, K_TD, init, init, 1);
    var s2 := s1 + When(p.path != [], f1);
    AppendField(ProofStep, ApplyProof, s2, p.treeDepth != 0, f2, K_TD, init, v2, 2);
    assert ProofPack(p).fields == s2 + When(p.treeDepth != 0, f2);
    DescribedBy(ProofStep, ApplyProof, ProofPack(p), K_TD, init, done, 3);
  }

  /** Decoding the encoding of any Sumhash512 proof gives the proof back, whatever its path length. */
  lemma ProofRoundTrip(p: Proof, rest: seq<Byte>)
    requires ValidProof(p)
    ensures DecodeProof(EncodeProof(p) + rest) == Ok(p, rest)
    ensures DecodeAll(DecodeProof, EncodeProof(p)) == Ok(p, [])
  {
    hide KeyLe, Reads, DecodeMap, EncodePack;
    ProofDescribed(p);
    AscendingPackDecodes(ProofStep, ApplyProof, ProofPack(p), ProofParts(NO_PROOF, Sumhash512), rest);
    AscendingPackDecodes(ProofStep, ApplyProof, ProofPack(p), ProofParts(NO_PROOF, Sumhash512), []);
    assert EncodeProof(p) + [] == EncodeProof(p);
  }
}
