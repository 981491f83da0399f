/** The byte strings hashed into the leaves of the participant, key and signature trees. */
module Leaves {
  import opened Bytes
  import opened Hashing
  import opened MerkleTree
  import opened Types
  import Bits
  import Coin

  const DOMAIN_PARTICIPANT: seq<Byte> := [0x73, 0x70, 0x70]    // "spp"
  const DOMAIN_EPHEMERAL_KEY: seq<Byte> := [0x4b, 0x50]        // "KP"
  const DOMAIN_SIG_SLOT: seq<Byte> := [0x73, 0x70, 0x73]       // "sps"
  const MSS_CRYPTO_SUITE_ID: nat := 0
  const MSS_VC_MAX_DEPTH: nat := 16
  const MSS_FIXED_SIZE: nat := 2 + CT_SIG_SIZE + PUBKEY_SIZE + 8 + 1 + MSS_VC_MAX_DEPTH * SUMHASH_SIZE

  // ---------------------------------------------------------------- participants and keys

  ghost predicate ValidParticipant(p: Participant) {
    |p.pk.commitment| == SUMHASH_SIZE
  }

  function ParticipantPreimage(p: Participant): seq<Byte> {
    DOMAIN_PARTICIPANT + (LE(8, p.weight) + (LE(8, p.pk.keyLifetime) + p.pk.commitment))
  }

  /** The leaf preimage determines the whole participant: stake, key lifetime and key commitment. */
  lemma ParticipantPreimageInjective(p: Participant, q: Participant)
    requires ParticipantPreimage(p) == ParticipantPreimage(q)
    ensures p == q
  {
    hide LE;
    Pow256Values();
    var p1, q1 := LE(8, p.pk.keyLifetime) + p.pk.commitment, LE(8, q.pk.keyLifetime) + q.pk.commitment;
    ConcatInjective(DOMAIN_PARTICIPANT, LE(8, p.weight) + p1, DOMAIN_PARTICIPANT, LE(8, q.weight) + q1);
    ConcatInjective(LE(8, p.weight), p1, LE(8, q.weight), q1);
    ConcatInjective(LE(8, p.pk.keyLifetime), p.pk.commitment, LE(8, q.pk.keyLifetime), q.pk.commitment);
    LEInjective(8, p.weight, q.weight);
    LEInjective(8, p.pk.keyLifetime, q.pk.keyLifetime);
  }

  /** The first round of the key epoch that contains `round`. */
  function KeyEpochStart(v: MerkleVerifier, round: U64): (start: U64)
    ensures start <= round
    ensures v.keyLifetime > 0 ==> start % v.keyLifetime == 0 && round - start < v.keyLifetime
    ensures v.keyLifetime == 0 ==> start == round
  {
    if v.keyLifetime == 0 then round
    else
      assert round == (round / v.keyLifetime) * v.keyLifetime + round % v.keyLifetime;
      Bits.QuotientUnique(round - round % v.keyLifetime, round / v.keyLifetime, 0, v.keyLifetime);
      round - round % v.keyLifetime
  }

  function KeyPreimage(round: U64, key: seq<Byte>): seq<Byte> {
    DOMAIN_EPHEMERAL_KEY + LE(2, MSS_CRYPTO_SUITE_ID) + LE(8, round) + key
  }

  // ---------------------------------------------------------------- signature slots

  datatype SlotBytes = Fixed(bytes: seq<Byte>) | ConversionFailed | Panics

  /** Unused path slots come first; a depth above the maximum leaves no padding. */
  function PathPad(depth: Byte): (pad: nat)
    ensures pad <= MSS_VC_MAX_DEPTH
  {
    if depth <= MSS_VC_MAX_DEPTH then MSS_VC_MAX_DEPTH - depth else 0
  }

  /** Everything before the path: suite, constant-time signature, key, index and depth. */
  function SlotPrefix(ct: seq<Byte>, mss: MerkleSignature): seq<Byte> {
    LE(2, MSS_CRYPTO_SUITE_ID) + (ct + (mss.verifyingKey + (LE(8, mss.vcIndex) + [mss.proof.treeDepth])))
  }

  /** Padding, path, and zeros where the path is shorter than the declared depth. */
  function PathArea(p: Proof): seq<Byte>
    requires PathPad(p.treeDepth) + |p.path| <= MSS_VC_MAX_DEPTH
  {
    Zeros(PathPad(p.treeDepth) * SUMHASH_SIZE) + Flatten(p.path)
    + Zeros((MSS_VC_MAX_DEPTH - PathPad(p.treeDepth) - |p.path|) * SUMHASH_SIZE)
  }

  /** The fixed-length form of a signature; copying a path that does not fit runs out of bounds. */
  function MssBytes(f: Falcon, mss: MerkleSignature): SlotBytes {
    var ct := f.toCt(mss.signature);
    if ct.None? then ConversionFailed
    else if PathPad(mss.proof.treeDepth) + |mss.proof.path| > MSS_VC_MAX_DEPTH then Panics
    else Fixed(SlotPrefix(ct.value, mss) + PathArea(mss.proof))
  }

  ghost predicate ValidMss(mss: MerkleSignature) {
    |mss.verifyingKey| == PUBKEY_SIZE && forall i :: 0 <= i < |mss.proof.path| ==> |mss.proof.path[i]| == SUMHASH_SIZE
  }

  lemma {:induction false} FlattenLength(path: seq<Digest>)
    requires forall i :: 0 <= i < |path| ==> |path[i]| == SUMHASH_SIZE
    ensures |Flatten(path)| == |path| * SUMHASH_SIZE
  {
    if path != [] { FlattenLength(path[1..]); }
  }

  lemma {:induction false} FlattenSnoc(path: seq<Digest>, d: Digest)
    ensures Flatten(path + [d]) == Flatten(path) + d
  {
    if path == [] {
      assert ([] + [d])[1..] == [];
    } else {
      assert (path + [d])[1..] == path[1..] + [d];
      FlattenSnoc(path[1..], d);
    }
  }

  lemma {:induction false} FlattenInjective(p: seq<Digest>, q: seq<Digest>)
    requires |p| == |q| && Flatten(p) == Flatten(q)
    requires forall i :: 0 <= i < |p| ==> |p[i]| == |q[i]|
    ensures p == q
  {
    if p != [] {
      ConcatInjective(p[0], Flatten(p[1..]), q[0], Flatten(q[1..]));
      FlattenInjective(p[1..], q[1..]);
      assert p == [p[0]] + p[1..] && q == [q[0]] + q[1..];
    }
  }

  /** The conversion as it runs: a zeroed buffer, a moving position, then the path at its offset. */
  method MssToBytes(f: Falcon, mss: MerkleSignature) returns (r: SlotBytes)
    requires f.Valid() && ValidMss(mss)
    ensures r == MssBytes(f, mss)
    ensures r.Fixed? ==> |r.bytes| == MSS_FIXED_SIZE
  {
    hide LE, Flatten;
    var ct := f.toCt(mss.signature);
    if ct.None? { return ConversionFailed; }
    var out := new Byte[MSS_FIXED_SIZE](_ => 0);
    var pos := CopyPrefix(out, ct.value, mss);
    hide SlotPrefix;
    var pad := PathPad(mss.proof.treeDepth);
    assert out[pos..pos + pad * SUMHASH_SIZE] == Zeros(pad * SUMHASH_SIZE);
    assert out[..pos + pad * SUMHASH_SIZE] == out[..pos] + out[pos..pos + pad * SUMHASH_SIZE];
    r := CopyPath(out, pos + pad * SUMHASH_SIZE, mss.proof, SlotPrefix(ct.value, mss));
  }

  /** Everything before the path, copied at a moving position. */
  method CopyPrefix(out: array<Byte>, ct: seq<Byte>, mss: MerkleSignature) returns (pos: nat)
    requires out.Length == MSS_FIXED_SIZE && |ct| == CT_SIG_SIZE && |mss.verifyingKey| == PUBKEY_SIZE
    modifies out
    ensures pos + MSS_VC_MAX_DEPTH * SUMHASH_SIZE == out.Length && out[..pos] == SlotPrefix(ct, mss)
    ensures forall k :: pos <= k < out.Length ==> out[k] == old(out[k])
  {
    hide LE;
    pos := Coin.CopyAt(out, 0, LE(2, MSS_CRYPTO_SUITE_ID));
    pos := Coin.CopyAt(out, pos, ct);
    pos := Coin.CopyAt(out, pos, mss.verifyingKey);
    pos := Coin.CopyAt(out, pos, LE(8, mss.vcIndex));
    pos := Coin.CopyAt(out, pos, [mss.proof.treeDepth]);
    FiveParts(LE(2, MSS_CRYPTO_SUITE_ID), ct, mss.verifyingKey, LE(8, mss.vcIndex), [mss.proof.treeDepth]);
  }

  lemma FlattenNothing()
    ensures Flatten<Byte>([]) == []
  {
  }

  method CopyPath(out: array<Byte>, pathStart: nat, p: Proof, ghost prefix: seq<Byte>) returns (r: SlotBytes)
    requires out.Length == MSS_FIXED_SIZE && |prefix| + MSS_VC_MAX_DEPTH * SUMHASH_SIZE == MSS_FIXED_SIZE
    requires pathStart == |prefix| + PathPad(p.treeDepth) * SUMHASH_SIZE
    requires out[..pathStart] == prefix + Zeros(PathPad(p.treeDepth) * SUMHASH_SIZE)
    requires forall i :: pathStart <= i < out.Length ==> out[i] == 0
    requires forall i :: 0 <= i < |p.path| ==> |p.path[i]| == SUMHASH_SIZE
    modifies out
    ensures r == if PathPad(p.treeDepth) + |p.path| > MSS_VC_MAX_DEPTH then Panics else Fixed(prefix + PathArea(p))
    ensures r.Fixed? ==> |r.bytes| == MSS_FIXED_SIZE
  {
    hide Flatten, PathArea;
    FlattenNothing();
    assert p.path[..0] == [];
    var i := 0;
    while i < |p.path|
      invariant 0 <= i <= |p.path| && PathPad(p.treeDepth) + i <= MSS_VC_MAX_DEPTH
      invariant out[..pathStart + i * SUMHASH_SIZE]
             == prefix + Zeros(PathPad(p.treeDepth) * SUMHASH_SIZE) + Flatten(p.path[..i])
      invariant forall k :: pathStart + i * SUMHASH_SIZE <= k < out.Length ==> out[k] == 0
    {
      var offset := pathStart + i * SUMHASH_SIZE;
      if offset + SUMHASH_SIZE > out.Length { return Panics; }
      FlattenSnoc(p.path[..i], p.path[i]);
      assert p.path[..i + 1] == p.path[..i] + [p.path[i]];
      var _ := Coin.CopyAt(out, offset, p.path[i]);
      i := i + 1;
    }
    assert p.path[..i] == p.path;
    LayoutComplete(out[..], pathStart + i * SUMHASH_SIZE, p, prefix);
    r := Fixed(out[..]);
  }

  /** Zeros behind the path complete the layout. */
  lemma LayoutComplete(bytes: seq<Byte>, filled: nat, p: Proof, prefix: seq<Byte>)
    requires |bytes| == MSS_FIXED_SIZE && |prefix| + MSS_VC_MAX_DEPTH * SUMHASH_SIZE == MSS_FIXED_SIZE
    requires PathPad(p.treeDepth) + |p.path| <= MSS_VC_MAX_DEPTH
    requires filled == |prefix| + (PathPad(p.treeDepth) + |p.path|) * SUMHASH_SIZE
    requires bytes[..filled] == prefix + Zeros(PathPad(p.treeDepth) * SUMHASH_SIZE) + Flatten(p.path)
    requires forall k :: filled <= k < |bytes| ==> bytes[k] == 0
    ensures bytes == prefix + PathArea(p)
  {
    hide Flatten;
    var zeros := Zeros((MSS_VC_MAX_DEPTH - PathPad(p.treeDepth) - |p.path|) * SUMHASH_SIZE);
    assert bytes[filled..] == zeros;
    assert bytes == bytes[..filled] + bytes[filled..];
    var pad := Zeros(PathPad(p.treeDepth) * SUMHASH_SIZE);
    assert prefix + pad + Flatten(p.path) + zeros == prefix + (pad + Flatten(p.path) + zeros);
  }

  /** A path as long as the declared depth, which the fixed form has room for. */
  ghost predicate FullPath(p: Proof) {
    |p.path| == p.treeDepth <= MSS_VC_MAX_DEPTH
  }

  /** The path with zero digests up to the number of entries that the layout has for this depth. */
  function ZeroFilled(p: Proof): (path: seq<Digest>)
    requires PathPad(p.treeDepth) + |p.path| <= MSS_VC_MAX_DEPTH
    ensures |path| == MSS_VC_MAX_DEPTH - PathPad(p.treeDepth)
  {
    p.path + seq(MSS_VC_MAX_DEPTH - PathPad(p.treeDepth) - |p.path|, _ => Zeros(SUMHASH_SIZE))
  }

  /** The proofs have one depth and, up to zero digests behind the shorter path, one path. */
  ghost predicate SameUpToZeros(p: Proof, q: Proof) {
    && p.treeDepth == q.treeDepth
    && PathPad(p.treeDepth) + |p.path| <= MSS_VC_MAX_DEPTH && PathPad(q.treeDepth) + |q.path| <= MSS_VC_MAX_DEPTH
    && ZeroFilled(p) == ZeroFilled(q)
  }

  /** For paths as long as their depth that is equality. */
  lemma FullPathsSame(p: Proof, q: Proof)
    requires FullPath(p) && FullPath(q) && SameUpToZeros(p, q)
    ensures p == q
  {
    assert ZeroFilled(p) == p.path && ZeroFilled(q) == q.path;
  }

  /** Everything in a fixed form can be read back, but for zero digests at the end of the path. */
  lemma FixedFormInjective(f: Falcon, m: MerkleSignature, n: MerkleSignature)
    requires f.Valid() && ValidMss(m) && ValidMss(n)
    requires MssBytes(f, m).Fixed? && MssBytes(f, m) == MssBytes(f, n)
    ensures f.toCt(m.signature) == f.toCt(n.signature)
    ensures m.verifyingKey == n.verifyingKey && m.vcIndex == n.vcIndex && SameUpToZeros(m.proof, n.proof)
  {
    hide LE, Flatten, PathArea, ZeroFilled;
    var ctM, ctN := f.toCt(m.signature).value, f.toCt(n.signature).value;
    ConcatInjective(SlotPrefix(ctM, m), PathArea(m.proof), SlotPrefix(ctN, n), PathArea(n.proof));
    PrefixInjective(ctM, m, ctN, n);
    PathAreaIff(m.proof, n.proof);
  }

  /** The exact loss of the layout: a path with a zero digest behind it has the same form. */
  lemma TrailingZeroLost(f: Falcon, m: MerkleSignature)
    requires m.proof == Proof(1, [])
    ensures PathArea(m.proof) == PathArea(Proof(1, [Zeros(SUMHASH_SIZE)]))
    ensures MssBytes(f, m) == MssBytes(f, m.(proof := Proof(1, [Zeros(SUMHASH_SIZE)])))
  {
    hide LE;
    var q := Proof(1, [Zeros(SUMHASH_SIZE)]);
    assert ZeroFilled(m.proof) == ZeroFilled(q);
    PathAreaIff(m.proof, q);
  }

  lemma PrefixInjective(ctM: seq<Byte>, m: MerkleSignature, ctN: seq<Byte>, n: MerkleSignature)
    requires |ctM| == |ctN| && |m.verifyingKey| == |n.verifyingKey| && SlotPrefix(ctM, m) == SlotPrefix(ctN, n)
    ensures ctM == ctN && m.verifyingKey == n.verifyingKey && m.vcIndex == n.vcIndex
    ensures m.proof.treeDepth == n.proof.treeDepth
  {
    hide LE;
    Pow256Values();
    var m2, n2 := LE(8, m.vcIndex) + [m.proof.treeDepth], LE(8, n.vcIndex) + [n.proof.treeDepth];
    var m1, n1 := m.verifyingKey + m2, n.verifyingKey + n2;
    ConcatInjective(LE(2, MSS_CRYPTO_SUITE_ID), ctM + m1, LE(2, MSS_CRYPTO_SUITE_ID), ctN + n1);
    ConcatInjective(ctM, m1, ctN, n1);
    ConcatInjective(m.verifyingKey, m2, n.verifyingKey, n2);
    ConcatInjective(LE(8, m.vcIndex), [m.proof.treeDepth], LE(8, n.vcIndex), [n.proof.treeDepth]);
    LEInjective(8, m.vcIndex, n.vcIndex);
  }

  lemma {:induction false} FlattenZeros(n: nat)
    ensures Flatten(seq(n, _ => Zeros(SUMHASH_SIZE))) == Zeros(n * SUMHASH_SIZE)
  {
    if n > 0 {
      FlattenZeros(n - 1);
      assert seq(n, _ => Zeros(SUMHASH_SIZE))[1..] == seq(n - 1, _ => Zeros(SUMHASH_SIZE));
    }
  }

  lemma {:induction false} FlattenAppend(p: seq<Digest>, q: seq<Digest>)
    ensures Flatten(p + q) == Flatten(p) + Flatten(q)
    decreases |p|
  {
    if p == [] {
      assert p + q == q;
    } else {
      assert (p + q)[1..] == p[1..] + q;
      FlattenAppend(p[1..], q);
    }
  }

  lemma PathAreaIsZeroFilled(p: Proof)
    requires PathPad(p.treeDepth) + |p.path| <= MSS_VC_MAX_DEPTH
    ensures PathArea(p) == Zeros(PathPad(p.treeDepth) * SUMHASH_SIZE) + Flatten(ZeroFilled(p))
  {
    hide Flatten, Zeros;
    var n := MSS_VC_MAX_DEPTH - PathPad(p.treeDepth) - |p.path|;
    FlattenAppend(p.path, seq(n, _ => Zeros(SUMHASH_SIZE)));
    FlattenZeros(n);
  }

  /** Two path areas of one depth are equal exactly if the paths are, up to zero digests at the end. */
  lemma PathAreaIff(p: Proof, q: Proof)
    requires PathPad(p.treeDepth) + |p.path| <= MSS_VC_MAX_DEPTH && PathPad(q.treeDepth) + |q.path| <= MSS_VC_MAX_DEPTH
    requires p.treeDepth == q.treeDepth
    requires forall i :: 0 <= i < |p.path| ==> |p.path[i]| == SUMHASH_SIZE
    requires forall i :: 0 <= i < |q.path| ==> |q.path[i]| == SUMHASH_SIZE
    ensures PathArea(p) == PathArea(q) <==> SameUpToZeros(p, q)
  {
    hide Flatten, PathArea, Zeros;
    PathAreaIsZeroFilled(p);
    PathAreaIsZeroFilled(q);
    if PathArea(p) == PathArea(q) {
      var zeros := Zeros(PathPad(p.treeDepth) * SUMHASH_SIZE);
      ConcatInjective(zeros, Flatten(ZeroFilled(p)), zeros, Flatten(ZeroFilled(q)));
      FlattenInjective(ZeroFilled(p), ZeroFilled(q));
    }
  }

  /** The bytes hashed for a signature slot. */
  function SlotPreimage(f: Falcon, slot: SigSlot): SlotBytes {
    if slot.IsEmpty() then Fixed(MERKLE_VC_BOTTOM_LEAF)
    else
      match MssBytes(f, slot.mss)
      case Fixed(bytes) => Fixed(DOMAIN_SIG_SLOT + (LE(8, slot.l) + bytes))
      case ConversionFailed => ConversionFailed
      case Panics => Panics
  }

  ghost predicate ValidSlot(slot: SigSlot) {
    ValidMss(slot.mss)
  }

  /**
   The two slots commit to the same thing: both empty, or the same range start and signature, but for zero
   digests at the end of a path that is shorter than its depth.
   */
  ghost predicate SameSlot(f: Falcon, s: SigSlot, t: SigSlot) {
    if s.IsEmpty() || t.IsEmpty() then s.IsEmpty() && t.IsEmpty()
    else
      && s.l == t.l && f.toCt(s.mss.signature) == f.toCt(t.mss.signature)
      && s.mss.verifyingKey == t.mss.verifyingKey && s.mss.vcIndex == t.mss.vcIndex
      && SameUpToZeros(s.mss.proof, t.mss.proof)
  }

  /** Two slots have one leaf preimage exactly if they commit to the same thing; an empty and a signed one never do. */
  lemma SlotPreimageBinding(f: Falcon, s: SigSlot, t: SigSlot)
    requires f.Valid() && ValidSlot(s) && ValidSlot(t)
    requires SlotPreimage(f, s).Fixed? && SlotPreimage(f, t).Fixed?
    ensures SlotPreimage(f, s) == SlotPreimage(f, t) <==> SameSlot(f, s, t)
    ensures SameSlot(f, s, t) && !s.IsEmpty() && FullPath(s.mss.proof) && FullPath(t.mss.proof) ==>
              s.mss.proof == t.mss.proof
  {
    hide LE, MssBytes, ValidMss, SameUpToZeros;
    SlotFirstByte(f, s);
    SlotFirstByte(f, t);
    if !s.IsEmpty() && !t.IsEmpty() {
      Pow256Values();
      if SlotPreimage(f, s) == SlotPreimage(f, t) {
        var x, y := MssBytes(f, s.mss).bytes, MssBytes(f, t.mss).bytes;
        ConcatInjective(DOMAIN_SIG_SLOT, LE(8, s.l) + x, DOMAIN_SIG_SLOT, LE(8, t.l) + y);
        ConcatInjective(LE(8, s.l), x, LE(8, t.l), y);
        LEInjective(8, s.l, t.l);
        FixedFormInjective(f, s.mss, t.mss);
      }
      if SameSlot(f, s, t) {
        SameFixedForm(f, s.mss, t.mss);
        if FullPath(s.mss.proof) && FullPath(t.mss.proof) { FullPathsSame(s.mss.proof, t.mss.proof); }
      }
    }
  }

  lemma SameFixedForm(f: Falcon, m: MerkleSignature, n: MerkleSignature)
    requires f.Valid() && ValidMss(m) && ValidMss(n) && MssBytes(f, m).Fixed? && MssBytes(f, n).Fixed?
    requires f.toCt(m.signature) == f.toCt(n.signature)
    requires m.verifyingKey == n.verifyingKey && m.vcIndex == n.vcIndex && SameUpToZeros(m.proof, n.proof)
    ensures MssBytes(f, m) == MssBytes(f, n)
  {
    hide LE, Flatten, PathArea;
    PathAreaIff(m.proof, n.proof);
  }

  // ---------------------------------------------------------------- domain separation

  lemma SlotFirstByte(f: Falcon, slot: SigSlot)
    requires SlotPreimage(f, slot).Fixed?
    ensures |SlotPreimage(f, slot).bytes| >= 2
    ensures SlotPreimage(f, slot).bytes[0] == if slot.IsEmpty() then 0x4d else 0x73
    ensures slot.IsEmpty() ==> SlotPreimage(f, slot).bytes == MERKLE_VC_BOTTOM_LEAF
    ensures !slot.IsEmpty() ==> DOMAIN_SIG_SLOT <= SlotPreimage(f, slot).bytes
  {
    hide LE, MssBytes;
  }

  /** No leaf of any of the trees can be taken for an inner node. */
  lemma LeavesAreNoNodes(f: Falcon, p: Participant, round: U64, key: seq<Byte>, slot: SigSlot)
    ensures !IsNodeInput(ParticipantPreimage(p)) && !IsNodeInput(KeyPreimage(round, key))
    ensures SlotPreimage(f, slot).Fixed? ==> !IsNodeInput(SlotPreimage(f, slot).bytes)
    ensures !IsNodeInput(MERKLE_VC_BOTTOM_LEAF)
  {
    hide LE, SlotPreimage;
    NoNode(ParticipantPreimage(p));
    NoNode(KeyPreimage(round, key));
    NoNode(MERKLE_VC_BOTTOM_LEAF);
    if SlotPreimage(f, slot).Fixed? {
      SlotFirstByte(f, slot);
      NoNode(SlotPreimage(f, slot).bytes);
    }
  }

  /** No two kinds of input to the tree hasher can be the same byte string. */
  lemma DomainsSeparate(
    f: Falcon, left: Digest, right: Digest, p: Participant, round: U64, key: seq<Byte>, slot: SigSlot)
    requires SlotPreimage(f, slot).Fixed?
    ensures NodePreimage(left, right) != MERKLE_VC_BOTTOM_LEAF
    ensures NodePreimage(left, right) != ParticipantPreimage(p) && NodePreimage(left, right) != KeyPreimage(round, key)
    ensures ParticipantPreimage(p) != KeyPreimage(round, key) && ParticipantPreimage(p) != MERKLE_VC_BOTTOM_LEAF
    ensures KeyPreimage(round, key) != MERKLE_VC_BOTTOM_LEAF
    ensures SlotPreimage(f, slot).bytes != NodePreimage(left, right)
    ensures SlotPreimage(f, slot).bytes != ParticipantPreimage(p)
    ensures SlotPreimage(f, slot).bytes != KeyPreimage(round, key)
  {
    hide LE, SlotPreimage;
    LeavesAreNoNodes(f, p, round, key, slot);
    assert IsNodeInput(NodePreimage(left, right));
    SlotFirstByte(f, slot);
    assert ParticipantPreimage(p)[..3] == DOMAIN_PARTICIPANT && KeyPreimage(round, key)[0] == 0x4b;
    assert DOMAIN_PARTICIPANT[0] == 0x73 && DOMAIN_PARTICIPANT[2] == 0x70 && DOMAIN_SIG_SLOT[2] == 0x73;
  }
}
