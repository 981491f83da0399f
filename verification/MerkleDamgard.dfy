/** The one-shot meaning of sumhash: pad, then fold the compression function over the blocks. */
module MerkleDamgard {
  import opened Bytes
  import opened Bits
  import opened SumhashCore

  const MAX_INPUT_BYTES: nat := 0x2000_0000_0000_0000  // 2^61
  const LENGTH_FIELD: nat := 2 * LANE_BYTES

  function InitialState(n: nat): (s: seq<Lane>)
    ensures |s| == n
  {
    seq(n, _ => 0)
  }

  /** Folds the compression function over the whole blocks of `data`. */
  function Fold(m: Matrix, state: seq<Lane>, data: seq<Byte>): seq<Lane>
    requires m.Valid() && m.BlockSize() > 0
    decreases |data|
  {
    if |data| < m.BlockSize() then state
    else Fold(m, m.Compress(state, data[..m.BlockSize()]), data[m.BlockSize()..])
  }

  lemma {:induction false} FoldAppend(m: Matrix, state: seq<Lane>, a: seq<Byte>, b: seq<Byte>, blocks: nat)
    requires m.Valid() && m.BlockSize() > 0 && |a| == blocks * m.BlockSize()
    ensures Fold(m, state, a + b) == Fold(m, Fold(m, state, a), b)
    decreases blocks
  {
    var bl := m.BlockSize();
    if blocks == 0 {
      assert a + b == b;
    } else {
      assert |a| == (blocks - 1) * bl + bl;
      MulAtLeast(blocks, bl);
      FoldAppend(m, m.Compress(state, a[..bl]), a[bl..], b, blocks - 1);
      assert (a + b)[..bl] == a[..bl] && (a + b)[bl..] == a[bl..] + b;
    }
  }

  lemma MulAtLeast(k: nat, bl: nat)
    requires k > 0
    ensures k * bl >= bl
  {
    MulStrict(k - 1, k, bl);
    if k > 1 { MulStrict(0, k - 1, bl); }
  }

  lemma FoldBlock(m: Matrix, state: seq<Lane>, block: seq<Byte>)
    requires m.Valid() && |block| == m.BlockSize() > 0
    ensures Fold(m, state, block) == m.Compress(state, block)
  {
    assert block[..|block|] == block && block[|block|..] == [];
  }

  // ---------------------------------------------------------------- padding

  /** The fewest zeros that make message, sentinel, zeros and length field fill whole blocks. */
  function PadZeros(bl: nat, len: nat): (z: nat)
    requires bl > 0
    ensures z < bl
  {
    (bl - (len + 1 + LENGTH_FIELD) % bl) % bl
  }

  /** The length in bits, as two little-endian words. */
  function LengthField(len: nat): (s: seq<Byte>)
    ensures |s| == LENGTH_FIELD
  {
    LE(8, 8 * len) + LE(8, 0)
  }

  function Pad(bl: nat, message: seq<Byte>): (padded: seq<Byte>)
    requires bl > 0
    ensures |padded| == |message| + 1 + PadZeros(bl, |message|) + LENGTH_FIELD
  {
    message + [1] + Zeros(PadZeros(bl, |message|)) + LengthField(|message|)
  }

  /**
   The padded message: whole blocks, no more than needed, in which message, sentinel, zeros and the number of message
   bits as a little-endian word follow each other, with a zero word at the end.
   */
  lemma PaddedLayout(bl: nat, message: seq<Byte>)
    requires bl > 0 && |message| < MAX_INPUT_BYTES
    ensures var p := Pad(bl, message);
            && |message| + 17 <= |p| < |message| + 17 + bl && |p| % bl == 0
            && p[..|message|] == message && p[|message|] == 1
            && (forall i :: |message| < i < |p| - 16 ==> p[i] == 0)
            && FromLE(p[|p| - 16..|p| - 8]) == 8 * |message| && FromLE(p[|p| - 8..]) == 0
  {
    hide LE, FromLE, PadZeros;
    Pow256Values();
    var p := Pad(bl, message);
    var blocks := PaddedLength(bl, |message|);
    QuotientUnique(|p|, blocks, 0, bl);
    assert p[|p| - 16..|p| - 8] == LE(8, 8 * |message|) && p[|p| - 8..] == LE(8, 0);
    FromLEInvertsLE(8, 8 * |message|);
    FromLEInvertsLE(8, 0);
  }

  lemma PaddedLength(bl: nat, len: nat) returns (blocks: nat)
    requires bl > 0
    ensures len + 1 + PadZeros(bl, len) + LENGTH_FIELD == blocks * bl && blocks > 0
  {
    var q, r := (len + 1 + LENGTH_FIELD) / bl, (len + 1 + LENGTH_FIELD) % bl;
    blocks := if r == 0 then q else q + 1;
    assert len + 1 + LENGTH_FIELD == q * bl + r;
    if r == 0 {
      QuotientUnique(bl, 1, 0, bl);
    } else {
      QuotientUnique(bl - r, 0, bl - r, bl);
      assert (q + 1) * bl == q * bl + bl;
    }
  }

  /** The digest of a whole message: the bytes of the final chaining value. */
  function OneShot(m: Matrix, message: seq<Byte>): (digest: seq<Byte>)
    requires m.Valid() && m.BlockSize() > 0
  {
    StateBytes(Fold(m, InitialState(m.n), Pad(m.BlockSize(), message)))
  }

  /** Only the remainder of the length modulo the block size matters. */
  lemma PadZerosOf(bl: nat, len: nat, q: nat, r: nat)
    requires bl > 0 && len + 1 + LENGTH_FIELD == q * bl + r && r <= bl
    ensures PadZeros(bl, len) == if 0 < r < bl then bl - r else 0
  {
    if r == bl {
      assert q * bl + r == (q + 1) * bl;
      QuotientUnique(len + 1 + LENGTH_FIELD, q + 1, 0, bl);
    } else {
      QuotientUnique(len + 1 + LENGTH_FIELD, q, r, bl);
    }
    if 0 < r < bl { QuotientUnique(bl - r, 0, bl - r, bl); } else { QuotientUnique(bl, 1, 0, bl); }
  }

  /** What is added after the last whole block when `tail` bytes are buffered and room remains. */
  lemma PadFits(bl: nat, tail: nat, blocks: nat)
    requires tail + 1 + LENGTH_FIELD <= bl
    ensures PadZeros(bl, blocks * bl + tail) == bl - LENGTH_FIELD - tail - 1
  {
    PadZerosOf(bl, blocks * bl + tail, blocks, tail + 1 + LENGTH_FIELD);
  }

  /** The same when the length field does not fit and an overflow block is needed. */
  lemma PadOverflows(bl: nat, tail: nat, blocks: nat)
    requires LENGTH_FIELD <= bl && tail < bl < tail + 1 + LENGTH_FIELD
    ensures PadZeros(bl, blocks * bl + tail) == (bl - tail - 1) + (bl - LENGTH_FIELD)
  {
    assert (blocks + 1) * bl == blocks * bl + bl;
    PadZerosOf(bl, blocks * bl + tail, blocks + 1, tail + 1 + LENGTH_FIELD - bl);
  }

  // ---------------------------------------------------------------- collision reduction

  /** One input of the compression function. */
  datatype Link = Link(state: seq<Lane>, block: seq<Byte>)

  /** The inputs given to the compression function along a fold. */
  function Chain(m: Matrix, state: seq<Lane>, data: seq<Byte>): seq<Link>
    requires m.Valid() && m.BlockSize() > 0
    decreases |data|
  {
    if |data| < m.BlockSize() then []
    else
      [Link(state, data[..m.BlockSize()])]
      + Chain(m, m.Compress(state, data[..m.BlockSize()]), data[m.BlockSize()..])
  }

  /** The compression inputs behind one digest. */
  function MessageChain(m: Matrix, message: seq<Byte>): seq<Link>
    requires m.Valid() && m.BlockSize() > 0
  {
    Chain(m, InitialState(m.n), Pad(m.BlockSize(), message))
  }

  ghost predicate CompressCollision(m: Matrix, a: Link, b: Link)
    requires m.Valid()
  {
    a != b && m.Compress(a.state, a.block) == m.Compress(b.state, b.block)
  }

  /** The two chains feed two different inputs with one output to the compression function. */
  ghost predicate ChainsCollide(m: Matrix, c: seq<Link>, d: seq<Link>)
    requires m.Valid()
  {
    exists a, b :: a in c && b in d && CompressCollision(m, a, b)
  }

  lemma {:induction false} EqualLengthReduction(
    m: Matrix, s: seq<Lane>, x: seq<Byte>, t: seq<Lane>, y: seq<Byte>, blocks: nat)
    requires m.Valid() && m.BlockSize() > 0 && |x| == |y| == blocks * m.BlockSize()
    requires Fold(m, s, x) == Fold(m, t, y)
    ensures (s == t && x == y) || ChainsCollide(m, Chain(m, s, x), Chain(m, t, y))
    decreases blocks
  {
    var bl := m.BlockSize();
    if blocks > 0 {
      MulAtLeast(blocks, bl);
      assert |x| == (blocks - 1) * bl + bl;
      var a, b := Link(s, x[..bl]), Link(t, y[..bl]);
      var s', t' := m.Compress(s, x[..bl]), m.Compress(t, y[..bl]);
      assert Chain(m, s, x) == [a] + Chain(m, s', x[bl..]) && Chain(m, t, y) == [b] + Chain(m, t', y[bl..]);
      EqualLengthReduction(m, s', x[bl..], t', y[bl..], blocks - 1);
      if s' == t' && x[bl..] == y[bl..] {
        if a == b {
          assert x == x[..bl] + x[bl..] && y == y[..bl] + y[bl..];
        } else {
          assert a in Chain(m, s, x) && b in Chain(m, t, y) && CompressCollision(m, a, b);
        }
      } else {
        var u, v :| u in Chain(m, s', x[bl..]) && v in Chain(m, t', y[bl..]) && CompressCollision(m, u, v);
        assert u in Chain(m, s, x) && v in Chain(m, t, y);
      }
    }
  }

  /** The last input of a chain ends in the last block and produces the folded state. */
  lemma {:induction false} LastLink(m: Matrix, s: seq<Lane>, x: seq<Byte>, blocks: nat) returns (last: Link)
    requires m.Valid() && m.BlockSize() > 0 && |x| == blocks * m.BlockSize() && blocks > 0
    ensures last in Chain(m, s, x) && m.Compress(last.state, last.block) == Fold(m, s, x)
    ensures |x| >= m.BlockSize() && last.block == x[|x| - m.BlockSize()..]
    decreases blocks
  {
    var bl := m.BlockSize();
    MulAtLeast(blocks, bl);
    if blocks == 1 {
      last := Link(s, x);
      assert |x| == bl && x[..bl] == x && x[bl..] == [];
    } else {
      assert |x| == (blocks - 1) * bl + bl;
      last := LastLink(m, m.Compress(s, x[..bl]), x[bl..], blocks - 1);
    }
  }

  lemma LengthFieldInjective(p: nat, q: nat)
    requires p < MAX_INPUT_BYTES && q < MAX_INPUT_BYTES && p != q
    ensures LengthField(p) != LengthField(q)
  {
    Pow256Values();
    FromLEInvertsLE(8, 8 * p);
    FromLEInvertsLE(8, 8 * q);
    assert LengthField(p)[..8] == LE(8, 8 * p) && LengthField(q)[..8] == LE(8, 8 * q);
  }

  /**
   Merkle-Damgard reduction: two different messages below the input cap with one digest lead to two
   different inputs of the compression function, one from each chain, with one output.
   */
  lemma CollisionReduction(m: Matrix, x: seq<Byte>, y: seq<Byte>)
    requires m.Valid() && m.BlockSize() >= LENGTH_FIELD
    requires |x| < MAX_INPUT_BYTES && |y| < MAX_INPUT_BYTES
    requires x != y && OneShot(m, x) == OneShot(m, y)
    ensures ChainsCollide(m, MessageChain(m, x), MessageChain(m, y))
  {
    hide Fold, LE, StateBytes, PadZeros, ChainsCollide, Chain;
    var bl, iv := m.BlockSize(), InitialState(m.n);
    var px, py := Pad(bl, x), Pad(bl, y);
    var nx := PaddedLength(bl, |x|);
    var ny := PaddedLength(bl, |y|);
    FoldLength(m, iv, px);
    FoldLength(m, iv, py);
    StateBytesInjective(Fold(m, iv, px), Fold(m, iv, py));
    if |x| == |y| {
      PadKeepsMessage(bl, x, y);
      EqualLengthReduction(m, iv, px, iv, py, nx);
    } else {
      var a := LastLink(m, iv, px, nx);
      var b := LastLink(m, iv, py, ny);
      LastBlocksDiffer(bl, x, y);
      LinksCollide(m, MessageChain(m, x), MessageChain(m, y), a, b);
    }
  }

  lemma LinksCollide(m: Matrix, c: seq<Link>, d: seq<Link>, a: Link, b: Link)
    requires m.Valid() && a in c && b in d && CompressCollision(m, a, b)
    ensures ChainsCollide(m, c, d)
  {
  }

  lemma PadKeepsMessage(bl: nat, x: seq<Byte>, y: seq<Byte>)
    requires bl > 0 && |x| == |y| && x != y
    ensures Pad(bl, x) != Pad(bl, y)
  {
    assert Pad(bl, x)[..|x|] == x && Pad(bl, y)[..|y|] == y;
  }

  /** Messages of different lengths differ in their last padded block. */
  lemma LastBlocksDiffer(bl: nat, x: seq<Byte>, y: seq<Byte>)
    requires bl >= LENGTH_FIELD && |x| < MAX_INPUT_BYTES && |y| < MAX_INPUT_BYTES && |x| != |y|
    requires |Pad(bl, x)| >= bl && |Pad(bl, y)| >= bl
    ensures Pad(bl, x)[|Pad(bl, x)| - bl..] != Pad(bl, y)[|Pad(bl, y)| - bl..]
  {
    hide LE, PadZeros;
    var px, py := Pad(bl, x), Pad(bl, y);
    assert px[|px| - bl..][bl - LENGTH_FIELD..] == LengthField(|x|);
    assert py[|py| - bl..][bl - LENGTH_FIELD..] == LengthField(|y|);
    LengthFieldInjective(|x|, |y|);
  }

  lemma {:induction false} FoldLength(m: Matrix, s: seq<Lane>, x: seq<Byte>)
    requires m.Valid() && m.BlockSize() > 0 && |s| == m.n
    ensures |Fold(m, s, x)| == m.n
    decreases |x|
  {
    var bl := m.BlockSize();
    if |x| >= bl { FoldLength(m, m.Compress(s, x[..bl]), x[bl..]); }
  }
}
