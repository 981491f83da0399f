/**
 The compression function read as a product of bits: the words of the stream, one after the other, against the bits of
 the chaining value, lane by lane, and then those of the block, byte by byte, each least significant bit first.
 */
module MatrixProduct {
  import opened Bytes
  import opened Bits
  import opened SumhashCore
  import opened MerkleDamgard
  import opened Sumhash

  /** The `w` low bits of a number, least significant first. */
  function BitsOf(x: nat, w: nat): (bits: seq<bool>)
    ensures |bits| == w
  {
    if w == 0 then [] else [x % 2 == 1] + BitsOf(x / 2, w - 1)
  }

  function ByteBits(bytes: seq<Byte>): (bits: seq<bool>)
    ensures |bits| == 8 * |bytes|
  {
    if bytes == [] then [] else BitsOf(bytes[0], 8) + ByteBits(bytes[1..])
  }

  function LaneBits(lanes: seq<Lane>): (bits: seq<bool>)
    ensures |bits| == 64 * |lanes|
  {
    if lanes == [] then [] else BitsOf(lanes[0], 64) + LaneBits(lanes[1..])
  }

  /** The sum of the stream's words from number `first` on whose bit is set. */
  function WordSum(xof: nat -> Byte, first: nat, bits: seq<bool>): nat
    decreases |bits|
  {
    if bits == [] then 0
    else (if bits[0] then Word(xof, 8 * first) else 0) + WordSum(xof, first + 1, bits[1..])
  }

  lemma {:induction false} WordSumSnoc(xof: nat -> Byte, first: nat, bits: seq<bool>, bit: bool)
    ensures WordSum(xof, first, bits + [bit])
         == WordSum(xof, first, bits) + if bit then Word(xof, 8 * (first + |bits|)) else 0
    decreases |bits|
  {
    hide Word;
    if bits == [] {
      assert ([] + [bit])[1..] == [];
    } else {
      assert (bits + [bit])[1..] == bits[1..] + [bit];
      WordSumSnoc(xof, first + 1, bits[1..], bit);
    }
  }

  // ---------------------------------------------------------------- bits of bytes

  lemma {:induction false} BitsOfAt(x: nat, w: nat, i: nat)
    requires i < w
    ensures BitsOf(x, w)[i] == (Bit(x, i) == 1)
  {
    if i == 0 {
      assert x / 1 == x;
    } else {
      BitsOfAt(x / 2, w - 1, i - 1);
      DivideTwice(x, i - 1);
    }
  }

  lemma {:induction false} ByteBitsAt(bytes: seq<Byte>, k: nat)
    requires k < 8 * |bytes|
    ensures ByteBits(bytes)[k] == (InputBit(bytes, k) == 1)
  {
    hide Bit;
    if k < 8 {
      BitsOfAt(bytes[0], 8, k);
    } else {
      ByteBitsAt(bytes[1..], k - 8);
      assert (k - 8) / 8 == k / 8 - 1 && (k - 8) % 8 == k % 8;
    }
  }

  /** A number's bits, split at bit `a`. */
  lemma {:induction false} BitsSplit(x: nat, a: nat, b: nat)
    ensures BitsOf(x, a + b) == BitsOf(x, a) + BitsOf(ShiftRight(x, a), b)
    decreases a
  {
    if a > 0 { BitsSplit(x / 2, a - 1, b); }
  }

  lemma {:induction false} LowBits(x: nat, y: nat, w: nat)
    requires x % Pow2(w) == y % Pow2(w)
    ensures BitsOf(x, w) == BitsOf(y, w)
  {
    if w > 0 {
      DivideByDouble(x, Pow2(w - 1));
      DivideByDouble(y, Pow2(w - 1));
      LowBits(x / 2, y / 2, w - 1);
    }
  }

  lemma Pow2Of8Is256()
    ensures Pow2(8) == 256
  {
    assert Pow2(4) == 16;
    Pow2Add(4, 4);
  }

  /** The bits of a number are those of its little-endian bytes. */
  lemma {:induction false} LittleEndianBits(n: nat, x: nat)
    ensures ByteBits(LE(n, x)) == BitsOf(x, 8 * n)
  {
    hide BitsOf, Pow2, ShiftRight;
    if n == 0 {
      NoBits(x);
    } else {
      Pow2Of8Is256();
      BitsSplit(x, 8, 8 * (n - 1));
      ShiftDivides(x, 8);
      LittleEndianBits(n - 1, x / 256);
      QuotientUnique(x % 256, 0, x % 256, 256);
      LowBits(x % 256, x, 8);
      assert LE(n, x)[1..] == LE(n - 1, x / 256);
    }
  }

  lemma NoBits(x: nat)
    ensures BitsOf(x, 0) == [] && ByteBits([]) == []
  {
  }

  lemma {:induction false} ByteBitsAppend(a: seq<Byte>, b: seq<Byte>)
    ensures ByteBits(a + b) == ByteBits(a) + ByteBits(b)
    decreases |a|
  {
    hide BitsOf;
    if a == [] {
      assert a + b == b;
    } else {
      assert (a + b)[1..] == a[1..] + b;
      ByteBitsAppend(a[1..], b);
    }
  }

  lemma {:induction false} StateBits(state: seq<Lane>)
    ensures ByteBits(StateBytes(state)) == LaneBits(state)
  {
    hide BitsOf, LE;
    if state != [] {
      LittleEndianBits(8, state[0]);
      ByteBitsAppend(LE(8, state[0]), StateBytes(state[1..]));
      StateBits(state[1..]);
    }
  }

  // ---------------------------------------------------------------- the product

  /** The matrix is the stream read word by word, row after row. */
  lemma ColumnIsWord(m: Matrix, row: nat, bit: nat)
    ensures m.Column(row, bit) == Word(m.xof, 8 * (row * (8 * m.mBytes) + bit))
  {
    hide Word;
    var r := row * m.mBytes;
    assert row * (8 * m.mBytes) == 8 * r;
    assert (r + bit / 8) * 64 + 8 * (bit % 8) == 8 * (8 * r + bit);
  }

  lemma {:induction false} DotProductIsWordSum(m: Matrix, row: nat, input: seq<Byte>, bits: nat)
    requires bits <= 8 * |input|
    ensures m.DotProduct(row, input, bits) == WordSum(m.xof, row * (8 * m.mBytes), ByteBits(input)[..bits])
    decreases bits
  {
    hide Word, ByteBits, InputBit, m.Column;
    if bits > 0 {
      DotProductIsWordSum(m, row, input, bits - 1);
      assert ByteBits(input)[..bits] == ByteBits(input)[..bits - 1] + [ByteBits(input)[bits - 1]];
      WordSumSnoc(m.xof, row * (8 * m.mBytes), ByteBits(input)[..bits - 1], ByteBits(input)[bits - 1]);
      ByteBitsAt(input, bits - 1);
      ColumnIsWord(m, row, bits - 1);
    }
  }

  /** Every row of the next chaining value, read off the stream: row after row, a word for every input bit. */
  lemma CompressIsProduct(m: Matrix, state: seq<Lane>, block: seq<Byte>, row: nat)
    requires row < m.n
    ensures m.Compress(state, block)[row]
         == WordSum(m.xof, row * (8 * m.mBytes), LaneBits(state) + ByteBits(block)) % 0x1_0000_0000_0000_0000
  {
    hide Word, ByteBits, LaneBits, WordSum, m.DotProduct;
    var input := StateBytes(state) + block;
    DotProductIsWordSum(m, row, input, 8 * |input|);
    ByteBitsAppend(StateBytes(state), block);
    StateBits(state);
    assert ByteBits(input)[..8 * |input|] == LaneBits(state) + ByteBits(block);
  }

  /** Hashing starts from zero lanes and folds the first block first; the digest is the last chaining value. */
  lemma DigestFolds(m: Matrix, message: seq<Byte>, first: seq<Byte>, more: seq<Byte>)
    requires m.Valid() && |first| == m.BlockSize() > 0 && Pad(m.BlockSize(), message) == first + more
    ensures OneShot(m, message) == StateBytes(Fold(m, m.Compress(seq(m.n, _ => 0), first), more))
  {
    hide StateBytes, Pad, m.Compress;
    var p := first + more;
    assert p[..m.BlockSize()] == first && p[m.BlockSize()..] == more;
    assert InitialState(m.n) == seq(m.n, _ => 0);
  }

  /** Sumhash512: eight rows of 1024 words from the stream seeded with 64, 8, 1024 and "Algorand". */
  lemma Sumhash512Parameters(xof: Xof)
    ensures var m := Sumhash512Matrix(xof);
            && m.n == 8 && m.mBytes == 128 && m.BlockSize() == 64
            && m.xof == xof([0x40, 0x00, 0x08, 0x00, 0x00, 0x04, 0x41, 0x6c, 0x67, 0x6f, 0x72, 0x61, 0x6e, 0x64])
  {
    hide LE;
    TwoBytes(64, 0);
    TwoBytes(8, 0);
    TwoBytes(0, 4);
    assert LE(2, 64) + LE(2, 8) + LE(2, 1024) + ALGORAND
        == [0x40, 0x00, 0x08, 0x00, 0x00, 0x04, 0x41, 0x6c, 0x67, 0x6f, 0x72, 0x61, 0x6e, 0x64];
  }

  lemma TwoBytes(low: Byte, high: Byte)
    ensures LE(2, low + 256 * high) == [low, high]
  {
    var x := low + 256 * high;
    assert x % 256 == low && x / 256 == high;
    assert LE(1, high) == [high % 256] + LE(0, high / 256);
  }
}
