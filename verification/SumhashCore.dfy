/**
 The compression function of sumhash: a subset-sum product with a matrix read from an extendable-output
 stream, and the byte-indexed lookup table that stands in for it.
 */
module SumhashCore {
  import opened Bytes
  import opened Bits

  const LANE_BYTES: nat := 8
  const BYTE_VALUES: nat := 256

  type Lane = U64

  // ---------------------------------------------------------------- the matrix, read off the stream

  /**
   An `n` by `8 * mBytes` matrix of 64-bit words. `xof` is the infinite output stream of the seeded
   extendable-output function; the words are stored row by row, least significant byte first.
   */
  datatype Matrix = Matrix(xof: nat -> Byte, n: nat, mBytes: nat) {
    /** What `SumhashCore::new` checks of its parameters. */
    ghost predicate Valid() {
      n > 0 && mBytes >= LANE_BYTES * n
    }

    function BlockSize(): nat
      requires Valid()
    {
      mBytes - LANE_BYTES * n
    }

    /** The column weight of row `row` for input bit `bit`. */
    function Column(row: nat, bit: nat): Lane {
      Word(xof, (row * mBytes + bit / 8) * 64 + 8 * (bit % 8))
    }

    /** Row `row` of the product with the first `bits` bits of the input: the sum over its set bits. */
    function DotProduct(row: nat, input: seq<Byte>, bits: nat): nat
      requires bits <= 8 * |input|
    {
      if bits == 0 then 0
      else DotProduct(row, input, bits - 1) + if InputBit(input, bits - 1) == 1 then Column(row, bits - 1) else 0
    }

    /** The next chaining value: every row of the product with `state || block`, modulo 2^64. */
    function Compress(state: seq<Lane>, block: seq<Byte>): (next: seq<Lane>)
      ensures |next| == n
    {
      var input := StateBytes(state) + block;
      seq(n, row requires 0 <= row < n => DotProduct(row, input, 8 * |input|) % TWO_64)
    }
  }

  /** Bit `bit` of a byte string, least significant bit of the first byte first. */
  function InputBit(input: seq<Byte>, bit: nat): nat
    requires bit < 8 * |input|
  {
    Bit(input[bit / 8], bit % 8)
  }

  function Bit(b: nat, i: nat): (r: nat)
    ensures r < 2
  {
    (b / Pow2(i)) % 2
  }

  function Slice(xof: nat -> Byte, from: nat, n: nat): (s: seq<Byte>)
    ensures |s| == n
  {
    seq(n, i requires 0 <= i < n => xof(from + i))
  }

  /** The little-endian 64-bit word at stream position `at`. */
  function Word(xof: nat -> Byte, at: nat): Lane {
    Pow256Values();
    FromLE(Slice(xof, at, 8))
  }

  /** A chaining value as bytes, lane by lane, little-endian. */
  function StateBytes(state: seq<Lane>): (s: seq<Byte>)
    ensures |s| == LANE_BYTES * |state|
  {
    if state == [] then [] else LE(8, state[0]) + StateBytes(state[1..])
  }

  lemma {:induction false} StateBytesAt(state: seq<Lane>, lane: nat, i: nat)
    requires lane < |state| && i < 8
    ensures StateBytes(state)[8 * lane + i] == LE(8, state[lane])[i]
  {
    if lane > 0 { StateBytesAt(state[1..], lane - 1, i); }
  }

  lemma {:induction false} StateBytesSnoc(state: seq<Lane>, lane: Lane)
    ensures StateBytes(state + [lane]) == StateBytes(state) + LE(8, lane)
  {
    if state == [] {
      assert ([] + [lane])[1..] == [];
    } else {
      assert (state + [lane])[1..] == state[1..] + [lane];
      StateBytesSnoc(state[1..], lane);
    }
  }

  lemma {:induction false} StateBytesInjective(s: seq<Lane>, t: seq<Lane>)
    requires |s| == |t| && StateBytes(s) == StateBytes(t)
    ensures s == t
  {
    if s != [] {
      ConcatInjective(LE(8, s[0]), StateBytes(s[1..]), LE(8, t[0]), StateBytes(t[1..]));
      Pow256Values();
      LEInjective(8, s[0], t[0]);
      StateBytesInjective(s[1..], t[1..]);
      assert s == [s[0]] + s[1..] && t == [t[0]] + t[1..];
    }
  }

  // ---------------------------------------------------------------- subset sums of one byte

  /** The sum of the columns selected by the set bits of `b`. */
  function SubsetSum(cols: seq<Lane>, b: nat): nat {
    if cols == [] then 0 else (if b % 2 == 1 then cols[0] else 0) + SubsetSum(cols[1..], b / 2)
  }

  lemma {:induction false} SubsetSumSnoc(cols: seq<Lane>, col: Lane, b: nat)
    ensures SubsetSum(cols + [col], b)
         == SubsetSum(cols, b) + if Bit(b, |cols|) == 1 then col else 0
  {
    if cols == [] {
      assert ([] + [col])[1..] == [];
    } else {
      assert (cols + [col])[1..] == cols[1..] + [col];
      SubsetSumSnoc(cols[1..], col, b / 2);
      DivideTwice(b, |cols| - 1);
    }
  }

  lemma DivideTwice(b: nat, k: nat)
    ensures (b / 2) / Pow2(k) == b / Pow2(k + 1)
  {
    var p := Pow2(k);
    var q, r := (b / 2) / p, (b / 2) % p;
    assert b == q * (2 * p) + (2 * r + b % 2) by { assert 2 * (q * p) == q * (2 * p); }
    QuotientUnique(b, q, 2 * r + b % 2, 2 * p);
  }

  /** Bitwise conjunction of the `w` low bits. */
  function And(w: nat, x: nat, y: nat): nat {
    if w == 0 then 0 else (if x % 2 == 1 && y % 2 == 1 then 1 else 0) + 2 * And(w - 1, x / 2, y / 2)
  }

  /** `0u64.wrapping_neg()` is zero and `1u64.wrapping_neg()` has every bit set. */
  function WrappingNeg(x: Lane): Lane {
    (TWO_64 - x) % TWO_64
  }

  lemma {:induction false} AndAllOnes(w: nat, x: nat)
    requires x < Pow2(w)
    ensures And(w, x, Pow2(w) - 1) == x && And(w, x, 0) == 0
  {
    if w > 0 { AndAllOnes(w - 1, x / 2); }
  }

  lemma Pow2Of8()
    ensures Pow2(8) == 256
  {
  }

  lemma Pow2Of64()
    ensures Pow2(64) == TWO_64
  {
    hide Pow2;
    Pow2Of8();
    Pow2Add(8, 8);
    Pow2Add(16, 16);
    Pow2Add(32, 32);
  }

  /** A mask of one repeated bit selects all of a word or nothing. */
  lemma MaskSelects(col: Lane, bit: nat)
    requires bit < 2
    ensures And(64, col, WrappingNeg(bit)) == if bit == 1 then col else 0
  {
    Pow2Of64();
    AndAllOnes(64, col);
  }

  lemma AddModulo(a: nat, b: nat, m: nat)
    requires m > 0
    ensures (a % m + b) % m == (a + b) % m
  {
    var q, r := (a % m + b) / m, (a % m + b) % m;
    assert a + b == (a / m) * m + q * m + r;
    assert a + b == (a / m + q) * m + r;
    QuotientUnique(a + b, a / m + q, r, m);
  }

  method ComputeSubsetSum(cols: seq<Lane>, b: Byte) returns (sum: Lane)
    requires |cols| == 8
    ensures sum == SubsetSum(cols, b) % TWO_64
  {
    sum := 0;
    var i := 0;
    while i < |cols|
      invariant 0 <= i <= |cols| && sum == SubsetSum(cols[..i], b) % TWO_64
    {
      var selected := And(64, cols[i], WrappingNeg(Bit(b, i)));
      SubsetSumStep(cols, b, i);
      AddModulo(SubsetSum(cols[..i], b), selected, TWO_64);
      sum := (sum + selected) % TWO_64;
      i := i + 1;
    }
    assert cols[..i] == cols;
  }

  lemma SubsetSumStep(cols: seq<Lane>, b: Byte, i: nat)
    requires i < |cols|
    ensures SubsetSum(cols[..i + 1], b) == SubsetSum(cols[..i], b) + And(64, cols[i], WrappingNeg(Bit(b, i)))
  {
    assert cols[..i + 1] == cols[..i] + [cols[i]];
    SubsetSumSnoc(cols[..i], cols[i], b);
    MaskSelects(cols[i], Bit(b, i));
  }

  // ---------------------------------------------------------------- bytes of the input against its bits

  /** The eight columns of input byte `pos` in row `row`. */
  function ByteColumns(m: Matrix, row: nat, pos: nat): (cols: seq<Lane>)
    ensures |cols| == 8
  {
    seq<Lane>(8, i requires 0 <= i < 8 => m.Column(row, 8 * pos + i))
  }

  /** One more bit adds its column if it is set. */
  lemma DotProductBit(m: Matrix, row: nat, input: seq<Byte>, pos: nat, i: nat)
    requires pos < |input| && i < 8
    ensures m.DotProduct(row, input, 8 * pos + i + 1)
         == m.DotProduct(row, input, 8 * pos + i) + if Bit(input[pos], i) == 1 then m.Column(row, 8 * pos + i) else 0
  {
    hide Bit, Word;
    assert (8 * pos + i) / 8 == pos && (8 * pos + i) % 8 == i;
  }

  /** One byte at a time or one bit at a time, the product is the same. */
  lemma {:induction false} DotProductByte(m: Matrix, row: nat, input: seq<Byte>, pos: nat, k: nat)
    requires pos < |input| && k <= 8
    ensures m.DotProduct(row, input, 8 * pos + k)
         == m.DotProduct(row, input, 8 * pos) + SubsetSum(ByteColumns(m, row, pos)[..k], input[pos])
    decreases k
  {
    hide Bit, Word, m.DotProduct, m.Column;
    if k > 0 {
      hide SubsetSum;
      var cols := ByteColumns(m, row, pos);
      DotProductByte(m, row, input, pos, k - 1);
      assert cols[..k] == cols[..k - 1] + [cols[k - 1]];
      SubsetSumSnoc(cols[..k - 1], cols[k - 1], input[pos]);
      DotProductBit(m, row, input, pos, k - 1);
    }
  }

  lemma DotProductWholeByte(m: Matrix, row: nat, input: seq<Byte>, pos: nat)
    requires pos < |input|
    ensures m.DotProduct(row, input, 8 * (pos + 1))
         == m.DotProduct(row, input, 8 * pos) + SubsetSum(ByteColumns(m, row, pos), input[pos])
  {
    hide m.DotProduct, SubsetSum;
    DotProductByte(m, row, input, pos, 8);
    assert ByteColumns(m, row, pos)[..8] == ByteColumns(m, row, pos);
  }
}
