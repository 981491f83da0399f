/** The streaming hasher: a reusable object that hashes whatever it is fed, in whatever pieces. */
module Sumhash {
  import opened Bytes
  import opened Hashing
  import opened SumhashCore
  import opened SumhashTable
  import opened MerkleDamgard

  class Sumhash {
    const m: Matrix
    const table: array<Lane>
    const state: array<Lane>
    const scratch: array<Lane>
    const buf: array<Byte>
    var bufPos: nat
    var totalLen: nat

    /** Everything fed since construction or the last reset. */
    ghost var input: seq<Byte>

    ghost predicate Shape()
      reads this, table, state, scratch, buf
    {
      && m.Valid() && m.BlockSize() > 0
      && TableFor(table[..], m)
      && state.Length == scratch.Length == m.n && buf.Length == m.BlockSize()
      && table != state && table != scratch && state != scratch
    }

    /** The objects the hasher writes to; the table is only read. */
    ghost function Owned(): set<object> {
      {this, state, scratch, buf}
    }

    /** The state is the fold of the first `blocks` blocks of `input[..done]`. */
    ghost predicate Folded(data: seq<Byte>)
      reads this, table, state, scratch, buf
      requires Shape()
    {
      && (exists blocks: nat :: |data| == blocks * m.BlockSize())
      && state[..] == Fold(m, InitialState(m.n), data)
    }

    /** Between calls: whole blocks are folded into the state, the rest waits in the buffer. */
    ghost predicate Valid()
      reads this, table, state, scratch, buf
    {
      && Shape()
      && bufPos < m.BlockSize() && bufPos <= |input| == totalLen < MAX_INPUT_BYTES
      && buf[..bufPos] == input[|input| - bufPos..]
      && Folded(input[..|input| - bufPos])
    }

    constructor (m: Matrix)
      requires m.Valid() && m.BlockSize() > 0
      ensures Valid() && input == [] && this.m == m && fresh(Owned()) && fresh(table)
    {
      this.m := m;
      var t := BuildTable(m);
      table := t;
      state := new Lane[m.n](_ => 0);
      scratch := new Lane[m.n](_ => 0);
      buf := new Byte[m.BlockSize()](_ => 0);
      bufPos, totalLen, input := 0, 0, [];
      new;
      EmptyFolded();
    }

    lemma EmptyFolded()
      requires Shape() && state[..] == InitialState(m.n)
      ensures Folded([])
    {
      var none: seq<Byte> := [];
      assert |none| == 0 * m.BlockSize();
    }

    /** Compresses one block, which extends the folded data by that block. */
    method CompressBlock(message: seq<Byte>, ghost data: seq<Byte>)
      requires Shape() && |message| == m.BlockSize() && Folded(data)
      modifies state, scratch
      ensures Shape() && Folded(data + message)
    {
      ghost var before := state[..];
      CompressInto(table, m, state, scratch, message);
      ghost var blocks :| |data| == blocks * m.BlockSize();
      FoldAppend(m, InitialState(m.n), data, message, blocks);
      FoldBlock(m, before, message);
      assert |data + message| == (blocks + 1) * m.BlockSize();
    }

    method Update(data: seq<Byte>)
      requires Valid() && |input| + |data| < MAX_INPUT_BYTES
      modifies Owned()
      ensures Valid() && input == old(input) + data
    {
      hide TableFor, Fold;
      totalLen := totalLen + |data|;
      ghost var done := input[..|input| - bufPos];
      ghost var all := input + data;
      assert all == done + buf[..bufPos] + data;
      var rest := data;
      if bufPos > 0 {
        rest, done := DrainBuffer(rest, done);
      }
      rest, done := CompressWholeBlocks(rest, done);
      BufferRest(rest, done);
      input := all;
      assert all == done + buf[..bufPos];
      assert all[..|all| - bufPos] == done && all[|all| - bufPos..] == buf[..bufPos];
    }

    /** Buffers leftover bytes that do not form a block. */
    method BufferRest(rest: seq<Byte>, ghost done: seq<Byte>)
      requires Shape() && Folded(done) && |rest| < m.BlockSize() && bufPos < m.BlockSize()
      requires bufPos > 0 ==> rest == []
      modifies `bufPos, buf
      ensures Shape() && Folded(done) && bufPos < m.BlockSize()
      ensures done + buf[..bufPos] == done + old(buf[..bufPos]) + rest
    {
      hide TableFor, Fold;
      if rest != [] {
        CopyIntoBuffer(0, rest);
        bufPos := |rest|;
        assert buf[..bufPos] == rest;
      }
    }

    /** Fills up a partial block before new data is touched. */
    method DrainBuffer(data: seq<Byte>, ghost done: seq<Byte>) returns (rest: seq<Byte>, ghost done': seq<Byte>)
      requires Shape() && Folded(done) && 0 < bufPos < m.BlockSize()
      modifies `bufPos, state, scratch, buf
      ensures Shape() && Folded(done') && bufPos < m.BlockSize() && (bufPos > 0 ==> rest == [])
      ensures done' + buf[..bufPos] + rest == done + old(buf[..bufPos]) + data
    {
      var blockLen := buf.Length;
      ghost var held := buf[..bufPos];
      var toCopy := if blockLen - bufPos <= |data| then blockLen - bufPos else |data|;
      CopyIntoBuffer(bufPos, data[..toCopy]);
      bufPos := bufPos + toCopy;
      rest, done' := data[toCopy..], done;
      assert buf[..bufPos] == held + data[..toCopy];
      assert held + data == buf[..bufPos] + rest;
      assert done + held + data == done + (held + data);
      if bufPos == blockLen {
        assert buf[..] == buf[..bufPos];
        done' := done + buf[..];
        CompressBlock(buf[..], done);
        bufPos := 0;
        assert buf[..bufPos] == [];
      }
    }

    /** Compresses full blocks directly from the data, bypassing the buffer. */
    method CompressWholeBlocks(data: seq<Byte>, ghost done: seq<Byte>) returns (rest: seq<Byte>, ghost done': seq<Byte>)
      requires Shape() && Folded(done) && bufPos < m.BlockSize() && (bufPos > 0 ==> data == [])
      modifies state, scratch
      ensures Shape() && Folded(done') && |rest| < m.BlockSize() && (bufPos > 0 ==> rest == [])
      ensures done' + buf[..bufPos] + rest == done + buf[..bufPos] + data
    {
      hide TableFor, Fold;
      rest, done' := data, done;
      while |rest| >= buf.Length
        invariant Shape() && Folded(done') && done' + rest == done + data
        invariant bufPos > 0 ==> rest == data == [] && done' == done
      {
        CompressBlock(rest[..buf.Length], done');
        assert done' + rest == (done' + rest[..buf.Length]) + rest[buf.Length..];
        done' := done' + rest[..buf.Length];
        rest := rest[buf.Length..];
      }
      if bufPos == 0 {
        assert buf[..bufPos] == [];
        assert done' + buf[..bufPos] + rest == done' + rest && done + buf[..bufPos] + data == done + data;
      }
    }

    /** `buf[at..at + |bytes|].copy_from_slice(bytes)` */
    method CopyIntoBuffer(at: nat, bytes: seq<Byte>)
      requires at + |bytes| <= buf.Length
      modifies buf
      ensures buf[..] == old(buf[..at]) + bytes + old(buf[at + |bytes|..])
    {
      forall i | 0 <= i < |bytes| { buf[at + i] := bytes[i]; }
    }

    method Reset()
      requires Shape()
      modifies Owned()
      ensures Valid() && input == []
    {
      forall i | 0 <= i < state.Length { state[i] := 0; }
      forall i | 0 <= i < buf.Length { buf[i] := 0; }
      bufPos, totalLen, input := 0, 0, [];
      assert state[..] == InitialState(m.n);
      EmptyFolded();
    }

    /** Zeroes `buf[lo..hi]`. */
    method ZeroFill(lo: nat, hi: nat)
      requires lo <= hi <= buf.Length
      modifies buf
      ensures buf[..] == old(buf[..lo]) + Zeros(hi - lo) + old(buf[hi..])
    {
      forall i | lo <= i < hi { buf[i] := 0; }
    }

    /** Pads, compresses the last block or two, and serializes the state. The object then needs a reset. */
    method Finalize() returns (out: seq<Byte>)
      requires Valid() && m.BlockSize() >= LENGTH_FIELD
      modifies Owned()
      ensures Shape() && out == OneShot(m, old(input))
    {
      hide TableFor, Fold, LE, StateBytes, PadZeros, LengthField;
      var blockLen := buf.Length;
      var lengthAt := blockLen - LENGTH_FIELD;
      ghost var start, tail := input[..|input| - bufPos], buf[..bufPos];
      assert input == start + tail;
      ghost var done := PadBuffer(start);
      ghost var area := buf[..lengthAt];
      WriteLength(lengthAt);
      PaddedInput(blockLen, start, tail, done, area);
      CompressBlock(buf[..], done);
      out := Serialize();
    }

    static lemma PaddedInput(bl: nat, start: seq<Byte>, tail: seq<Byte>, done: seq<Byte>, area: seq<Byte>)
      requires bl > 0 && done + area == start + tail + [1] + Zeros(PadZeros(bl, |start| + |tail|))
      ensures done + (area + LengthField(|start| + |tail|)) == Pad(bl, start + tail)
    {
      hide PadZeros, LengthField;
      var field := LengthField(|start| + |tail|);
      assert done + (area + field) == (done + area) + field;
    }

    /** Writes the length in bits; the input cap keeps it below 2^64. */
    method WriteLength(at: nat)
      requires totalLen < MAX_INPUT_BYTES && at + LENGTH_FIELD == buf.Length
      modifies buf
      ensures buf[..] == old(buf[..at]) + LengthField(totalLen)
    {
      hide LE;
      var bitLen := (totalLen * 8) % TWO_64;
      CopyIntoBuffer(at, LE(8, bitLen));
      CopyIntoBuffer(at + 8, LE(8, 0));
    }

    /** Appends the sentinel and the zeros before the length field, compressing an overflow block if needed. */
    method PadBuffer(ghost done: seq<Byte>) returns (ghost done': seq<Byte>)
      requires Shape() && Folded(done) && bufPos < m.BlockSize() && m.BlockSize() >= LENGTH_FIELD
      modifies state, scratch, buf
      ensures Shape() && Folded(done')
      ensures done' + buf[..m.BlockSize() - LENGTH_FIELD]
           == done + old(buf[..bufPos]) + [1] + Zeros(PadZeros(m.BlockSize(), |done| + bufPos))
    {
      hide Folded, TableFor, PadZeros, Zeros;
      if bufPos < buf.Length - LENGTH_FIELD {
        PadWithin(done);
        done' := done;
      } else {
        done' := PadAcross(done);
      }
    }

    /** The branch in which sentinel and length field fit into the current block. */
    method PadWithin(ghost done: seq<Byte>)
      requires Shape() && Folded(done) && bufPos + LENGTH_FIELD < m.BlockSize()
      modifies buf
      ensures Shape() && Folded(done)
      ensures done + buf[..m.BlockSize() - LENGTH_FIELD]
           == done + old(buf[..bufPos]) + [1] + Zeros(PadZeros(m.BlockSize(), |done| + bufPos))
    {
      hide TableFor, Fold, PadZeros, Zeros;
      ghost var blocks :| |done| == blocks * buf.Length;
      PadFits(buf.Length, bufPos, blocks);
      Regroup(done, buf[..bufPos], Zeros(buf.Length - LENGTH_FIELD - bufPos - 1));
      FillBlock(buf.Length - LENGTH_FIELD);
    }

    /** The branch in which the length field needs a block of its own. */
    method PadAcross(ghost done: seq<Byte>) returns (ghost done': seq<Byte>)
      requires Shape() && Folded(done) && bufPos < m.BlockSize() <= bufPos + LENGTH_FIELD <= bufPos + m.BlockSize()
      modifies state, scratch, buf
      ensures Shape() && Folded(done')
      ensures done' + buf[..m.BlockSize() - LENGTH_FIELD]
           == done + old(buf[..bufPos]) + [1] + Zeros(PadZeros(m.BlockSize(), |done| + bufPos))
    {
      hide TableFor, Fold, PadZeros, Zeros;
      var lengthAt := buf.Length - LENGTH_FIELD;
      ghost var blocks :| |done| == blocks * buf.Length;
      PadOverflows(buf.Length, bufPos, blocks);
      AssembleOverflow(done, buf[..bufPos], buf.Length - bufPos - 1, lengthAt);
      FillBlock(buf.Length);
      done' := FlushOverflow(lengthAt, done);
    }

    /** Puts the sentinel behind the buffered bytes and zeros up to `hi`. */
    method FillBlock(hi: nat)
      requires bufPos < hi <= buf.Length
      modifies buf
      ensures buf[..hi] == old(buf[..bufPos]) + [1] + Zeros(hi - bufPos - 1)
    {
      buf[bufPos] := 1;
      ZeroFill(bufPos + 1, hi);
      assert buf[..bufPos + 1] == old(buf[..bufPos]) + [1];
    }

    static lemma Regroup(done: seq<Byte>, tail: seq<Byte>, zeros: seq<Byte>)
      ensures done + (tail + [1] + zeros) == done + tail + [1] + zeros
    {
    }

    static lemma AssembleOverflow(done: seq<Byte>, tail: seq<Byte>, a: nat, b: nat)
      ensures done + (tail + [1] + Zeros(a)) + Zeros(b) == done + tail + [1] + Zeros(a + b)
    {
      assert Zeros(a) + Zeros(b) == Zeros(a + b);
    }

    /** The branch in which the length field no longer fits into the current block: a block more. */
    method FlushOverflow(lengthAt: nat, ghost done: seq<Byte>) returns (ghost done': seq<Byte>)
      requires Shape() && Folded(done) && lengthAt <= m.BlockSize()
      modifies state, scratch, buf
      ensures Shape() && Folded(done')
      ensures done' == done + old(buf[..]) && buf[..lengthAt] == Zeros(lengthAt)
    {
      hide TableFor, Fold;
      done' := done + buf[..];
      CompressBlock(buf[..], done);
      ZeroFill(0, lengthAt);
      assert buf[..lengthAt] == Zeros(lengthAt);
    }

    /** Writes the lanes of the state as little-endian words. */
    method Serialize() returns (out: seq<Byte>)
      ensures out == StateBytes(state[..])
    {
      out := [];
      var i := 0;
      while i < state.Length
        invariant 0 <= i <= state.Length && out == StateBytes(state[..i])
      {
        StateBytesSnoc(state[..i], state[i]);
        assert state[..i + 1] == state[..i] + [state[i]];
        out := out + LE(8, state[i]);
        i := i + 1;
      }
      assert state[..i] == state[..];
    }

    /** `MerkleHasher::finalize_reset` */
    method FinalizeReset() returns (out: seq<Byte>)
      requires Valid() && m.BlockSize() >= LENGTH_FIELD
      modifies Owned()
      ensures Valid() && input == [] && out == OneShot(m, old(input))
    {
      out := Finalize();
      Reset();
    }

    /** Feeds the pieces of one object in order. */
    method UpdateAll(parts: seq<seq<Byte>>)
      requires Valid() && |input| + |Flatten(parts)| < MAX_INPUT_BYTES
      modifies Owned()
      ensures Valid() && input == old(input) + Flatten(parts)
    {
      hide TableFor, Fold, Shape;
      ghost var all := input + Flatten(parts);
      var i := 0;
      while i < |parts|
        invariant 0 <= i <= |parts| && Valid() && input + Flatten(parts[i..]) == all
      {
        FlattenStep(input, parts, i);
        Update(parts[i]);
        i := i + 1;
      }
      assert all == input + [];
    }

    lemma FlattenStep(fed: seq<Byte>, parts: seq<seq<Byte>>, i: nat)
      requires i < |parts|
      ensures fed + Flatten(parts[i..]) == (fed + parts[i]) + Flatten(parts[i + 1..])
    {
      assert parts[i..][1..] == parts[i + 1..];
    }

    /** `hash_obj`: hashes one object and leaves the hasher ready for the next. */
    method HashObj(parts: seq<seq<Byte>>) returns (out: seq<Byte>)
      requires Valid() && m.BlockSize() >= LENGTH_FIELD && input == []
      requires |Flatten(parts)| < MAX_INPUT_BYTES
      modifies Owned()
      ensures Valid() && input == [] && out == OneShot(m, Flatten(parts))
    {
      hide TableFor, Fold, Shape;
      UpdateAll(parts);
      assert input == Flatten(parts);
      out := FinalizeReset();
    }
  }

  // ---------------------------------------------------------------- Sumhash512

  /** An extendable-output function: every seed opens an infinite byte stream. */
  type Xof = seq<Byte> -> (nat -> Byte)

  const ALGORAND: seq<Byte> := [0x41, 0x6c, 0x67, 0x6f, 0x72, 0x61, 0x6e, 0x64]

  /** The matrix of `n` lanes and `m` input bits derived from a seed. */
  function MatrixFromSeed(xof: Xof, n: nat, m: nat, seed: seq<Byte>): Matrix {
    Matrix(xof(LE(2, 64) + LE(2, n) + LE(2, m) + seed), n, m / 8)
  }

  function Sumhash512Matrix(xof: Xof): (m: Matrix)
    ensures m.Valid() && m.n == 8 && m.BlockSize() == 64
  {
    MatrixFromSeed(xof, 8, 1024, ALGORAND)
  }

  /** Sumhash512 as a Merkle hasher. */
  function Sumhash512(xof: Xof): HashFn {
    HashFn(64, message => OneShot(Sumhash512Matrix(xof), message))
  }

  /** `Sumhash512::digest` */
  method Digest512(xof: Xof, data: seq<Byte>) returns (out: seq<Byte>)
    requires |data| < MAX_INPUT_BYTES
    ensures out == Sumhash512(xof).digest(data)
  {
    var h := new Sumhash(Sumhash512Matrix(xof));
    h.Update(data);
    assert h.input == data;
    out := h.Finalize();
  }

  lemma OneShotLength(m: Matrix, message: seq<Byte>)
    requires m.Valid() && m.BlockSize() > 0
    ensures |OneShot(m, message)| == LANE_BYTES * m.n
  {
    FoldLength(m, InitialState(m.n), Pad(m.BlockSize(), message));
  }

  /** Digests are 64 bytes, whatever the message. */
  lemma Sumhash512Valid(xof: Xof)
    ensures Sumhash512(xof).Valid()
  {
    forall message
      ensures |Sumhash512(xof).digest(message)| == 64
    {
      OneShotLength(Sumhash512Matrix(xof), message);
    }
  }

  /**
   Wherever a theorem about Sumhash512 trees ends in a collision between hashed inputs below the input
   cap, the compression function itself collides on links of their chains.
   */
  lemma CollisionReachesCompression(xof: Xof, A: set<seq<Byte>>, B: set<seq<Byte>>) returns (a: seq<Byte>, b: seq<Byte>)
    requires Sumhash512(xof).CollisionBetween(A, B)
    requires forall x :: x in A || x in B ==> |x| < MAX_INPUT_BYTES
    ensures a in A && b in B && Sumhash512(xof).Collide(a, b)
    ensures ChainsCollide(Sumhash512Matrix(xof), MessageChain(Sumhash512Matrix(xof), a),
                          MessageChain(Sumhash512Matrix(xof), b))
  {
    a, b :| a in A && b in B && Sumhash512(xof).Collide(a, b);
    CollisionReduction(Sumhash512Matrix(xof), a, b);
  }
}
