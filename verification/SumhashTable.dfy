/** The precomputed table: filled once from the stream, then indexed by position, byte value and row. */
module SumhashTable {
  import opened Bytes
  import opened Bits
  import opened SumhashCore

  /** Where the entry for input byte `pos`, byte value `val` and row `row` lives in the flat table. */
  function Index(n: nat, pos: nat, val: nat, row: nat): nat {
    pos * BYTE_VALUES * n + val * n + row
  }

  lemma IndexNested(n: nat, pos: nat, val: nat, row: nat)
    ensures Index(n, pos, val, row) == (pos * BYTE_VALUES + val) * n + row
  {
  }

  lemma IndexInRange(n: nat, mBytes: nat, pos: nat, val: nat, row: nat)
    requires pos < mBytes && val < BYTE_VALUES && row < n
    ensures Index(n, pos, val, row) < mBytes * BYTE_VALUES * n
  {
    IndexNested(n, pos, val, row);
    MulStrict(pos * BYTE_VALUES + val, mBytes * BYTE_VALUES, n);
  }

  /** Different (position, value, row) triples never share an entry. */
  lemma IndexInjective(n: nat, pos: nat, val: nat, row: nat, pos': nat, val': nat, row': nat)
    requires val < BYTE_VALUES && val' < BYTE_VALUES && row < n && row' < n
    requires Index(n, pos, val, row) == Index(n, pos', val', row')
    ensures pos == pos' && val == val' && row == row'
  {
    IndexNested(n, pos, val, row);
    IndexNested(n, pos', val', row');
    QuotientUnique(Index(n, pos, val, row), pos * BYTE_VALUES + val, row, n);
    QuotientUnique(Index(n, pos, val, row), pos' * BYTE_VALUES + val', row', n);
  }

  /** The value a table entry must have. */
  function EntryFor(m: Matrix, pos: nat, val: nat, row: nat): nat {
    SubsetSum(ByteColumns(m, row, pos), val) % TWO_64
  }

  /** The entries of all rows before `row`, and of `row` before position `pos`, are in place. */
  ghost predicate Filled(table: seq<Lane>, m: Matrix, row: nat, pos: nat) {
    && |table| == m.mBytes * BYTE_VALUES * m.n
    && forall p: nat, v: nat, r: nat ::
         p < m.mBytes && v < BYTE_VALUES && r < m.n && (r < row || (r == row && p < pos)) ==>
           Index(m.n, p, v, r) < |table| && table[Index(m.n, p, v, r)] == EntryFor(m, p, v, r)
  }

  ghost predicate TableFor(table: seq<Lane>, m: Matrix) {
    Filled(table, m, m.n, 0)
  }

  /** Eight little-endian words from 64 bytes of the stream. */
  function UnpackCols(bytes: seq<Byte>): (cols: seq<Lane>)
    requires |bytes| == 64
    ensures |cols| == 8
  {
    Pow256Values();
    seq<Lane>(8, i requires 0 <= i < 8 => FromLE(bytes[8 * i..8 * i + 8]))
  }

  /** The 64 bytes read for `(row, pos)` in row-outer, position-inner order are that byte's columns. */
  lemma UnpackIsByteColumns(m: Matrix, row: nat, pos: nat)
    requires pos < m.mBytes
    ensures UnpackCols(Slice(m.xof, (row * m.mBytes + pos) * 64, 64)) == ByteColumns(m, row, pos)
  {
    var at := (row * m.mBytes + pos) * 64;
    var cols := UnpackCols(Slice(m.xof, at, 64));
    forall i | 0 <= i < 8
      ensures cols[i] == ByteColumns(m, row, pos)[i]
    {
      ColumnAt(m, row, pos, i);
      assert Slice(m.xof, at, 64)[8 * i..8 * i + 8] == Slice(m.xof, at + 8 * i, 8);
    }
  }

  lemma ColumnAt(m: Matrix, row: nat, pos: nat, i: nat)
    requires i < 8
    ensures m.Column(row, 8 * pos + i) == Word(m.xof, (row * m.mBytes + pos) * 64 + 8 * i)
  {
    assert (8 * pos + i) / 8 == pos && (8 * pos + i) % 8 == i;
  }

  /** Writes the 256 sums of one input byte in one row; every other entry is left alone. */
  method FillByte(table: array<Lane>, m: Matrix, row: nat, pos: nat, cols: seq<Lane>)
    requires m.Valid() && row < m.n && pos < m.mBytes && cols == ByteColumns(m, row, pos)
    requires Filled(table[..], m, row, pos)
    modifies table
    ensures Filled(table[..], m, row, pos + 1)
  {
    ghost var before := table[..];
    PartlyFilledInit(before, m, row, pos);
    var val := 0;
    while val < BYTE_VALUES
      invariant 0 <= val <= BYTE_VALUES
      invariant PartlyFilled(table[..], before, m, row, pos, val)
    {
      var sum := ComputeSubsetSum(cols, val);
      IndexInRange(m.n, m.mBytes, pos, val, row);
      PartlyFilledStep(table[..], before, m, row, pos, val, sum);
      Store(table, Index(m.n, pos, val, row), sum);
      val := val + 1;
    }
    PartlyFilledDone(table[..], before, m, row, pos);
  }

  method Store(table: array<Lane>, i: nat, x: Lane)
    requires i < table.Length
    modifies table
    ensures table[..] == old(table[..])[i := x]
  {
    table[i] := x;
  }

  lemma PartlyFilledInit(before: seq<Lane>, m: Matrix, row: nat, pos: nat)
    requires |before| == m.mBytes * BYTE_VALUES * m.n
    ensures PartlyFilled(before, before, m, row, pos, 0)
  {
    forall p: nat, v: nat, r: nat | p < m.mBytes && v < BYTE_VALUES && r < m.n
      ensures Index(m.n, p, v, r) < |before|
    {
      IndexInRange(m.n, m.mBytes, p, v, r);
    }
  }

  ghost predicate PartlyFilled(table: seq<Lane>, before: seq<Lane>, m: Matrix, row: nat, pos: nat, val: nat) {
    && |table| == |before| == m.mBytes * BYTE_VALUES * m.n
    && forall p: nat, v: nat, r: nat :: p < m.mBytes && v < BYTE_VALUES && r < m.n ==>
         && Index(m.n, p, v, r) < |table|
         && table[Index(m.n, p, v, r)]
         == if r == row && p == pos && v < val then EntryFor(m, p, v, r) else before[Index(m.n, p, v, r)]
  }

  lemma PartlyFilledStep(table: seq<Lane>, before: seq<Lane>, m: Matrix, row: nat, pos: nat, val: nat, sum: Lane)
    requires PartlyFilled(table, before, m, row, pos, val) && m.Valid()
    requires row < m.n && pos < m.mBytes && val < BYTE_VALUES && sum == EntryFor(m, pos, val, row)
    requires Index(m.n, pos, val, row) < |table|
    ensures PartlyFilled(table[Index(m.n, pos, val, row) := sum], before, m, row, pos, val + 1)
  {
    var table' := table[Index(m.n, pos, val, row) := sum];
    forall p: nat, v: nat, r: nat | p < m.mBytes && v < BYTE_VALUES && r < m.n
      ensures Index(m.n, p, v, r) < |table'|
      ensures table'[Index(m.n, p, v, r)]
           == if r == row && p == pos && v < val + 1 then EntryFor(m, p, v, r) else before[Index(m.n, p, v, r)]
    {
      if Index(m.n, p, v, r) == Index(m.n, pos, val, row) {
        IndexInjective(m.n, p, v, r, pos, val, row);
      }
    }
  }

  lemma PartlyFilledDone(table: seq<Lane>, before: seq<Lane>, m: Matrix, row: nat, pos: nat)
    requires PartlyFilled(table, before, m, row, pos, BYTE_VALUES) && Filled(before, m, row, pos)
    ensures Filled(table, m, row, pos + 1)
  {
  }

  /** Reads the matrix from the stream once, row by row, and tabulates all byte sums. */
  method BuildTable(m: Matrix) returns (table: array<Lane>)
    requires m.Valid()
    ensures fresh(table) && TableFor(table[..], m)
  {
    table := new Lane[m.mBytes * BYTE_VALUES * m.n](_ => 0);
    var read := 0;
    var row := 0;
    while row < m.n
      invariant 0 <= row <= m.n && fresh(table) && read == row * m.mBytes * 64
      invariant Filled(table[..], m, row, 0)
    {
      read := BuildRow(table, m, row, read);
      row := row + 1;
    }
  }

  method BuildRow(table: array<Lane>, m: Matrix, row: nat, start: nat) returns (read: nat)
    requires m.Valid() && row < m.n && start == row * m.mBytes * 64 && Filled(table[..], m, row, 0)
    modifies table
    ensures read == (row + 1) * m.mBytes * 64 && Filled(table[..], m, row + 1, 0)
  {
    read := start;
    var pos := 0;
    while pos < m.mBytes
      invariant 0 <= pos <= m.mBytes && read == (row * m.mBytes + pos) * 64
      invariant Filled(table[..], m, row, pos)
    {
      var bytes := Slice(m.xof, read, 64);
      read := read + 64;
      UnpackIsByteColumns(m, row, pos);
      FillByte(table, m, row, pos, UnpackCols(bytes));
      pos := pos + 1;
    }
    RowDone(table[..], m, row);
  }

  lemma RowDone(table: seq<Lane>, m: Matrix, row: nat)
    requires Filled(table, m, row, m.mBytes)
    ensures Filled(table, m, row + 1, 0)
  {
  }

  // ---------------------------------------------------------------- compression by table lookup

  /** Accumulating one table entry per row advances every row's product by one input byte. */
  ghost predicate Accumulated(out: seq<Lane>, m: Matrix, input: seq<Byte>, pos: nat) {
    && |out| == m.n && pos <= |input|
    && forall row :: 0 <= row < m.n ==> out[row] == m.DotProduct(row, input, 8 * pos) % TWO_64
  }

  method AddEntries(table: array<Lane>, out: array<Lane>, m: Matrix, pos: nat, b: Byte, ghost input: seq<Byte>)
    requires TableFor(table[..], m) && table != out && pos < m.mBytes && pos < |input| && input[pos] == b
    requires Accumulated(out[..], m, input, pos)
    modifies out
    ensures Accumulated(out[..], m, input, pos + 1)
  {
    ghost var before := out[..];
    var row := 0;
    while row < m.n
      invariant 0 <= row <= m.n
      invariant out[row..] == before[row..]
      invariant forall r :: 0 <= r < row ==> out[r] == m.DotProduct(r, input, 8 * (pos + 1)) % TWO_64
    {
      IndexInRange(m.n, m.mBytes, pos, b, row);
      var entry := table[Index(m.n, pos, b, row)];
      assert out[row] == before[row];
      EntryAdvances(table[..], m, input, pos, row);
      out[row] := (out[row] + entry) % TWO_64;
      row := row + 1;
    }
  }

  lemma EntryAdvances(table: seq<Lane>, m: Matrix, input: seq<Byte>, pos: nat, row: nat)
    requires TableFor(table, m) && pos < m.mBytes && pos < |input| && row < m.n
    requires Index(m.n, pos, input[pos], row) < |table|
    ensures (m.DotProduct(row, input, 8 * pos) % TWO_64 + table[Index(m.n, pos, input[pos], row)]) % TWO_64
         == m.DotProduct(row, input, 8 * (pos + 1)) % TWO_64
  {
    var a, b := m.DotProduct(row, input, 8 * pos), SubsetSum(ByteColumns(m, row, pos), input[pos]);
    DotProductWholeByte(m, row, input, pos);
    assert table[Index(m.n, pos, input[pos], row)] == b % TWO_64;
    AddModulo(a, b % TWO_64, TWO_64);
    AddModulo(b, a, TWO_64);
  }

  /** One compression: state bytes first, then message bytes; the result replaces the state. */
  method CompressInto(table: array<Lane>, m: Matrix, state: array<Lane>, out: array<Lane>, message: seq<Byte>)
    requires m.Valid() && TableFor(table[..], m) && state.Length == out.Length == m.n
    requires table != out && table != state && state != out
    requires |message| == m.BlockSize()
    modifies state, out
    ensures state[..] == m.Compress(old(state[..]), message)
  {
    hide TableFor, StateBytes, Accumulated, m.Compress;
    ghost var before := state[..];
    ghost var input := StateBytes(before) + message;
    assert StateBytes(before) <= input;
    forall i | 0 <= i < out.Length { out[i] := 0; }
    assert state[..] == before && table[..] == old(table[..]);
    NothingAccumulated(out[..], m, input);
    AddState(table, m, state, out, input);
    AddMessage(table, m, out, message, input);
    AllAccumulated(out[..], m, before, message);
    ghost var next := out[..];
    forall i | 0 <= i < state.Length { state[i] := out[i]; }
    assert state[..] == next;
  }

  lemma NothingAccumulated(out: seq<Lane>, m: Matrix, input: seq<Byte>)
    requires |out| == m.n && forall i :: 0 <= i < |out| ==> out[i] == 0
    ensures Accumulated(out, m, input, 0)
  {
  }

  lemma AllAccumulated(out: seq<Lane>, m: Matrix, state: seq<Lane>, message: seq<Byte>)
    requires var input := StateBytes(state) + message; Accumulated(out, m, input, |input|)
    ensures out == m.Compress(state, message)
  {
    hide StateBytes;
  }

  method AddMessage(table: array<Lane>, m: Matrix, out: array<Lane>, message: seq<Byte>, ghost input: seq<Byte>)
    requires m.Valid() && TableFor(table[..], m) && out.Length == m.n && table != out
    requires |message| == m.BlockSize() && |input| == m.mBytes && input[LANE_BYTES * m.n..] == message
    requires Accumulated(out[..], m, input, LANE_BYTES * m.n)
    modifies out
    ensures Accumulated(out[..], m, input, |input|)
  {
    hide TableFor, Accumulated;
    var i := 0;
    while i < |message|
      invariant 0 <= i <= |message| && table[..] == old(table[..])
      invariant Accumulated(out[..], m, input, LANE_BYTES * m.n + i)
    {
      AddEntries(table, out, m, LANE_BYTES * m.n + i, message[i], input);
      i := i + 1;
    }
  }

  method AddState(table: array<Lane>, m: Matrix, state: array<Lane>, out: array<Lane>, ghost input: seq<Byte>)
    requires m.Valid() && TableFor(table[..], m) && state.Length == out.Length == m.n
    requires table != out && state != out
    requires StateBytes(state[..]) <= input && Accumulated(out[..], m, input, 0)
    modifies out
    ensures Accumulated(out[..], m, input, LANE_BYTES * m.n)
  {
    hide TableFor, Accumulated, StateBytes;
    var lane := 0;
    while lane < m.n
      invariant 0 <= lane <= m.n && table[..] == old(table[..]) && state[..] == old(state[..])
      invariant Accumulated(out[..], m, input, LANE_BYTES * lane)
    {
      AddLane(table, m, state, out, lane, input);
      lane := lane + 1;
    }
  }

  method AddLane(table: array<Lane>, m: Matrix, state: array<Lane>, out: array<Lane>, lane: nat, ghost input: seq<Byte>)
    requires m.Valid() && TableFor(table[..], m) && state.Length == out.Length == m.n && lane < m.n
    requires table != out && state != out
    requires StateBytes(state[..]) <= input && Accumulated(out[..], m, input, LANE_BYTES * lane)
    modifies out
    ensures Accumulated(out[..], m, input, LANE_BYTES * (lane + 1))
  {
    hide TableFor, Accumulated, StateBytes, LE;
    var bytes := LE(LANE_BYTES, state[lane]);
    var i := 0;
    while i < LANE_BYTES
      invariant 0 <= i <= LANE_BYTES && table[..] == old(table[..]) && state[..] == old(state[..])
      invariant Accumulated(out[..], m, input, LANE_BYTES * lane + i)
    {
      StateBytesAt(state[..], lane, i);
      assert input[LANE_BYTES * lane + i] == StateBytes(state[..])[LANE_BYTES * lane + i];
      AddEntries(table, out, m, LANE_BYTES * lane + i, bytes[i], input);
      i := i + 1;
    }
  }
}
