/** What the readers take from a value, told from the value alone: its content, or the error and nothing else. */
module WireReadings {
  import opened Bytes
  import opened MerkleTree
  import opened Wire
  import opened WireValues
  import opened Decoders

  /** A value whose payloads and counts fit their formats. */
  type Value = t: Msg | Formed(t) witness Nil

  type Pair = e: Entry | Formed(e.key) && Formed(e.value) witness Entry(Nil, Nil)

  /** The content that a reader finds in a value, or the error with which it refuses it. */
  datatype Reading<+T> = Content(content: T) | Fault(error: DecodeError)

  /** The reader behaves on the bytes of a value, with anything behind them, as the reading says. */
  ghost predicate Means<T>(p: Parse<T>, r: Reading<T>, rest: seq<Byte>) {
    match r
    case Content(v) => p == Ok(v, rest)
    case Fault(e) => p == Err(e)
  }

  function Change<T, U>(r: Reading<T>, f: T -> U): Reading<U> {
    match r
    case Content(v) => Content(f(v))
    case Fault(e) => Fault(e)
  }

  function FaultOf<T>(r: Reading<T>): Option<DecodeError> {
    match r
    case Content(_) => None
    case Fault(e) => Some(e)
  }

  function Mismatch<T>(expected: string, t: Value): Reading<T>
  {
    Fault(UnexpectedType(expected, Emit(t)[0]))
  }

  // ---------------------------------------------------------------- scalars

  /** Unsigned integers of every width are read, and nothing else. */
  function UintIn(t: Value): (r: Reading<U64>)
  {
    Pow256Values();
    match t
    case PositiveFix(n) => Content(n)
    case Unsigned(log, digits) =>
      assert Width(log) == 1 || Width(log) == 2 || Width(log) == 4 || Width(log) == 8;
      Content(FromBE(digits))
    case _ => Mismatch("uint", t)
  }

  function StrIn(t: Value): Reading<seq<Byte>>
  {
    if t.FixStr? || t.Str? then if Utf8(t.data) then Content(t.data) else Fault(InvalidUtf8)
    else Mismatch("str", t)
  }

  /** Binaries, and strings as the older raw format had them: all but the 8-bit ones. */
  function BinIn(t: Value): Reading<seq<Byte>>
  {
    if t.Bin? || t.FixStr? || (t.Str? && t.log > 0) then Content(t.data) else Mismatch("bin", t)
  }

  function ItemsIn(t: Value): Reading<seq<Value>>
  {
    if t.FixArray? || t.Array? then Content(t.items) else Mismatch("array", t)
  }

  function EntriesIn(t: Value): Reading<seq<Pair>>
  {
    if t.FixMap? || t.Map? then Content(t.entries) else Mismatch("map", t)
  }

  lemma UintMeans(t: Value, rest: seq<Byte>)
    ensures Means(ReadUint(Emit(t) + rest), UintIn(t), rest)
  {
    hide FromBE, EmitAll, EmitEntries, BE;
    Pow256Values();
    var s := Emit(t) + rest;
    assert s[0] == Emit(t)[0];
    if t.PositiveFix? {
      assert s[1..] == rest;
    } else if t.Unsigned? {
      assert s[1..] == t.digits + rest;
      DigitsRead(t.digits, rest);
    }
  }

  lemma DigitsRead(digits: seq<Byte>, rest: seq<Byte>)
    ensures ReadBE(|digits|, digits + rest) == Ok(FromBE(digits), rest)
    ensures |digits| == 1 ==> ReadByte(digits + rest) == Ok(FromBE(digits), rest)
  {
    hide FromBE;
    assert (digits + rest)[..|digits|] == digits && (digits + rest)[|digits|..] == rest;
    if |digits| == 1 { OneDigit(digits); }
  }

  lemma OneDigit(digits: seq<Byte>)
    requires |digits| == 1
    ensures FromBE(digits) == digits[0]
  {
    assert digits[..0] == [];
  }

  /** A length header, wherever the reader knows it, is the number of bytes or values that follow. */
  lemma CountRead(tag: Byte, width: nat, n: nat, body: seq<Byte>, rest: seq<Byte>)
    requires n < Pow256(width)
    ensures ReadByte(([tag] + (BE(width, n) + body)) + rest) == Ok(tag, BE(width, n) + (body + rest))
    ensures ReadBE(width, BE(width, n) + (body + rest)) == Ok(n, body + rest)
  {
    hide BE, ReadBE, Pow256;
    assert (([tag] + (BE(width, n) + body)) + rest)[1..] == BE(width, n) + (body + rest);
    ReadBEWritten(width, n, body + rest);
  }

  lemma TagRead(tag: Byte, body: seq<Byte>, rest: seq<Byte>)
    ensures ReadByte(([tag] + body) + rest) == Ok(tag, body + rest)
  {
    assert (([tag] + body) + rest)[1..] == body + rest;
  }

  lemma FirstByte(t: Value, rest: seq<Byte>)
    ensures ReadByte(Emit(t) + rest).Ok? && ReadByte(Emit(t) + rest).value == Emit(t)[0]
  {
    hide Emit;
  }

  lemma StrLenMeans(t: Value, rest: seq<Byte>)
    ensures ReadStrLen(Emit(t) + rest)
         == if t.FixStr? || t.Str? then Ok(|t.data|, t.data + rest) else Err(UnexpectedType("str", Emit(t)[0]))
  {
    hide ReadBE, ReadByte, EmitAll, EmitEntries, BE, Pow256;
    FirstByte(t, rest);
    if t.FixStr? {
      TagRead(0xa0 + |t.data|, t.data, rest);
    } else if t.Str? {
      CountRead(0xd9 + t.log, Width(t.log), |t.data|, t.data, rest);
    }
  }

  lemma BinLenMeans(t: Value, rest: seq<Byte>)
    ensures ReadBinLen(Emit(t) + rest)
         == if t.Bin? || t.FixStr? || (t.Str? && t.log > 0) then Ok(|t.data|, t.data + rest)
            else Err(UnexpectedType("bin", Emit(t)[0]))
  {
    hide ReadBE, ReadByte, EmitAll, EmitEntries, BE, Pow256;
    FirstByte(t, rest);
    if t.FixStr? {
      TagRead(0xa0 + |t.data|, t.data, rest);
    } else if t.Str? {
      CountRead(0xd9 + t.log, Width(t.log), |t.data|, t.data, rest);
    } else if t.Bin? {
      CountRead(0xc4 + t.log, Width(t.log), |t.data|, t.data, rest);
    }
  }

  lemma StrMeans(t: Value, rest: seq<Byte>)
    ensures Means(ReadStr(Emit(t) + rest), StrIn(t), rest)
  {
    hide ReadStrLen, Emit, Utf8;
    StrLenMeans(t, rest);
    if t.FixStr? || t.Str? { assert (t.data + rest)[..|t.data|] == t.data && (t.data + rest)[|t.data|..] == rest; }
  }

  lemma BinMeans(t: Value, rest: seq<Byte>)
    ensures Means(ReadBin(Emit(t) + rest), BinIn(t), rest)
  {
    hide ReadBinLen, Emit;
    BinLenMeans(t, rest);
    if t.Bin? || t.FixStr? || t.Str? {
      assert (t.data + rest)[..|t.data|] == t.data && (t.data + rest)[|t.data|..] == rest;
    }
  }

  lemma ArrayLenMeans(t: Value, rest: seq<Byte>)
    ensures ReadArrayLen(Emit(t) + rest)
         == match ItemsIn(t) case Content(items) => Ok(|items|, EmitAll(items) + rest) case Fault(e) => Err(e)
  {
    hide ReadBE, ReadByte, EmitAll, EmitEntries, BE, Pow256;
    FirstByte(t, rest);
    if t.FixArray? {
      TagRead(0x90 + |t.items|, EmitAll(t.items), rest);
    } else if t.Array? {
      CountRead(0xdb + t.log, Width(t.log), |t.items|, EmitAll(t.items), rest);
    }
  }

  lemma MapLenMeans(t: Value, rest: seq<Byte>)
    ensures ReadMapLen(Emit(t) + rest)
         == match EntriesIn(t) case Content(es) => Ok(|es|, EmitEntries(es) + rest) case Fault(e) => Err(e)
  {
    hide ReadBE, ReadByte, EmitAll, EmitEntries, BE, Pow256;
    FirstByte(t, rest);
    if t.FixMap? {
      TagRead(0x80 + |t.entries|, EmitEntries(t.entries), rest);
    } else if t.Map? {
      CountRead(0xdd + t.log, Width(t.log), |t.entries|, EmitEntries(t.entries), rest);
    }
  }

  // ---------------------------------------------------------------- lists

  /** All elements, or the first fault. */
  function ListIn<T>(items: seq<Value>, read: Value -> Reading<T>): Reading<seq<T>> {
    if items == [] then Content([])
    else
      match read(items[0])
      case Fault(e) => Fault(e)
      case Content(v) => Change(ListIn(items[1..], read), vs => [v] + vs)
  }

  /** The element reader does on every value what the reading says. */
  ghost predicate ItemMeans<T(!new)>(item: seq<Byte> -> Parse<T>, read: Value -> Reading<T>) {
    forall t: Value, rest :: Means(item(Emit(t) + rest), read(t), rest)
  }

  lemma {:induction false} RepeatMeans<T(!new)>(
    item: seq<Byte> -> Parse<T>, read: Value -> Reading<T>, items: seq<Value>, acc: seq<T>, rest: seq<Byte>)
    requires ItemMeans(item, read)
    ensures Means(Repeat(item, |items|, acc, EmitAll(items) + rest), Change(ListIn(items, read), vs => acc + vs), rest)
    decreases |items|
  {
    hide Emit;
    if items == [] {
      assert EmitAll(items) + rest == rest && acc + [] == acc;
    } else {
      var more := EmitAll(items[1..]) + rest;
      assert EmitAll(items) + rest == Emit(items[0]) + more;
      assert Means(item(Emit(items[0]) + more), read(items[0]), more);
      if read(items[0]).Content? {
        var v := read(items[0]).content;
        RepeatMeans(item, read, items[1..], acc + [v], rest);
        assert forall vs: seq<T> :: (acc + [v]) + vs == acc + ([v] + vs);
      }
    }
  }

  // ---------------------------------------------------------------- maps

  /** What the last field with this key holds; the default if there is none. */
  function Last<T>(es: seq<Pair>, key: seq<Byte>, read: Value -> Reading<T>, default: T): T {
    if es == [] then default
    else
      var e := es[|es| - 1];
      if StrIn(e.key) == Content(key) && read(e.value).Content? then read(e.value).content
      else Last(es[..|es| - 1], key, read, default)
  }

  /** The first fault of a key or of a field's value. */
  function FirstFault(es: seq<Pair>, check: (seq<Byte>, Value) -> Option<DecodeError>): Option<DecodeError> {
    if es == [] then None
    else
      match StrIn(es[0].key)
      case Fault(e) => Some(e)
      case Content(key) =>
        if check(key, es[0].value).Some? then check(key, es[0].value) else FirstFault(es[1..], check)
  }

  /** The field step takes the record of the fields so far to the record with one more, or reports its fault. */
  ghost predicate StepAt<T(!new)>(
    step: (seq<Byte>, T, seq<Byte>) -> Parse<T>, record: seq<Pair> -> T,
    check: (seq<Byte>, Value) -> Option<DecodeError>, es: seq<Pair>, e: Pair, rest: seq<Byte>)
  {
    match StrIn(e.key)
    case Fault(_) => true
    case Content(key) =>
      match check(key, e.value)
      case Some(fault) => step(key, record(es), Emit(e.value) + rest) == Err(fault)
      case None => step(key, record(es), Emit(e.value) + rest) == Ok(record(es + [e]), rest)
  }

  ghost predicate StepMeans<T(!new)>(
    step: (seq<Byte>, T, seq<Byte>) -> Parse<T>, record: seq<Pair> -> T,
    check: (seq<Byte>, Value) -> Option<DecodeError>)
  {
    forall es: seq<Pair>, e: Pair, rest :: StepAt(step, record, check, es, e, rest)
  }

  /** The record of the fields of a map, unless one of them has a fault. */
  function RecordIn<T>(
    t: Value, record: seq<Pair> -> T, check: (seq<Byte>, Value) -> Option<DecodeError>): Reading<T>
  {
    match EntriesIn(t)
    case Fault(e) => Fault(e)
    case Content(es) =>
      match FirstFault(es, check)
      case Some(e) => Fault(e)
      case None => Content(record(es))
  }

  lemma {:induction false} FieldsMean<T(!new)>(
    step: (seq<Byte>, T, seq<Byte>) -> Parse<T>, record: seq<Pair> -> T,
    check: (seq<Byte>, Value) -> Option<DecodeError>, es: seq<Pair>, more: seq<Pair>, rest: seq<Byte>)
    requires StepMeans(step, record, check)
    ensures Fields(step, |more|, record(es), EmitEntries(more) + rest)
         == match FirstFault(more, check) case Some(e) => Err(e) case None => Ok(record(es + more), rest)
    decreases |more|
  {
    hide Emit, ReadStr, StrIn, Fields;
    var bytes := EmitEntries(more) + rest;
    if more == [] {
      assert es + more == es && bytes == rest;
      FieldsDone(step, record(es), bytes);
    } else {
      var e, after := more[0], EmitEntries(more[1..]) + rest;
      assert bytes == Emit(e.key) + (Emit(e.value) + after);
      FieldsNext(step, |more|, record(es), bytes);
      StrMeans(e.key, Emit(e.value) + after);
      assert StepAt(step, record, check, es, e, after);
      FieldsMean(step, record, check, es + [e], more[1..], rest);
      assert (es + [e]) + more[1..] == es + more;
    }
  }

  /** The map decoder on any map, whatever the order, number and format of its fields. */
  lemma MapMeans<T(!new)>(
    step: (seq<Byte>, T, seq<Byte>) -> Parse<T>, record: seq<Pair> -> T,
    check: (seq<Byte>, Value) -> Option<DecodeError>, t: Value, rest: seq<Byte>)
    requires StepMeans(step, record, check)
    ensures Means(DecodeMap(step, record([]), Emit(t) + rest), RecordIn(t, record, check), rest)
  {
    hide Emit, ReadMapLen, FirstFault, Fields, EntriesIn;
    MapLenMeans(t, rest);
    if EntriesIn(t).Content? {
      var es := EntriesIn(t).content;
      FieldsMean(step, record, check, [], es, rest);
      assert [] + es == es;
    }
  }

  lemma LastSnoc<T>(es: seq<Pair>, e: Pair, key: seq<Byte>, read: Value -> Reading<T>, default: T)
    ensures Last(es + [e], key, read, default)
         == if StrIn(e.key) == Content(key) && read(e.value).Content? then read(e.value).content
            else Last(es, key, read, default)
  {
    assert (es + [e])[..|es|] == es;
  }

  /** An unknown field is stepped over, whatever value it has. */
  lemma UnknownMeans(t: Value, rest: seq<Byte>)
    ensures Skip(Emit(t) + rest) == Ok((), rest)
  {
    SkipLandsBehind(t, rest);
  }

  // ---------------------------------------------------------------- on all byte strings

  /** The decoder yields this content and leaves these bytes exactly if a value with this content comes before them. */
  lemma DecodesIff<T(!new)>(
    decoder: seq<Byte> -> Parse<T>, read: Value -> Reading<T>, s: seq<Byte>, v: T, rest: seq<Byte>)
    requires DecoderConforms(1, decoder) && ItemMeans(decoder, read)
    ensures decoder(s) == Ok(v, rest) <==> exists t: Value :: s == Emit(t) + rest && read(t) == Content(v)
  {
    hide Emit, Skip;
    if decoder(s) == Ok(v, rest) {
      assert Consumes(1, decoder(s), decoder(s + []), s, []);
      SkipOne(s);
      var t := SkipFinds(s);
      assert Means(decoder(Emit(t) + rest), read(t), rest);
    }
    forall t: Value | s == Emit(t) + rest && read(t) == Content(v)
      ensures decoder(s) == Ok(v, rest)
    {
      assert Means(decoder(Emit(t) + rest), read(t), rest);
    }
  }
}
