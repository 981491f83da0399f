/** What every decoder computes, as a function of the unread bytes. */
module Decoders {
  import opened Bytes
  import opened Hashing
  import opened Types
  import opened Wire

  // ---------------------------------------------------------------- the common loop

  /** Reads `n` key-value pairs, folding each into the record under construction. */
  function Fields<T>(step: (seq<Byte>, T, seq<Byte>) -> Parse<T>, n: nat, acc: T, s: seq<Byte>): Parse<T>
    decreases n
  {
    if n == 0 then Ok(acc, s)
    else
      var (key, s1) :- ReadStr(s);
      var (acc1, s2) :- step(key, acc, s1);
      Fields(step, n - 1, acc1, s2)
  }

  function DecodeMap<T>(step: (seq<Byte>, T, seq<Byte>) -> Parse<T>, init: T, s: seq<Byte>): Parse<T> {
    var (n, s1) :- ReadMapLen(s);
    Fields(step, n, init, s1)
  }

  /** One turn of the field loop. */
  lemma FieldsNext<T>(step: (seq<Byte>, T, seq<Byte>) -> Parse<T>, n: nat, acc: T, s: seq<Byte>)
    requires n > 0
    ensures Fields(step, n, acc, s)
         == match ReadStr(s)
            case Err(e) => Err(e)
            case Ok(key, s1) =>
              match step(key, acc, s1)
              case Err(e) => Err(e)
              case Ok(acc1, s2) => Fields(step, n - 1, acc1, s2)
  {
  }

  lemma FieldsDone<T>(step: (seq<Byte>, T, seq<Byte>) -> Parse<T>, acc: T, s: seq<Byte>)
    ensures Fields(step, 0, acc, s) == Ok(acc, s)
  {
  }

  /** Reads `n` elements. */
  function Repeat<T>(item: seq<Byte> -> Parse<T>, n: nat, acc: seq<T>, s: seq<Byte>): Parse<seq<T>>
    decreases n
  {
    if n == 0 then Ok(acc, s)
    else
      var (x, s1) :- item(s);
      Repeat(item, n - 1, acc + [x], s1)
  }

  /** `decode`: one value and nothing after it. */
  function DecodeAll<T>(decoder: seq<Byte> -> Parse<T>, bytes: seq<Byte>): Parse<T> {
    var (v, rest) :- decoder(bytes);
    if |rest| > 0 then Err(TrailingBytes) else Ok(v, rest)
  }

  /** On success the skipper consumes the same bytes as `values` values, and more input changes nothing. */
  ghost predicate Consumes<T>(values: nat, p: Parse<T>, q: Parse<T>, s: seq<Byte>, ext: seq<Byte>) {
    (p.Ok? ==> SkipMany(values, s) == Ok((), p.rest)) && Extends(p, q, ext)
  }

  ghost predicate StepConforms<T(!new)>(step: (seq<Byte>, T, seq<Byte>) -> Parse<T>) {
    forall key, acc, s, ext :: Consumes(1, step(key, acc, s), step(key, acc, s + ext), s, ext)
  }

  ghost predicate DecoderConforms<T(!new)>(values: nat, decoder: seq<Byte> -> Parse<T>) {
    forall s, ext :: Consumes(values, decoder(s), decoder(s + ext), s, ext)
  }

  lemma SkipOne(s: seq<Byte>)
    ensures SkipMany(1, s) == Skip(s)
  {
    hide Skip;
    match Skip(s)
    case Err(_) =>
    case Ok(v, rest) => assert v == () && SkipMany(0, rest) == Ok((), rest);
  }

  lemma {:induction false} FieldsConform<T(!new)>(
    step: (seq<Byte>, T, seq<Byte>) -> Parse<T>, n: nat, acc: T, s: seq<Byte>, ext: seq<Byte>)
    requires StepConforms(step)
    ensures Consumes(2 * n, Fields(step, n, acc, s), Fields(step, n, acc, s + ext), s, ext)
    decreases n
  {
    hide Skip, ReadStr;
    if n > 0 {
      ReadStrConforms(s, ext);
      var k := ReadStr(s);
      if k.Ok? {
        var p := step(k.value, acc, k.rest);
        assert Consumes(1, p, step(k.value, acc, k.rest + ext), k.rest, ext);
        if p.Ok? {
          FieldsConform(step, n - 1, p.value, p.rest, ext);
          SkipManyAppend(1, 2 * (n - 1), k.rest);
          SkipOne(s);
          SkipManyAppend(1, 2 * n - 1, s);
        }
      }
    }
  }

  lemma DecodeMapConforms<T(!new)>(
    step: (seq<Byte>, T, seq<Byte>) -> Parse<T>, init: T, s: seq<Byte>, ext: seq<Byte>)
    requires StepConforms(step)
    ensures Consumes(1, DecodeMap(step, init, s), DecodeMap(step, init, s + ext), s, ext)
  {
    hide Skip, ReadMapLen;
    SkipOne(s);
    HeadersSkip(s);
    LengthsExtend(s, ext);
    var h := ReadMapLen(s);
    if h.Ok? { FieldsConform(step, h.value, init, h.rest, ext); }
  }

  lemma {:induction false} RepeatConforms<T(!new)>(
    values: nat, item: seq<Byte> -> Parse<T>, n: nat, acc: seq<T>, s: seq<Byte>, ext: seq<Byte>)
    requires DecoderConforms(values, item)
    ensures Consumes(n * values, Repeat(item, n, acc, s), Repeat(item, n, acc, s + ext), s, ext)
    decreases n
  {
    if n > 0 {
      var p := item(s);
      assert Consumes(values, p, item(s + ext), s, ext);
      if p.Ok? {
        RepeatConforms(values, item, n - 1, acc + [p.value], p.rest, ext);
        assert n * values == values + (n - 1) * values;
        SkipManyAppend(values, (n - 1) * values, s);
      }
    }
  }

  // ---------------------------------------------------------------- field readers

  /** A binary of exactly `size` bytes. */
  function ReadDigest(size: nat, s: seq<Byte>): Parse<Digest> {
    var (b, s1) :- ReadBin(s);
    if |b| != size then Err(InvalidDigestSize(size, |b|)) else Ok(b, s1)
  }

  function ReadKey(s: seq<Byte>): Parse<seq<Byte>> {
    var (b, s1) :- ReadBin(s);
    if |b| != PUBKEY_SIZE then Err(InvalidPublicKeySize(PUBKEY_SIZE, |b|)) else Ok(b, s1)
  }

  /** `read_uint()? as u8` keeps the low byte. */
  function ReadU8(s: seq<Byte>): Parse<Byte> {
    var (v, s1) :- ReadUint(s);
    Ok(v % 256, s1)
  }

  function ReadWeight(s: seq<Byte>): Parse<U64> {
    var (v, s1) :- ReadUint(s);
    if v == 0 then Err(ZeroSignedWeight) else Ok(v, s1)
  }

  lemma FieldReadersConform(size: nat, s: seq<Byte>, ext: seq<Byte>)
    ensures Consumes(1, Wire.Skip(s), Wire.Skip(s + ext), s, ext)
    ensures Consumes(1, ReadUint(s), ReadUint(s + ext), s, ext)
    ensures Consumes(1, ReadBin(s), ReadBin(s + ext), s, ext)
    ensures Consumes(1, ReadDigest(size, s), ReadDigest(size, s + ext), s, ext)
    ensures Consumes(1, ReadKey(s), ReadKey(s + ext), s, ext)
    ensures Consumes(1, ReadU8(s), ReadU8(s + ext), s, ext)
    ensures Consumes(1, ReadWeight(s), ReadWeight(s + ext), s, ext)
  {
    hide Skip, ReadUint, ReadBin, SkipMany;
    SkipOne(s);
    assert Skip(s).Ok? ==> Skip(s).value == ();
    SkipExtends(s, ext);
    ReadUintConforms(s, ext);
    ReadBinConforms(s, ext);
  }
}
