/** The MessagePack primitives: what the writers emit, what the readers accept, and how values are skipped. */
module Wire {
  import opened Bytes

  datatype HashType = Sha512_256 | Sumhash512 | Sha256 | Sha512

  datatype DecodeError =
    | HashTypeMismatch(expectedHash: HashType, gotHash: HashType)
    | InvalidHashType(tag: U64)
    | InvalidDigestSize(expectedSize: nat, gotSize: nat)
    | InvalidPublicKey
    | InvalidPublicKeySize(expectedKeySize: nat, gotKeySize: nat)
    | InvalidSignature
    | InvalidUtf8
    | TooManyReveals(got: nat, max: nat)
    | TrailingBytes
    | UnexpectedEof
    | UnexpectedType(expected: string, gotByte: Byte)
    | ZeroSignedWeight

  /** The outcome of reading one item from the front of a byte string. */
  datatype Parse<+T> = Ok(value: T, rest: seq<Byte>) | Err(error: DecodeError) {
    predicate IsFailure() { Err? }

    function PropagateFailure<U>(): Parse<U>
      requires Err?
    {
      Err(error)
    }

    function Extract(): (T, seq<Byte>)
      requires Ok?
    {
      (value, rest)
    }
  }

  /** Reading more input: `q` is what `p` becomes when `ext` is appended to the bytes it read from. */
  ghost predicate Extends<T>(p: Parse<T>, q: Parse<T>, ext: seq<Byte>) {
    p.Ok? ==> q == Ok(p.value, p.rest + ext)
  }

  // ---------------------------------------------------------------- raw reads

  function ReadByte(s: seq<Byte>): Parse<Byte> {
    if s == [] then Err(UnexpectedEof) else Ok(s[0], s[1..])
  }

  function ReadBytes(n: nat, s: seq<Byte>): Parse<seq<Byte>> {
    if n > |s| then Err(UnexpectedEof) else Ok(s[..n], s[n..])
  }

  /** An `n`-byte big-endian integer. */
  function ReadBE(n: nat, s: seq<Byte>): (p: Parse<nat>)
    ensures p.Ok? ==> |p.rest| + n == |s| && p.value < Pow256(n)
  {
    var (b, s1) :- ReadBytes(n, s);
    Ok(FromBE(b), s1)
  }

  lemma RawReadsExtend(n: nat, s: seq<Byte>, ext: seq<Byte>)
    ensures Extends(ReadByte(s), ReadByte(s + ext), ext)
    ensures Extends(ReadBytes(n, s), ReadBytes(n, s + ext), ext)
    ensures Extends(ReadBE(n, s), ReadBE(n, s + ext), ext)
  {
    if n <= |s| { assert (s + ext)[..n] == s[..n]; }
  }

  lemma ReadBEWritten(n: nat, x: nat, rest: seq<Byte>)
    requires x < Pow256(n)
    ensures ReadBE(n, BE(n, x) + rest) == Ok(x, rest)
  {
    FromBEInvertsBE(n, x);
    assert (BE(n, x) + rest)[..n] == BE(n, x) && (BE(n, x) + rest)[n..] == rest;
  }

  // ---------------------------------------------------------------- typed reads

  function ReadMapLen(s: seq<Byte>): Parse<nat> {
    var (b, s1) :- ReadByte(s);
    if 0x80 <= b <= 0x8f then Ok(b - 0x80, s1)
    else if b == 0xde then ReadBE(2, s1)
    else if b == 0xdf then ReadBE(4, s1)
    else Err(UnexpectedType("map", b))
  }

  function ReadArrayLen(s: seq<Byte>): Parse<nat> {
    var (b, s1) :- ReadByte(s);
    if 0x90 <= b <= 0x9f then Ok(b - 0x90, s1)
    else if b == 0xdc then ReadBE(2, s1)
    else if b == 0xdd then ReadBE(4, s1)
    else Err(UnexpectedType("array", b))
  }

  function ReadUint(s: seq<Byte>): (p: Parse<U64>)
  {
    Pow256Values();
    var (b, s1) :- ReadByte(s);
    if b <= 0x7f then Ok(b, s1)
    else if b == 0xcc then ReadByte(s1)
    else if b == 0xcd then ReadBE(2, s1)
    else if b == 0xce then ReadBE(4, s1)
    else if b == 0xcf then ReadBE(8, s1)
    else Err(UnexpectedType("uint", b))
  }

  function ReadStrLen(s: seq<Byte>): Parse<nat> {
    var (b, s1) :- ReadByte(s);
    if 0xa0 <= b <= 0xbf then Ok(b - 0xa0, s1)
    else if b == 0xd9 then ReadBE(1, s1)
    else if b == 0xda then ReadBE(2, s1)
    else if b == 0xdb then ReadBE(4, s1)
    else Err(UnexpectedType("str", b))
  }

  function ReadStr(s: seq<Byte>): Parse<seq<Byte>> {
    var (n, s1) :- ReadStrLen(s);
    var (b, s2) :- ReadBytes(n, s1);
    if Utf8(b) then Ok(b, s2) else Err(InvalidUtf8)
  }

  /** Binary headers, and the older raw headers except `0xd9`. */
  function ReadBinLen(s: seq<Byte>): Parse<nat> {
    var (b, s1) :- ReadByte(s);
    if b == 0xc4 then ReadBE(1, s1)
    else if b == 0xc5 then ReadBE(2, s1)
    else if b == 0xc6 then ReadBE(4, s1)
    else if 0xa0 <= b <= 0xbf then Ok(b - 0xa0, s1)
    else if b == 0xda then ReadBE(2, s1)
    else if b == 0xdb then ReadBE(4, s1)
    else Err(UnexpectedType("bin", b))
  }

  function ReadBin(s: seq<Byte>): Parse<seq<Byte>> {
    var (n, s1) :- ReadBinLen(s);
    ReadBytes(n, s1)
  }

  predicate Continuation(b: Byte) { 0x80 <= b <= 0xbf }

  /** Well-formed UTF-8 (table 3-7 of the Unicode standard). */
  predicate Utf8(s: seq<Byte>)
    decreases |s|
  {
    if s == [] then true
    else if s[0] <= 0x7f then Utf8(s[1..])
    else if |s| >= 2 && 0xc2 <= s[0] <= 0xdf then Continuation(s[1]) && Utf8(s[2..])
    else if |s| >= 3 && 0xe0 <= s[0] <= 0xef then
      && Continuation(s[1]) && Continuation(s[2])
      && (s[0] == 0xe0 ==> s[1] >= 0xa0) && (s[0] == 0xed ==> s[1] <= 0x9f)
      && Utf8(s[3..])
    else
      && |s| >= 4 && 0xf0 <= s[0] <= 0xf4
      && Continuation(s[1]) && Continuation(s[2]) && Continuation(s[3])
      && (s[0] == 0xf0 ==> s[1] >= 0x90) && (s[0] == 0xf4 ==> s[1] <= 0x8f)
      && Utf8(s[4..])
  }

  predicate Ascii(s: seq<Byte>) {
    forall i :: 0 <= i < |s| ==> s[i] <= 0x7f
  }

  lemma {:induction false} AsciiIsUtf8(s: seq<Byte>)
    requires Ascii(s)
    ensures Utf8(s)
  {
    if s != [] { AsciiIsUtf8(s[1..]); }
  }

  // ---------------------------------------------------------------- skipping

  /** What follows a format byte. */
  datatype Shape =
    | Never                              // 0xc1
    | Fixed(size: nat)                   // this many bytes
    | Counted(width: nat, extra: nat)    // a length of `width` bytes, then that many bytes and `extra` more
    | Items(count: nat)                  // this many values
    | CountedItems(width: nat, per: nat) // a length of `width` bytes, then `per` values for each

  function ShapeOf(b: Byte): Shape {
    if b <= 0x7f then Fixed(0)
    else if b <= 0x8f then Items(2 * (b - 0x80))
    else if b <= 0x9f then Items(b - 0x90)
    else if b <= 0xbf then Fixed(b - 0xa0)
    else if b == 0xc0 then Fixed(0)
    else if b == 0xc1 then Never
    else if b <= 0xc3 then Fixed(0)
    else if b == 0xc4 then Counted(1, 0)
    else if b == 0xc5 then Counted(2, 0)
    else if b == 0xc6 then Counted(4, 0)
    else if b == 0xc7 then Counted(1, 1)
    else if b == 0xc8 then Counted(2, 1)
    else if b == 0xc9 then Counted(4, 1)
    else if b == 0xca then Fixed(4)
    else if b == 0xcb then Fixed(8)
    else if b == 0xcc then Fixed(1)
    else if b == 0xcd then Fixed(2)
    else if b == 0xce then Fixed(4)
    else if b == 0xcf then Fixed(8)
    else if b == 0xd0 then Fixed(1)
    else if b == 0xd1 then Fixed(2)
    else if b == 0xd2 then Fixed(4)
    else if b == 0xd3 then Fixed(8)
    else if b == 0xd4 then Fixed(2)
    else if b == 0xd5 then Fixed(3)
    else if b == 0xd6 then Fixed(5)
    else if b == 0xd7 then Fixed(9)
    else if b == 0xd8 then Fixed(17)
    else if b == 0xd9 then Counted(1, 0)
    else if b == 0xda then Counted(2, 0)
    else if b == 0xdb then Counted(4, 0)
    else if b == 0xdc then CountedItems(2, 1)
    else if b == 0xdd then CountedItems(4, 1)
    else if b == 0xde then CountedItems(2, 2)
    else if b == 0xdf then CountedItems(4, 2)
    else Fixed(0)
  }

  function Drop(n: nat, s: seq<Byte>): Parse<()> {
    var (_, s1) :- ReadBytes(n, s);
    Ok((), s1)
  }

  /** Steps over one complete value; every success consumes at least one byte. */
  function Skip(s: seq<Byte>): (p: Parse<()>)
    ensures p.Ok? ==> |p.rest| < |s|
    decreases |s|, 0, 0
  {
    var (b, s1) :- ReadByte(s);
    SkipBody(b, s1)
  }

  function SkipBody(b: Byte, s: seq<Byte>): (p: Parse<()>)
    ensures p.Ok? ==> |p.rest| <= |s|
    decreases |s|, 2, 0
  {
    match ShapeOf(b)
    case Never => Err(UnexpectedType("any", b))
    case Fixed(size) => Drop(size, s)
    case Counted(width, extra) => var (n, s1) :- ReadBE(width, s); Drop(n + extra, s1)
    case Items(count) => SkipMany(count, s)
    case CountedItems(width, per) => var (n, s1) :- ReadBE(width, s); SkipMany(per * n, s1)
  }

  function SkipMany(n: nat, s: seq<Byte>): (p: Parse<()>)
    ensures p.Ok? ==> |p.rest| <= |s|
    decreases |s|, 1, n
  {
    if n == 0 then Ok((), s)
    else var (_, s1) :- Skip(s); SkipMany(n - 1, s1)
  }

  lemma {:induction false} SkipManyAppend(m: nat, n: nat, s: seq<Byte>)
    ensures SkipMany(m + n, s)
         == match SkipMany(m, s) case Err(e) => Err(e) case Ok(_, s1) => SkipMany(n, s1)
    decreases m
  {
    if m > 0 && Skip(s).Ok? {
      SkipManyAppend(m - 1, n, Skip(s).rest);
    }
  }

  lemma {:induction false} SkipExtends(s: seq<Byte>, ext: seq<Byte>)
    ensures Extends(Skip(s), Skip(s + ext), ext)
    decreases |s|, 0, 0
  {
    RawReadsExtend(0, s, ext);
    if s != [] {
      SkipBodyExtends(s[0], s[1..], ext);
    }
  }

  lemma {:induction false} SkipBodyExtends(b: Byte, s: seq<Byte>, ext: seq<Byte>)
    ensures Extends(SkipBody(b, s), SkipBody(b, s + ext), ext)
    decreases |s|, 2, 0
  {
    hide Skip, SkipMany, FromBE;
    match ShapeOf(b)
    case Never =>
    case Fixed(size) => RawReadsExtend(size, s, ext);
    case Counted(width, extra) => CountedExtends(b, s, ext);
    case Items(count) => SkipManyExtends(count, s, ext);
    case CountedItems(width, per) =>
      RawReadsExtend(width, s, ext);
      var p := ReadBE(width, s);
      if p.Ok? { SkipManyExtends(per * p.value, p.rest, ext); }
  }

  lemma CountedExtends(b: Byte, s: seq<Byte>, ext: seq<Byte>)
    requires ShapeOf(b).Counted?
    ensures Extends(SkipBody(b, s), SkipBody(b, s + ext), ext)
  {
    hide SkipMany, ReadBE, ReadBytes, ShapeOf;
    var w, extra := ShapeOf(b).width, ShapeOf(b).extra;
    BEExtends(w, s, ext);
    var p := ReadBE(w, s);
    if p.Ok? { BytesExtend(p.value + extra, p.rest, ext); }
  }

  lemma BytesExtend(n: nat, s: seq<Byte>, ext: seq<Byte>)
    ensures Extends(ReadBytes(n, s), ReadBytes(n, s + ext), ext)
  {
    RawReadsExtend(n, s, ext);
  }

  lemma {:induction false} SkipManyExtends(n: nat, s: seq<Byte>, ext: seq<Byte>)
    ensures Extends(SkipMany(n, s), SkipMany(n, s + ext), ext)
    decreases |s|, 1, n
  {
    if n > 0 {
      SkipExtends(s, ext);
      if Skip(s).Ok? { SkipManyExtends(n - 1, Skip(s).rest, ext); }
    }
  }

  // ---------------------------------------------------------------- readers against the skipper

  /**
   A reader conforms at `s` when, on success, the skipper stops at the same place, and more input
   changes neither the value nor the place.
   */
  ghost predicate Conforms<T>(p: Parse<T>, s: seq<Byte>) {
    p.Ok? ==> Skip(s) == Ok((), p.rest)
  }

  lemma ReadUintConforms(s: seq<Byte>, ext: seq<Byte>)
    ensures Conforms(ReadUint(s), s) && Extends(ReadUint(s), ReadUint(s + ext), ext)
  {
    UintSkip(s);
    hide SkipMany, FromBE, Skip;
    if s != [] {
      var s1 := s[1..];
      assert (s + ext)[1..] == s1 + ext;
      RawReadsExtend(2, s1, ext);
      RawReadsExtend(4, s1, ext);
      RawReadsExtend(8, s1, ext);
    }
  }

  lemma UintSkip(s: seq<Byte>)
    ensures Conforms(ReadUint(s), s)
  {
    hide Skip, SkipBody, FromBE;
    if s != [] {
      SkipHead(s);
      if ShapeOf(s[0]).Fixed? { FixedSkips(s[0], s[1..]); }
    }
  }

  lemma SkipHead(s: seq<Byte>)
    requires s != []
    ensures Skip(s) == SkipBody(s[0], s[1..])
  {
    hide SkipBody;
  }

  lemma FixedSkips(b: Byte, s: seq<Byte>)
    requires ShapeOf(b).Fixed?
    ensures SkipBody(b, s) == if ShapeOf(b).size <= |s| then Ok((), s[ShapeOf(b).size..]) else Err(UnexpectedEof)
    ensures ShapeOf(b).size == 0 ==> SkipBody(b, s) == Ok((), s)
  {
    hide Skip, SkipMany;
    assert s[0..] == s;
  }

  /** A counted shape drops as many bytes as its length announces. */
  lemma CountedSkips(b: Byte, s: seq<Byte>)
    requires ShapeOf(b).Counted? && ReadBE(ShapeOf(b).width, s).Ok?
    ensures var p := ReadBE(ShapeOf(b).width, s);
            SkipBody(b, s) == Drop(p.value + ShapeOf(b).extra, p.rest)
  {
    hide Skip, SkipMany, ReadBE;
  }

  /** A fixed-length raw header drops what its own byte announces. */
  lemma RawSkips(b: Byte, s: seq<Byte>)
    requires 0xa0 <= b <= 0xbf
    ensures SkipBody(b, s) == Drop(b - 0xa0, s)
  {
    hide Skip, SkipMany;
  }

  /** The length headers of strings and binaries only depend on their own bytes. */
  lemma LengthsExtend(s: seq<Byte>, ext: seq<Byte>)
    ensures Extends(ReadStrLen(s), ReadStrLen(s + ext), ext)
    ensures Extends(ReadBinLen(s), ReadBinLen(s + ext), ext)
    ensures Extends(ReadMapLen(s), ReadMapLen(s + ext), ext)
    ensures Extends(ReadArrayLen(s), ReadArrayLen(s + ext), ext)
  {
    hide ReadStrLen, ReadBinLen, ReadMapLen, ReadArrayLen;
    RawLengthsExtend(s, ext);
    CountsExtend(s, ext);
  }

  lemma BEExtends(n: nat, s: seq<Byte>, ext: seq<Byte>)
    ensures Extends(ReadBE(n, s), ReadBE(n, s + ext), ext)
  {
    RawReadsExtend(n, s, ext);
  }

  lemma TailExtends(s: seq<Byte>, ext: seq<Byte>)
    requires s != []
    ensures (s + ext)[0] == s[0] && (s + ext)[1..] == s[1..] + ext
  {
  }

  lemma RawLengthsExtend(s: seq<Byte>, ext: seq<Byte>)
    ensures Extends(ReadStrLen(s), ReadStrLen(s + ext), ext)
    ensures Extends(ReadBinLen(s), ReadBinLen(s + ext), ext)
  {
    hide ReadBE;
    if s != [] {
      TailExtends(s, ext);
      BEExtends(1, s[1..], ext);
      BEExtends(2, s[1..], ext);
      BEExtends(4, s[1..], ext);
    }
  }

  lemma CountsExtend(s: seq<Byte>, ext: seq<Byte>)
    ensures Extends(ReadMapLen(s), ReadMapLen(s + ext), ext)
    ensures Extends(ReadArrayLen(s), ReadArrayLen(s + ext), ext)
  {
    hide ReadBE;
    if s != [] {
      TailExtends(s, ext);
      BEExtends(2, s[1..], ext);
      BEExtends(4, s[1..], ext);
    }
  }

  /** Where a reader knows a length header, the skipper drops what the header announces. */
  lemma StrLenSkips(s: seq<Byte>)
    ensures ReadStrLen(s).Ok? ==> Skip(s) == Drop(ReadStrLen(s).value, ReadStrLen(s).rest)
  {
    hide Skip, SkipBody, ReadBE, Drop;
    if ReadStrLen(s).Ok? {
      SkipHead(s);
      if ShapeOf(s[0]).Counted? { CountedSkips(s[0], s[1..]); } else { RawSkips(s[0], s[1..]); }
    }
  }

  lemma BinLenSkips(s: seq<Byte>)
    ensures ReadBinLen(s).Ok? ==> Skip(s) == Drop(ReadBinLen(s).value, ReadBinLen(s).rest)
  {
    hide Skip, SkipBody, ReadBE, Drop;
    if ReadBinLen(s).Ok? {
      SkipHead(s);
      if ShapeOf(s[0]).Counted? { CountedSkips(s[0], s[1..]); } else { RawSkips(s[0], s[1..]); }
    }
  }

  lemma ReadStrConforms(s: seq<Byte>, ext: seq<Byte>)
    ensures Conforms(ReadStr(s), s) && Extends(ReadStr(s), ReadStr(s + ext), ext)
  {
    hide Skip, Utf8, ReadStrLen;
    StrLenSkips(s);
    LengthsExtend(s, ext);
    var p := ReadStrLen(s);
    if p.Ok? { RawReadsExtend(p.value, p.rest, ext); }
  }

  lemma ReadBinConforms(s: seq<Byte>, ext: seq<Byte>)
    ensures Conforms(ReadBin(s), s) && Extends(ReadBin(s), ReadBin(s + ext), ext)
  {
    hide Skip, ReadBinLen;
    BinLenSkips(s);
    LengthsExtend(s, ext);
    var p := ReadBinLen(s);
    if p.Ok? { RawReadsExtend(p.value, p.rest, ext); }
  }

  /** A collection header tells the skipper how many values follow. */
  lemma HeadersSkip(s: seq<Byte>)
    ensures ReadMapLen(s).Ok? ==> Skip(s) == SkipMany(2 * ReadMapLen(s).value, ReadMapLen(s).rest)
    ensures ReadArrayLen(s).Ok? ==> Skip(s) == SkipMany(ReadArrayLen(s).value, ReadArrayLen(s).rest)
  {
    hide SkipMany, FromBE;
  }

  // ---------------------------------------------------------------- writers

  function WriteUint(v: U64): (s: seq<Byte>) {
    if v <= 0x7f then [v]
    else if v <= 0xff then [0xcc, v]
    else if v <= 0xffff then [0xcd] + BE(2, v)
    else if v <= 0xffff_ffff then [0xce] + BE(4, v)
    else [0xcf] + BE(8, v)
  }

  /** A longer string makes the writer panic. */
  const MAX_STR: nat := 255

  function WriteStr(b: seq<Byte>): (s: seq<Byte>)
    requires |b| <= MAX_STR
  {
    (if |b| <= 31 then [0xa0 + |b|] else [0xd9, |b|]) + b
  }

  /** `b.len() as u32` keeps only the low 32 bits of a longer length. */
  function WriteBin(b: seq<Byte>): (s: seq<Byte>) {
    (if |b| <= 0xff then [0xc4, |b|]
     else if |b| <= 0xffff then [0xc5] + BE(2, |b|)
     else [0xc6] + BE(4, |b|)) + b
  }

  function WriteHeader(n: nat, fix: Byte, tag16: Byte, tag32: Byte): (s: seq<Byte>)
    requires fix + 15 < 256
  {
    if n <= 15 then [fix + n]
    else if n <= 0xffff then [tag16] + BE(2, n)
    else [tag32] + BE(4, n)
  }

  function WriteMapHeader(n: nat): seq<Byte> { WriteHeader(n, 0x80, 0xde, 0xdf) }

  function WriteArrayHeader(n: nat): seq<Byte> { WriteHeader(n, 0x90, 0xdc, 0xdd) }

  lemma UintRoundTrip(v: U64, rest: seq<Byte>)
    ensures ReadUint(WriteUint(v) + rest) == Ok(v, rest)
  {
    Pow256Values();
    hide BE, ReadBE;
    var s := WriteUint(v) + rest;
    assert s[1..] == WriteUint(v)[1..] + rest;
    if v <= 0x7f {
    } else if v <= 0xff {
      assert s[1..][1..] == rest;
    } else if v <= 0xffff {
      ReadBEWritten(2, v, rest);
    } else if v <= 0xffff_ffff {
      ReadBEWritten(4, v, rest);
    } else {
      ReadBEWritten(8, v, rest);
    }
  }

  /** No accepted encoding of `v` is shorter than the one written. */
  lemma UintShortest(s: seq<Byte>)
    ensures var p := ReadUint(s);
            p.Ok? ==> |WriteUint(p.value)| <= |s| - |p.rest|
  {
    Pow256Values();
  }

  /** No accepted header of this many string bytes is shorter than the one written. */
  lemma StrShortest(s: seq<Byte>, b: seq<Byte>)
    requires |b| <= MAX_STR && ReadStrLen(s).Ok? && ReadStrLen(s).value == |b|
    ensures |WriteStr(b)| - |b| <= |s| - |ReadStrLen(s).rest|
  {
    hide FromBE;
  }

  /** Nor, among the headers of binaries, of this many bytes of a binary. */
  lemma BinShortest(s: seq<Byte>, b: seq<Byte>)
    requires s != [] && 0xc4 <= s[0] <= 0xc6 && ReadBinLen(s).Ok? && ReadBinLen(s).value == |b|
    ensures |WriteBin(b)| - |b| <= |s| - |ReadBinLen(s).rest|
  {
    hide FromBE;
    Pow256Values();
  }

  /** Nor of this many entries or elements. */
  lemma HeaderShortest(s: seq<Byte>)
    ensures ReadMapLen(s).Ok? ==> |WriteMapHeader(ReadMapLen(s).value)| <= |s| - |ReadMapLen(s).rest|
    ensures ReadArrayLen(s).Ok? ==> |WriteArrayHeader(ReadArrayLen(s).value)| <= |s| - |ReadArrayLen(s).rest|
  {
    hide FromBE;
    Pow256Values();
  }

  lemma StrRoundTrip(b: seq<Byte>, rest: seq<Byte>)
    requires |b| <= MAX_STR
    ensures Skip(WriteStr(b) + rest) == Ok((), rest)
    ensures Utf8(b) ==> ReadStr(WriteStr(b) + rest) == Ok(b, rest)
  {
    hide Utf8, Skip, WriteStr, ReadStrLen;
    StrLenRoundTrip(b, rest);
    StrLenSkips(WriteStr(b) + rest);
    assert (b + rest)[..|b|] == b && (b + rest)[|b|..] == rest;
  }

  lemma StrLenRoundTrip(b: seq<Byte>, rest: seq<Byte>)
    requires |b| <= MAX_STR
    ensures ReadStrLen(WriteStr(b) + rest) == Ok(|b|, b + rest)
  {
    hide ReadBE;
    var s := WriteStr(b) + rest;
    if |b| <= 31 {
      assert s[1..] == b + rest;
    } else {
      assert s[1..] == [|b|] + (b + rest);
      ReadOne(|b|, b + rest);
    }
  }

  lemma ReadOne(n: Byte, rest: seq<Byte>)
    ensures ReadBE(1, [n] + rest) == Ok(n, rest)
  {
    assert ([n] + rest)[..1] == [n] && ([n] + rest)[1..] == rest;
    assert [n][..0] == [];
  }

  lemma BinRoundTrip(b: seq<Byte>, rest: seq<Byte>)
    requires |b| < TWO_32
    ensures ReadBin(WriteBin(b) + rest) == Ok(b, rest)
  {
    Pow256Values();
    hide BE, ReadBE;
    var s := WriteBin(b) + rest;
    assert (b + rest)[..|b|] == b && (b + rest)[|b|..] == rest;
    if |b| <= 0xff {
      assert s[1..] == [|b|] + (b + rest);
      ReadOne(|b|, b + rest);
    } else if |b| <= 0xffff {
      assert s[1..] == BE(2, |b|) + (b + rest);
      ReadBEWritten(2, |b|, b + rest);
    } else {
      assert s[1..] == BE(4, |b|) + (b + rest);
      ReadBEWritten(4, |b|, b + rest);
    }
  }

  lemma HeaderRoundTrip(n: nat, rest: seq<Byte>)
    requires n < TWO_32
    ensures ReadMapLen(WriteMapHeader(n) + rest) == Ok(n, rest)
    ensures ReadArrayLen(WriteArrayHeader(n) + rest) == Ok(n, rest)
  {
    Pow256Values();
    var s, t := WriteMapHeader(n) + rest, WriteArrayHeader(n) + rest;
    if n <= 15 {
      assert s[1..] == rest && t[1..] == rest;
    } else if n <= 0xffff {
      assert s[1..] == BE(2, n) + rest && t[1..] == BE(2, n) + rest;
      ReadBEWritten(2, n, rest);
    } else {
      assert s[1..] == BE(4, n) + rest && t[1..] == BE(4, n) + rest;
      ReadBEWritten(4, n, rest);
    }
  }
}
