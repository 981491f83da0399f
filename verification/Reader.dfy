/** The decoding cursor: a position in borrowed bytes that every read advances. */
module Reader {
  import opened Bytes
  import opened Wire

  datatype Result<+T> = Success(value: T) | Failure(error: DecodeError) {
    predicate IsFailure() { Failure? }

    function PropagateFailure<U>(): Result<U>
      requires Failure?
    {
      Failure(error)
    }

    function Extract(): T
      requires Success?
    {
      value
    }
  }

  class Reader {
    const data: seq<Byte>
    var pos: nat

    ghost predicate Valid()
      reads this
    {
      pos <= |data|
    }

    /** The unread bytes. */
    ghost function Rest(): seq<Byte>
      reads this
      requires Valid()
    {
      data[pos..]
    }

    /** The result and the new position are those of `p`; after an error only the error counts. */
    ghost predicate Agrees<T>(r: Result<T>, p: Parse<T>)
      reads this
      requires Valid()
    {
      match p
      case Ok(v, rest) => r == Success(v) && Rest() == rest
      case Err(e) => r == Failure(e)
    }

    constructor (data: seq<Byte>)
      ensures Valid() && Rest() == data && this.data == data
    {
      this.data := data;
      pos := 0;
    }

    method Remaining() returns (n: nat)
      requires Valid()
      ensures n == |Rest()|
    {
      n := |data| - pos;
    }

    method ReadByte() returns (r: Result<Byte>)
      requires Valid()
      modifies this
      ensures Valid() && old(pos) <= pos && Agrees(r, Wire.ReadByte(old(Rest())))
    {
      if pos >= |data| { return Failure(UnexpectedEof); }
      r := Success(data[pos]);
      pos := pos + 1;
    }

    method ReadBytes(n: nat) returns (r: Result<seq<Byte>>)
      requires Valid()
      modifies this
      ensures Valid() && old(pos) <= pos && Agrees(r, Wire.ReadBytes(n, old(Rest())))
    {
      if pos + n > |data| { return Failure(UnexpectedEof); }
      assert Rest()[..n] == data[pos..pos + n] && Rest()[n..] == data[pos + n..];
      r := Success(data[pos..pos + n]);
      pos := pos + n;
    }

    /** `read_u16`, `read_u32` and `read_u64` */
    method ReadBE(n: nat) returns (r: Result<nat>)
      requires Valid()
      modifies this
      ensures Valid() && old(pos) <= pos && Agrees(r, Wire.ReadBE(n, old(Rest())))
    {
      var b :- ReadBytes(n);
      r := Success(FromBE(b));
    }

    method ReadMapLen() returns (r: Result<nat>)
      requires Valid()
      modifies this
      ensures Valid() && old(pos) <= pos && Agrees(r, Wire.ReadMapLen(old(Rest())))
    {
      var b :- ReadByte();
      if 0x80 <= b <= 0x8f { r := Success(b - 0x80); }
      else if b == 0xde { r := ReadBE(2); }
      else if b == 0xdf { r := ReadBE(4); }
      else { r := Failure(UnexpectedType("map", b)); }
    }

    method ReadArrayLen() returns (r: Result<nat>)
      requires Valid()
      modifies this
      ensures Valid() && old(pos) <= pos && Agrees(r, Wire.ReadArrayLen(old(Rest())))
    {
      var b :- ReadByte();
      if 0x90 <= b <= 0x9f { r := Success(b - 0x90); }
      else if b == 0xdc { r := ReadBE(2); }
      else if b == 0xdd { r := ReadBE(4); }
      else { r := Failure(UnexpectedType("array", b)); }
    }

    method ReadStr() returns (r: Result<seq<Byte>>)
      requires Valid()
      modifies this
      ensures Valid() && old(pos) <= pos && Agrees(r, Wire.ReadStr(old(Rest())))
    {
      hide Utf8;
      var b :- ReadByte();
      var n;
      if 0xa0 <= b <= 0xbf { n := b - 0xa0; }
      else if b == 0xd9 { n :- ReadBE(1); }
      else if b == 0xda { n :- ReadBE(2); }
      else if b == 0xdb { n :- ReadBE(4); }
      else { return Failure(UnexpectedType("str", b)); }
      var bytes :- ReadBytes(n);
      if !Utf8(bytes) { return Failure(InvalidUtf8); }
      r := Success(bytes);
    }

    method ReadUint() returns (r: Result<U64>)
      requires Valid()
      modifies this
      ensures Valid() && old(pos) <= pos && Agrees(r, Wire.ReadUint(old(Rest())))
    {
      Pow256Values();
      var b :- ReadByte();
      if b <= 0x7f { r := Success(b); }
      else if b == 0xcc { r := ReadByte(); }
      else if b == 0xcd { r := ReadBE(2); }
      else if b == 0xce { r := ReadBE(4); }
      else if b == 0xcf { r := ReadBE(8); }
      else { r := Failure(UnexpectedType("uint", b)); }
    }

    method ReadBin() returns (r: Result<seq<Byte>>)
      requires Valid()
      modifies this
      ensures Valid() && old(pos) <= pos && Agrees(r, Wire.ReadBin(old(Rest())))
    {
      var b :- ReadByte();
      var n;
      if b == 0xc4 { n :- ReadBE(1); }
      else if b == 0xc5 { n :- ReadBE(2); }
      else if b == 0xc6 { n :- ReadBE(4); }
      else if 0xa0 <= b <= 0xbf { n := b - 0xa0; }
      else if b == 0xda { n :- ReadBE(2); }
      else if b == 0xdb { n :- ReadBE(4); }
      else { return Failure(UnexpectedType("bin", b)); }
      r := ReadBytes(n);
    }

    /** Steps over one complete value, recursing once per contained element. */
    method Skip() returns (r: Result<()>)
      requires Valid()
      modifies this
      ensures Valid() && old(pos) <= pos && Agrees(r, Wire.Skip(old(Rest())))
      decreases |data| - pos, 1, 0
    {
      hide SkipMany, FromBE;
      var b :- ReadByte();
      match ShapeOf(b)
      case Never => r := Failure(UnexpectedType("any", b));
      case Fixed(size) => var _ :- ReadBytes(size); r := Success(());
      case Counted(width, extra) =>
        var n :- ReadBE(width);
        var _ :- ReadBytes(n + extra);
        r := Success(());
      case Items(count) => r := SkipItems(count);
      case CountedItems(width, per) =>
        var n :- ReadBE(width);
        r := SkipItems(per * n);
    }

    method SkipItems(n: nat) returns (r: Result<()>)
      requires Valid()
      modifies this
      ensures Valid() && old(pos) <= pos && Agrees(r, SkipMany(n, old(Rest())))
      decreases |data| - pos, 2, 0
    {
      var i := 0;
      while i < n
        invariant 0 <= i <= n && Valid() && old(pos) <= pos
        invariant SkipMany(n - i, Rest()) == SkipMany(n, old(Rest()))
      {
        var _ :- Skip();
        i := i + 1;
      }
      r := Success(());
    }
  }
}
