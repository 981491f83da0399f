/** The strings that the reader accepts are exactly the encodings of Unicode scalar values. */
module Utf8Text {
  import opened Bytes
  import opened Wire

  /** A code point that is not a surrogate. */
  predicate Scalar(c: nat) {
    c < 0x11_0000 && !(0xd800 <= c <= 0xdfff)
  }

  /** One to four bytes, six bits in each but the first. */
  function EncodeScalar(c: nat): (s: seq<Byte>)
    requires Scalar(c)
    ensures s != []
  {
    if c < 0x80 then [c]
    else if c < 0x800 then [0xc0 + c / 64, 0x80 + c % 64]
    else if c < 0x1_0000 then [0xe0 + c / 4096, 0x80 + c / 64 % 64, 0x80 + c % 64]
    else [0xf0 + c / 262144, 0x80 + c / 4096 % 64, 0x80 + c / 64 % 64, 0x80 + c % 64]
  }

  predicate Scalars(text: seq<nat>) {
    forall i :: 0 <= i < |text| ==> Scalar(text[i])
  }

  function EncodeText(text: seq<nat>): seq<Byte>
    requires Scalars(text)
  {
    if text == [] then [] else EncodeScalar(text[0]) + EncodeText(text[1..])
  }

  /** How many bytes the first character takes. */
  function HeadWidth(b: Byte): nat {
    if b <= 0x7f then 1 else if b <= 0xdf then 2 else if b <= 0xef then 3 else 4
  }

  lemma SixBits(high: nat, low: nat)
    requires low < 64
    ensures (64 * high + low) / 64 == high && (64 * high + low) % 64 == low
  {
  }

  lemma NextSixBits(c: nat)
    ensures c / 64 / 64 == c / 4096 && c / 4096 / 64 == c / 262144
  {
  }

  lemma TwoBytes(s: seq<Byte>) returns (c: nat)
    requires |s| >= 2 && 0xc2 <= s[0] <= 0xdf && Continuation(s[1])
    ensures Scalar(c) && EncodeScalar(c) == s[..2]
  {
    var b0: int, b1: int := s[0], s[1];
    c := 64 * (b0 - 0xc0) + (b1 - 0x80);
    SixBits(b0 - 0xc0, b1 - 0x80);
  }

  lemma ThreeBytes(s: seq<Byte>) returns (c: nat)
    requires |s| >= 3 && 0xe0 <= s[0] <= 0xef && Continuation(s[1]) && Continuation(s[2])
    requires (s[0] == 0xe0 ==> s[1] >= 0xa0) && (s[0] == 0xed ==> s[1] <= 0x9f)
    ensures Scalar(c) && EncodeScalar(c) == s[..3]
  {
    var b0: int, b1: int, b2: int := s[0], s[1], s[2];
    var high: nat := 64 * (b0 - 0xe0) + (b1 - 0x80);
    c := 64 * high + (b2 - 0x80);
    SixBits(b0 - 0xe0, b1 - 0x80);
    SixBits(high, b2 - 0x80);
    NextSixBits(c);
  }

  lemma FourBytes(s: seq<Byte>) returns (c: nat)
    requires |s| >= 4 && 0xf0 <= s[0] <= 0xf4 && Continuation(s[1]) && Continuation(s[2]) && Continuation(s[3])
    requires (s[0] == 0xf0 ==> s[1] >= 0x90) && (s[0] == 0xf4 ==> s[1] <= 0x8f)
    ensures Scalar(c) && EncodeScalar(c) == s[..4]
  {
    var b0: int, b1: int, b2: int, b3: int := s[0], s[1], s[2], s[3];
    var top: nat := 64 * (b0 - 0xf0) + (b1 - 0x80);
    var high: nat := 64 * top + (b2 - 0x80);
    c := 64 * high + (b3 - 0x80);
    SixBits(b0 - 0xf0, b1 - 0x80);
    SixBits(top, b2 - 0x80);
    SixBits(high, b3 - 0x80);
    NextSixBits(c);
  }

  /** An accepted string starts with a character. */
  lemma FirstCharacter(s: seq<Byte>) returns (c: nat)
    requires Utf8(s) && s != []
    ensures var w := HeadWidth(s[0]);
            w <= |s| && Scalar(c) && EncodeScalar(c) == s[..w] && Utf8(s[w..])
  {
    hide EncodeScalar, Scalar;
    if s[0] <= 0x7f {
      c := OneByte(s);
    } else if s[0] <= 0xdf {
      c := TwoBytes(s);
    } else if s[0] <= 0xef {
      c := ThreeBytes(s);
    } else {
      c := FourBytes(s);
    }
  }

  lemma OneByte(s: seq<Byte>) returns (c: nat)
    requires s != [] && s[0] <= 0x7f
    ensures Scalar(c) && EncodeScalar(c) == s[..1]
  {
    c := s[0];
  }

  lemma {:induction false} TextOf(s: seq<Byte>) returns (text: seq<nat>)
    requires Utf8(s)
    ensures Scalars(text) && EncodeText(text) == s
    decreases |s|
  {
    hide Utf8, EncodeScalar;
    if s == [] {
      text := [];
    } else {
      var c := FirstCharacter(s);
      var w := HeadWidth(s[0]);
      var more := TextOf(s[w..]);
      text := [c] + more;
      assert text[1..] == more && s == s[..w] + s[w..];
    }
  }

  /** In front of accepted bytes, a character is accepted. */
  lemma CharacterAccepted(c: nat, rest: seq<Byte>)
    requires Scalar(c) && Utf8(rest)
    ensures Utf8(EncodeScalar(c) + rest)
  {
    var s := EncodeScalar(c) + rest;
    assert s[|EncodeScalar(c)|..] == rest;
  }

  lemma {:induction false} TextAccepted(text: seq<nat>)
    requires Scalars(text)
    ensures Utf8(EncodeText(text))
  {
    hide Utf8, EncodeScalar;
    if text == [] {
      NothingAccepted();
    } else {
      TextAccepted(text[1..]);
      CharacterAccepted(text[0], EncodeText(text[1..]));
    }
  }

  lemma NothingAccepted()
    ensures Utf8([])
  {
  }

  /** The reader accepts the bytes of a string exactly if they encode scalar values. */
  lemma Utf8Iff(s: seq<Byte>)
    ensures Utf8(s) <==> exists text: seq<nat> :: Scalars(text) && EncodeText(text) == s
  {
    hide Utf8, EncodeText;
    if Utf8(s) { var text := TextOf(s); }
    forall text: seq<nat> | Scalars(text) && EncodeText(text) == s
      ensures Utf8(s)
    {
      TextAccepted(text);
    }
  }
}
