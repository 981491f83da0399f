/** Bytes, machine words, and their fixed-width little- and big-endian encodings. */
module Bytes {
  type Byte = b: int | 0 <= b < 256
  type U64 = x: int | 0 <= x < TWO_64

  const TWO_32: nat := 0x1_0000_0000
  const TWO_64: nat := 0x1_0000_0000_0000_0000

  function Pow256(n: nat): (p: nat)
    ensures p > 0
  {
    if n == 0 then 1 else 256 * Pow256(n - 1)
  }

  lemma Pow256Values()
    ensures Pow256(1) == 0x100 && Pow256(2) == 0x1_0000
    ensures Pow256(4) == TWO_32 && Pow256(8) == TWO_64
  {
    assert Pow256(4) == 256 * 256 * Pow256(2);
    assert Pow256(6) == 256 * 256 * Pow256(4);
    assert Pow256(8) == 256 * 256 * Pow256(6);
  }

  /** The `n` least significant base-256 digits of `x`, least significant first. */
  function LE(n: nat, x: nat): (s: seq<Byte>)
    ensures |s| == n
  {
    if n == 0 then [] else [x % 256] + LE(n - 1, x / 256)
  }

  function FromLE(s: seq<Byte>): (x: nat)
    ensures x < Pow256(|s|)
  {
    if s == [] then 0 else s[0] + 256 * FromLE(s[1..])
  }

  /** The `n` least significant base-256 digits of `x`, most significant first. */
  function BE(n: nat, x: nat): (s: seq<Byte>)
    ensures |s| == n
  {
    if n == 0 then [] else BE(n - 1, x / 256) + [x % 256]
  }

  function FromBE(s: seq<Byte>): (x: nat)
    ensures x < Pow256(|s|)
  {
    if s == [] then 0 else 256 * FromBE(s[..|s| - 1]) + s[|s| - 1]
  }

  lemma {:induction false} FromLEInvertsLE(n: nat, x: nat)
    requires x < Pow256(n)
    ensures FromLE(LE(n, x)) == x
  {
    if n > 0 {
      FromLEInvertsLE(n - 1, x / 256);
      assert LE(n, x)[1..] == LE(n - 1, x / 256);
    }
  }

  lemma {:induction false} FromBEInvertsBE(n: nat, x: nat)
    requires x < Pow256(n)
    ensures FromBE(BE(n, x)) == x
  {
    if n > 0 {
      FromBEInvertsBE(n - 1, x / 256);
      assert BE(n, x)[..n - 1] == BE(n - 1, x / 256);
    }
  }

  lemma LEInjective(n: nat, x: nat, y: nat)
    requires x < Pow256(n) && y < Pow256(n) && LE(n, x) == LE(n, y)
    ensures x == y
  {
    FromLEInvertsLE(n, x);
    FromLEInvertsLE(n, y);
  }

  /** Two concatenations whose left parts have one length agree part by part. */
  lemma ConcatInjective<T>(a: seq<T>, b: seq<T>, c: seq<T>, d: seq<T>)
    requires |a| == |c| && a + b == c + d
    ensures a == c && b == d
  {
    assert a == (a + b)[..|a|] && c == (c + d)[..|c|];
    assert b == (a + b)[|a|..] && d == (c + d)[|c|..];
  }

  function Zeros(n: nat): (s: seq<Byte>)
    ensures |s| == n
    ensures forall i :: 0 <= i < n ==> s[i] == 0
  {
    seq(n, _ => 0)
  }

  /** Appending five parts one by one builds their right-nested concatenation. */
  lemma FiveParts(a: seq<Byte>, b: seq<Byte>, c: seq<Byte>, d: seq<Byte>, e: seq<Byte>)
    ensures a + b + c + d + e == a + (b + (c + (d + e)))
  {
  }

  function Flatten<T>(parts: seq<seq<T>>): seq<T>
  {
    if parts == [] then [] else parts[0] + Flatten(parts[1..])
  }
}
