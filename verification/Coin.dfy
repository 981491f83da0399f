/** Drawing coins: rejection sampling of 64-bit words from a seeded stream. */
module Coin {
  import opened Bytes
  import opened Bits
  import opened Hashing
  import opened SumhashCore
  import opened Sumhash
  import opened Types

  // ---------------------------------------------------------------- the seed

  datatype Seed = Seed(
    partCommitment: Digest, lnProvenWeight: U64, sigCommitment: Digest, signedWeight: U64, messageHash: Digest)
  {
    ghost predicate Valid() {
      |partCommitment| == |sigCommitment| == SUMHASH_SIZE && |messageHash| == SHA256_SIZE
    }
  }

  const DOMAIN_COIN_SEED: seq<Byte> := [0x73, 0x70, 0x63]  // "spc"
  const COIN_GENERATOR_VERSION: Byte := 0
  const COIN_CHOICE_SEED_SIZE: nat := 3 + 1 + SUMHASH_SIZE + 8 + SUMHASH_SIZE + 8 + SHA256_SIZE

  /** The fixed layout that is hashed into the stream. */
  function SeedBytes(s: Seed): seq<Byte> {
    DOMAIN_COIN_SEED + [COIN_GENERATOR_VERSION]
    + (s.partCommitment + (LE(8, s.lnProvenWeight) + (s.sigCommitment + (LE(8, s.signedWeight) + s.messageHash))))
  }

  /** Different seeds are different byte strings. */
  lemma SeedBytesInjective(s: Seed, t: Seed)
    requires s.Valid() && t.Valid() && SeedBytes(s) == SeedBytes(t)
    ensures s == t
  {
    hide LE;
    Pow256Values();
    var d := DOMAIN_COIN_SEED + [COIN_GENERATOR_VERSION];
    var s4, t4 := LE(8, s.signedWeight) + s.messageHash, LE(8, t.signedWeight) + t.messageHash;
    var s3, t3 := s.sigCommitment + s4, t.sigCommitment + t4;
    var s2, t2 := LE(8, s.lnProvenWeight) + s3, LE(8, t.lnProvenWeight) + t3;
    ConcatInjective(d, s.partCommitment + s2, d, t.partCommitment + t2);
    ConcatInjective(s.partCommitment, s2, t.partCommitment, t2);
    ConcatInjective(LE(8, s.lnProvenWeight), s3, LE(8, t.lnProvenWeight), t3);
    ConcatInjective(s.sigCommitment, s4, t.sigCommitment, t4);
    ConcatInjective(LE(8, s.signedWeight), s.messageHash, LE(8, t.signedWeight), t.messageHash);
    LEInjective(8, s.lnProvenWeight, t.lnProvenWeight);
    LEInjective(8, s.signedWeight, t.signedWeight);
  }

  /** `out[at..at + |bytes|].copy_from_slice(bytes)`; returns the position after the copy. */
  method CopyAt(out: array<Byte>, at: nat, bytes: seq<Byte>) returns (next: nat)
    requires at + |bytes| <= out.Length
    modifies out
    ensures next == at + |bytes| && out[..next] == old(out[..at]) + bytes
    ensures forall k :: next <= k < out.Length ==> out[k] == old(out[k])
  {
    forall i | 0 <= i < |bytes| { out[at + i] := bytes[i]; }
    next := at + |bytes|;
  }

  lemma SixParts(a: seq<Byte>, b: seq<Byte>, c: seq<Byte>, d: seq<Byte>, e: seq<Byte>, f: seq<Byte>)
    ensures a + b + c + d + e + f == a + (b + (c + (d + (e + f))))
  {
    FiveParts(a, b, c, d, e);
  }

  method SeedToBytes(s: Seed) returns (out: array<Byte>)
    requires s.Valid()
    ensures fresh(out) && out.Length == COIN_CHOICE_SEED_SIZE && out[..] == SeedBytes(s)
  {
    hide LE;
    out := new Byte[COIN_CHOICE_SEED_SIZE](_ => 0);
    var pos := CopyAt(out, 0, DOMAIN_COIN_SEED);
    pos := CopyAt(out, pos, [COIN_GENERATOR_VERSION]);
    ghost var tag := DOMAIN_COIN_SEED + [COIN_GENERATOR_VERSION];
    assert out[..pos] == tag;
    pos := CopyAt(out, pos, s.partCommitment);
    pos := CopyAt(out, pos, LE(8, s.lnProvenWeight));
    pos := CopyAt(out, pos, s.sigCommitment);
    pos := CopyAt(out, pos, LE(8, s.signedWeight));
    pos := CopyAt(out, pos, s.messageHash);
    assert pos == out.Length && out[..] == out[..pos];
    SixParts(tag, s.partCommitment, LE(8, s.lnProvenWeight), s.sigCommitment, LE(8, s.signedWeight), s.messageHash);
  }

  // ---------------------------------------------------------------- rejection sampling

  /** The largest multiple of the weight that fits below 2^64. */
  function Threshold(weight: U64): (t: nat)
    requires weight > 0
    ensures t <= TWO_64
  {
    (TWO_64 / weight) * weight
  }

  /** The `k`-th 64-bit word of the stream. */
  function Sample(xof: nat -> Byte, k: nat): U64 {
    Word(xof, 8 * k)
  }

  predicate Accepted(xof: nat -> Byte, weight: U64, k: nat)
    requires weight > 0
  {
    Sample(xof, k) < Threshold(weight)
  }

  /** The words below `k * weight` that reduce to `v`. */
  ghost function Preimages(weight: U64, v: nat, k: nat): set<nat>
    requires weight > 0
  {
    set s: nat | s < k * weight && s % weight == v
  }

  lemma {:induction false} PreimageCount(weight: U64, v: nat, k: nat)
    requires weight > 0 && v < weight
    ensures |Preimages(weight, v, k)| == k
  {
    hide Preimages;
    if k == 0 {
      NoPreimages(weight, v);
    } else {
      PreimageCount(weight, v, k - 1);
      NextPreimage(weight, v, k - 1);
    }
  }

  lemma NoPreimages(weight: U64, v: nat)
    requires weight > 0
    ensures Preimages(weight, v, 0) == {}
  {
  }

  lemma NextPreimage(weight: U64, v: nat, k: nat)
    requires weight > 0 && v < weight
    ensures Preimages(weight, v, k + 1) == Preimages(weight, v, k) + {k * weight + v}
    ensures k * weight + v !in Preimages(weight, v, k)
  {
    assert (k + 1) * weight == k * weight + weight;
    QuotientUnique(k * weight + v, k, v, weight);
    forall s: nat | k * weight <= s < (k + 1) * weight && s % weight == v
      ensures s == k * weight + v
    {
      QuotientUnique(s, k, s - k * weight, weight);
    }
  }

  /** Exact uniformity: every coin value has the same number, floor(2^64 / weight), of accepted words. */
  lemma UniformCoins(weight: U64, v: nat)
    requires 0 < weight && v < weight
    ensures |Preimages(weight, v, TWO_64 / weight)| == TWO_64 / weight
    ensures forall s: nat :: s in Preimages(weight, v, TWO_64 / weight) <==> s < Threshold(weight) && s % weight == v
  {
    PreimageCount(weight, v, TWO_64 / weight);
  }

  /** More than half of all words are accepted, whatever the weight. */
  lemma MostSamplesAccepted(weight: U64)
    requires weight > 0
    ensures 2 * Threshold(weight) > TWO_64
  {
    var k := TWO_64 / weight;
    if k == 0 { QuotientUnique(TWO_64, 1, TWO_64 - weight, weight); }
    MulStrict(0, k, weight);
  }

  // ---------------------------------------------------------------- the sequence of coins

  /** How many words before position `q` are acceptable. */
  function CountAccepted(xof: nat -> Byte, weight: U64, q: nat): nat
    requires weight > 0
  {
    if q == 0 then 0 else CountAccepted(xof, weight, q - 1) + if Accepted(xof, weight, q - 1) then 1 else 0
  }

  /** The word at `q` is acceptable and `i` acceptable words come before it. */
  ghost predicate IsCoin(xof: nat -> Byte, weight: U64, i: nat, q: nat)
    requires weight > 0
  {
    Accepted(xof, weight, q) && CountAccepted(xof, weight, q) == i
  }

  /** The stream has an `i`-th coin; if it has none, asking for it never returns. */
  ghost predicate Yields(xof: nat -> Byte, weight: U64, i: nat)
    requires weight > 0
  {
    exists q: nat :: IsCoin(xof, weight, i, q)
  }

  /** The position of the word behind the `i`-th coin. */
  ghost function CoinPosition(xof: nat -> Byte, weight: U64, i: nat): (q: nat)
    requires weight > 0 && Yields(xof, weight, i)
    ensures IsCoin(xof, weight, i, q)
  {
    var q: nat :| IsCoin(xof, weight, i, q);
    q
  }

  /** The `i`-th coin. */
  ghost function CoinAt(xof: nat -> Byte, weight: U64, i: nat): (coin: nat)
    requires weight > 0 && Yields(xof, weight, i)
    ensures coin < weight
  {
    Sample(xof, CoinPosition(xof, weight, i)) % weight
  }

  /** A coin is congruent to its word, modulo the weight. */
  ghost predicate Congruent(word: nat, coin: nat, weight: nat) {
    coin < weight && exists k: nat :: Times(k, weight) + coin == word
  }

  function Times(k: nat, weight: nat): nat { k * weight }

  lemma CoinCongruent(xof: nat -> Byte, weight: U64, i: nat)
    requires weight > 0 && Yields(xof, weight, i)
    ensures Congruent(Sample(xof, CoinPosition(xof, weight, i)), CoinAt(xof, weight, i), weight)
  {
    hide Sample, Yields, IsCoin;
    RemainderCongruent(Sample(xof, CoinPosition(xof, weight, i)), weight);
  }

  lemma RemainderCongruent(word: nat, weight: nat)
    requires weight > 0
    ensures Congruent(word, word % weight, weight)
  {
    var k := word / weight;
    assert Times(k, weight) + word % weight == word;
  }

  /** The `i`-th coin is `v` exactly if its word is one of those that `UniformCoins` counts for `v`. */
  lemma CoinIff(xof: nat -> Byte, weight: U64, i: nat, v: nat)
    requires weight > 0 && Yields(xof, weight, i)
    ensures CoinAt(xof, weight, i) == v
       <==> Sample(xof, CoinPosition(xof, weight, i)) in Preimages(weight, v, TWO_64 / weight)
  {
    hide Sample, Yields, CoinAt, CountAccepted, Preimages, Congruent;
    CoinCongruent(xof, weight, i);
    CongruentIff(Sample(xof, CoinPosition(xof, weight, i)), CoinAt(xof, weight, i), weight, v, TWO_64 / weight);
  }

  lemma CongruentIff(word: nat, coin: nat, weight: U64, v: nat, k: nat)
    requires weight > 0 && Congruent(word, coin, weight) && word < k * weight
    ensures coin == v <==> word in Preimages(weight, v, k)
  {
    var q: nat :| Times(q, weight) + coin == word;
    QuotientUnique(word, q, coin, weight);
  }

  lemma {:induction false} CountMonotone(xof: nat -> Byte, weight: U64, p: nat, q: nat)
    requires weight > 0 && p < q && Accepted(xof, weight, p)
    ensures CountAccepted(xof, weight, p) < CountAccepted(xof, weight, q)
    decreases q - p
  {
    if p < q - 1 { CountMonotone(xof, weight, p, q - 1); }
  }

  /**
   The coins are exactly the acceptable words of the stream, in stream order: a word is behind the
   `i`-th coin if and only if it is acceptable and `i` acceptable words come before it.
   */
  lemma CoinsAreAcceptedWords(xof: nat -> Byte, weight: U64, i: nat, q: nat)
    requires weight > 0
    ensures Yields(xof, weight, i) && CoinPosition(xof, weight, i) == q
       <==> Accepted(xof, weight, q) && CountAccepted(xof, weight, q) == i
  {
    hide Accepted;
    if IsCoin(xof, weight, i, q) {
      var p := CoinPosition(xof, weight, i);
      if p < q { CountMonotone(xof, weight, p, q); }
      if q < p { CountMonotone(xof, weight, q, p); }
    }
  }

  /** A stream yields every coin exactly if acceptable words never run out. */
  lemma EveryCoinIff(xof: nat -> Byte, weight: U64)
    requires weight > 0
    ensures (forall i: nat :: Yields(xof, weight, i)) <==> forall p: nat :: AcceptedFrom(xof, weight, p)
  {
    hide Accepted;
    if forall i: nat :: Yields(xof, weight, i) {
      forall p: nat
        ensures AcceptedFrom(xof, weight, p)
      {
        assert Yields(xof, weight, CountAccepted(xof, weight, p));
        var q := CoinPosition(xof, weight, CountAccepted(xof, weight, p));
        if q < p { CountMonotone(xof, weight, q, p); }
      }
    }
    if forall p: nat :: AcceptedFrom(xof, weight, p) {
      forall i: nat
        ensures Yields(xof, weight, i)
      {
        var q := CoinBehind(xof, weight, i);
      }
    }
  }

  ghost predicate AcceptedFrom(xof: nat -> Byte, weight: U64, p: nat)
    requires weight > 0
  {
    exists q: nat :: p <= q && Accepted(xof, weight, q)
  }

  lemma {:induction false} CoinBehind(xof: nat -> Byte, weight: U64, i: nat) returns (q: nat)
    requires weight > 0 && forall p: nat :: AcceptedFrom(xof, weight, p)
    ensures IsCoin(xof, weight, i, q)
  {
    hide Accepted;
    var p := 0;
    if i > 0 {
      var before := CoinBehind(xof, weight, i - 1);
      p := before + 1;
    }
    assert AcceptedFrom(xof, weight, p);
    var some: nat :| p <= some && Accepted(xof, weight, some);
    q := FirstCoin(xof, weight, p, some);
  }

  lemma {:induction false} FirstCoin(xof: nat -> Byte, weight: U64, p: nat, some: nat) returns (q: nat)
    requires weight > 0 && p <= some && Accepted(xof, weight, some)
    ensures IsCoin(xof, weight, CountAccepted(xof, weight, p), q)
    decreases some - p
  {
    if Accepted(xof, weight, p) { q := p; } else { q := FirstCoin(xof, weight, p + 1, some); }
  }

  class CoinGenerator {
    const xof: nat -> Byte
    const signedWeight: U64
    const threshold: nat
    /** Bytes read so far. */
    var pos: nat
    /** Coins drawn so far. */
    ghost var drawn: nat

    /** Among the words read so far there are as many acceptable ones as coins drawn. */
    ghost predicate Valid()
      reads this
    {
      && signedWeight > 0 && threshold == Threshold(signedWeight)
      && pos % 8 == 0 && CountAccepted(xof, signedWeight, pos / 8) == drawn
    }

    /** A zero weight would divide by zero. */
    constructor (shake: Xof, seed: Seed)
      requires seed.Valid() && seed.signedWeight > 0
      ensures Valid() && drawn == 0
      ensures xof == shake(SeedBytes(seed)) && signedWeight == seed.signedWeight
    {
      var bytes := SeedToBytes(seed);
      xof := shake(bytes[..]);
      signedWeight := seed.signedWeight;
      threshold := (TWO_64 / seed.signedWeight) * seed.signedWeight;
      pos, drawn := 0, 0;
    }

    /** Reads words until one is acceptable, which happens exactly if the stream has another coin. */
    method NextCoin() returns (coin: U64)
      requires Valid() && Yields(xof, signedWeight, drawn)
      modifies this
      ensures Valid() && drawn == old(drawn) + 1
      ensures coin == CoinAt(xof, signedWeight, old(drawn))
      ensures Congruent(Sample(xof, CoinPosition(xof, signedWeight, old(drawn))), coin, signedWeight)
    {
      hide Threshold, Word, FromLE, Slice;
      ghost var target := CoinPosition(xof, signedWeight, drawn);
      ghost var k := pos / 8;
      if target < k { CountMonotone(xof, signedWeight, target, k); }
      var sample := FromLE(Slice(xof, pos, 8));
      SampleAt(xof, k);
      pos := pos + 8;
      while sample >= threshold
        invariant k <= target && pos == 8 * (k + 1) && sample == Sample(xof, k)
        invariant drawn == old(drawn) && CountAccepted(xof, signedWeight, k) == drawn
        decreases target - k
      {
        sample := FromLE(Slice(xof, pos, 8));
        k := k + 1;
        SampleAt(xof, k);
        pos := pos + 8;
      }
      CoinsAreAcceptedWords(xof, signedWeight, drawn, k);
      coin := sample % signedWeight;
      CoinCongruent(xof, signedWeight, drawn);
      drawn := drawn + 1;
    }
  }

  lemma SampleAt(xof: nat -> Byte, k: nat)
    ensures FromLE(Slice(xof, 8 * k, 8)) == Sample(xof, k)
  {
  }
}
