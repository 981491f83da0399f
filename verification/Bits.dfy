/** Powers of two, sibling positions and the bit reversal that addresses vector commitments. */
module Bits {
  function Pow2(n: nat): (p: nat)
    ensures p > 0
  {
    if n == 0 then 1 else 2 * Pow2(n - 1)
  }

  lemma {:induction false} Pow2Add(m: nat, n: nat)
    ensures Pow2(m + n) == Pow2(m) * Pow2(n)
  {
    if m > 0 {
      Pow2Add(m - 1, n);
      DoubleProduct(Pow2(m - 1), Pow2(n));
    }
  }

  lemma DoubleProduct(a: nat, b: nat)
    ensures 2 * (a * b) == (2 * a) * b
  {
  }

  lemma {:induction false} Pow2Monotone(m: nat, n: nat)
    requires m < n
    ensures Pow2(m) < Pow2(n)
  {
    if m < n - 1 { Pow2Monotone(m, n - 1); }
  }

  /** `i ^ 1`: the position of the other child of the same parent. */
  function Sibling(i: nat): (j: nat)
    ensures j != i && j / 2 == i / 2
  {
    if i % 2 == 0 then i + 1 else i - 1
  }

  /** Bit `b` at the top of a word of `w` bits. */
  function TopBit(w: nat, b: nat): nat
    requires w > 0
  {
    if b == 0 then 0 else Pow2(w - 1)
  }

  /** The `w` least significant bits of `x` in reverse order. */
  function ReverseBits(w: nat, x: nat): (r: nat)
    ensures r < Pow2(w)
  {
    if w == 0 then 0 else TopBit(w, x % 2) + ReverseBits(w - 1, x / 2)
  }

  lemma TopBitDouble(w: nat, b: nat)
    requires w > 1
    ensures TopBit(w, b) == 2 * TopBit(w - 1, b)
  {
  }

  lemma ReverseStep(w: nat, x: nat)
    requires w > 0
    ensures ReverseBits(w, x) == TopBit(w, x % 2) + ReverseBits(w - 1, x / 2)
  {
  }

  lemma HalfSum(t: nat, z: nat)
    ensures (2 * t + z) / 2 == t + z / 2 && (2 * t + z) % 2 == z % 2
  {
  }

  lemma ReverseOneBit(b: nat)
    requires b < 2
    ensures ReverseBits(1, b) == b && TopBit(1, b) == b
  {
    ReverseStep(1, b);
  }

  /** The most significant of the `w` bits of `x` becomes the least significant one. */
  lemma {:induction false} ReverseTopBit(w: nat, b: nat, z: nat)
    requires w > 0 && b < 2 && z < Pow2(w - 1)
    ensures ReverseBits(w, TopBit(w, b) + z) == 2 * ReverseBits(w - 1, z) + b
  {
    if w == 1 {
      ReverseOneBit(b);
    } else {
      assert z / 2 < Pow2(w - 2) by { assert Pow2(w - 1) == 2 * Pow2(w - 2); }
      ReverseTopBit(w - 1, b, z / 2);
      ReverseTopBitStep(w, b, z);
    }
  }

  lemma ReverseTopBitStep(w: nat, b: nat, z: nat)
    requires w > 1 && ReverseBits(w - 1, TopBit(w - 1, b) + z / 2) == 2 * ReverseBits(w - 2, z / 2) + b
    ensures ReverseBits(w, TopBit(w, b) + z) == 2 * ReverseBits(w - 1, z) + b
  {
    hide ReverseBits, TopBit, Pow2;
    TopBitDouble(w, b);
    HalfSum(TopBit(w - 1, b), z);
    ReverseStep(w, TopBit(w, b) + z);
    TopBitDouble(w, z % 2);
    ReverseStep(w - 1, z);
  }

  lemma {:induction false} ReverseInvolution(w: nat, x: nat)
    requires x < Pow2(w)
    ensures ReverseBits(w, ReverseBits(w, x)) == x
  {
    if w > 0 {
      ReverseInvolution(w - 1, x / 2);
      ReverseTopBit(w, x % 2, ReverseBits(w - 1, x / 2));
    }
  }

  /** Shifting a reversed word right keeps the reversal of its low bits. */
  lemma {:induction false} ReverseThenShift(w: nat, d: nat, x: nat)
    requires d <= w
    ensures ReverseBits(w, x) / Pow2(w - d) == ReverseBits(d, x)
  {
    if d == 0 {
      QuotientUnique(ReverseBits(w, x), 0, ReverseBits(w, x), Pow2(w));
    } else {
      var r, r' := ReverseBits(w - 1, x / 2), ReverseBits(d - 1, x / 2);
      assert r / Pow2(w - d) == r' by {
        ReverseThenShift(w - 1, d - 1, x / 2);
      }
      ShiftStep(w, d, x % 2, r);
    }
  }

  lemma ShiftStep(w: nat, d: nat, b: nat, r: nat)
    requires 0 < d <= w
    ensures (TopBit(w, b) + r) / Pow2(w - d) == TopBit(d, b) + r / Pow2(w - d)
  {
    Pow2Add(d - 1, w - d);
    DivideSum(TopBit(d, b), r, Pow2(w - d));
  }

  lemma DivideSum(a: nat, b: nat, p: nat)
    requires p > 0
    ensures (a * p + b) / p == a + b / p
  {
    var q, r := b / p, b % p;
    assert a * p + b == (a + q) * p + r;
    QuotientUnique(a * p + b, a + q, r, p);
  }

  /** `x >> n` */
  function ShiftRight(x: nat, n: nat): nat
    decreases n
  {
    if n == 0 then x else ShiftRight(x / 2, n - 1)
  }

  lemma {:induction false} ShiftDivides(x: nat, n: nat)
    ensures ShiftRight(x, n) == x / Pow2(n)
    decreases n
  {
    if n > 0 {
      ShiftDivides(x / 2, n - 1);
      DivideByDouble(x, Pow2(n - 1));
    }
  }

  /** Halving `x` first is the first step of dividing it by `2m`. */
  lemma DivideByDouble(x: nat, m: nat)
    requires m > 0
    ensures x / (2 * m) == x / 2 / m && x % (2 * m) == 2 * (x / 2 % m) + x % 2
  {
    var h, y := x / 2, x % 2;
    var q, r := h / m, h % m;
    assert 2 * (q * m) == q * (2 * m);
    QuotientUnique(x, q, 2 * r + y, 2 * m);
  }

  lemma MulStrict(a: int, b: int, p: nat)
    requires a < b
    ensures a * p + p <= b * p
  {
    assert b * p == a * p + p + (b - a - 1) * p;
  }

  lemma QuotientUnique(n: nat, q: nat, r: nat, p: nat)
    requires p > 0 && r < p && n == q * p + r
    ensures n / p == q && n % p == r
  {
    var q', r' := n / p, n % p;
    assert n == q' * p + r';
    if q' > q {
      MulStrict(q, q', p);
    } else if q' < q {
      MulStrict(q', q, p);
    }
  }

  /** Only the low `w` bits of `x` matter. */
  lemma {:induction false} ReverseLowBits(w: nat, x: nat)
    ensures ReverseBits(w, x) == ReverseBits(w, x % Pow2(w))
  {
    if w > 0 {
      hide ReverseBits;
      var h := x / 2;
      DivideByDouble(x, Pow2(w - 1));
      ReverseLowBits(w - 1, h);
      ReverseStep(w, x);
      ReverseStep(w, x % Pow2(w));
    }
  }

  /** The least `d` with `n <= 2^d`: the exponent of `n.next_power_of_two()`. */
  function CeilLog2(n: nat): (d: nat)
    requires n > 0
    ensures n <= Pow2(d) && (d > 0 ==> Pow2(d - 1) < n)
  {
    if n == 1 then 0 else 1 + CeilLog2((n + 1) / 2)
  }

  lemma CeilLog2Unique(n: nat, d: nat)
    requires n > 0 && n <= Pow2(d) && (d > 0 ==> Pow2(d - 1) < n)
    ensures CeilLog2(n) == d
  {
    var c := CeilLog2(n);
    if c < d { if c < d - 1 { Pow2Monotone(c, d - 1); } }
    if d < c { if d < c - 1 { Pow2Monotone(d, c - 1); } }
  }
}
