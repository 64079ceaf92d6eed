/** Single bits of unsigned words. */
module Bits {
  import opened Machine

  /** `w & (1 << k)`, as a truth value */
  predicate Bit(w: nat, k: nat)
  {
    if k == 0 then w % 2 == 1 else Bit(w / 2, k - 1)
  }

  /** `w | (1 << k)` */
  function SetBit(w: nat, k: nat): nat
  {
    if k == 0 then w / 2 * 2 + 1 else SetBit(w / 2, k - 1) * 2 + w % 2
  }

  /** `w & ~(1 << k)` */
  function ClearBit(w: nat, k: nat): nat
  {
    if k == 0 then w / 2 * 2 else ClearBit(w / 2, k - 1) * 2 + w % 2
  }

  lemma Doubled(h: nat, w: nat)
    ensures (h * 2 + w % 2) / 2 == h && (h * 2 + w % 2) % 2 == w % 2
  {}

  /** Setting a bit changes that bit and no other. */
  lemma {:induction false} SetBitChanges(w: nat, k: nat, j: nat)
    ensures Bit(SetBit(w, k), j) <==> j == k || Bit(w, j)
  {
    if k > 0 {
      Doubled(SetBit(w / 2, k - 1), w);
      if j > 0 { SetBitChanges(w / 2, k - 1, j - 1); }
    } else if j > 0 {
      assert SetBit(w, 0) / 2 == w / 2;
    }
  }

  /** Clearing a bit changes that bit and no other. */
  lemma {:induction false} ClearBitChanges(w: nat, k: nat, j: nat)
    ensures Bit(ClearBit(w, k), j) <==> j != k && Bit(w, j)
  {
    if k > 0 {
      Doubled(ClearBit(w / 2, k - 1), w);
      if j > 0 { ClearBitChanges(w / 2, k - 1, j - 1); }
    } else if j > 0 {
      assert ClearBit(w, 0) / 2 == w / 2;
    }
  }

  lemma {:induction false} ZeroHasNoBits(k: nat)
    ensures !Bit(0, k)
  {
    if k > 0 { ZeroHasNoBits(k - 1); }
  }

  function Pow2(n: nat): (p: nat)
    ensures p > 0
  {
    if n == 0 then 1 else 2 * Pow2(n - 1)
  }

  /** Bit `k` is the one of weight 2^k. */
  lemma {:induction false} BitWeight(w: nat, k: nat)
    ensures Bit(w, k) <==> w / Pow2(k) % 2 == 1
  {
    if k > 0 {
      BitWeight(w / 2, k - 1);
      DivTwice(w, Pow2(k - 1));
    }
  }

  lemma DivTwice(w: nat, b: nat)
    requires b > 0
    ensures w / 2 / b == w / (2 * b)
  {
    var q, r := w / 2 / b, w / 2 % b;
    var whole := q * b;
    assert w / 2 == whole + r;
    assert q * (2 * b) == 2 * whole;
    DivUnique(w, 2 * b, q, 2 * r + w % 2);
  }

  lemma DivUnique(w: nat, d: nat, q: nat, r: nat)
    requires d > 0 && w == q * d + r && r < d
    ensures w / d == q
  {
    var x := w / d;
    assert w == x * d + w % d;
    if x < q { MulOrder(x + 1, q, d); }
    if q < x { MulOrder(q + 1, x, d); }
  }

  lemma HalfWidth(w: nat, n: nat)
    requires n > 0
    ensures w < Pow2(n) <==> w / 2 < Pow2(n - 1)
  {
    assert Pow2(n) == 2 * Pow2(n - 1);
  }

  /** A word stays a word of the same width. */
  lemma {:induction false} SameWidth(w: nat, k: nat, n: nat)
    requires w < Pow2(n) && k < n
    ensures SetBit(w, k) < Pow2(n) && ClearBit(w, k) < Pow2(n)
  {
    hide Pow2;
    HalfWidth(w, n);
    HalfWidth(SetBit(w, k), n);
    HalfWidth(ClearBit(w, k), n);
    if k > 0 {
      SameWidth(w / 2, k - 1, n - 1);
      Doubled(SetBit(w / 2, k - 1), w);
      Doubled(ClearBit(w / 2, k - 1), w);
    }
  }
}
