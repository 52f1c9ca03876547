/** Powers of two and the few facts about multiplication and division the
    Huffman model needs; shifts `x << n` in the source are `x * Pow2(n)` here. */
module Arith {

  function Pow2(n: nat): (r: nat)
    ensures r >= 1
  {
    if n == 0 then 1 else 2 * Pow2(n - 1)
  }

  lemma {:induction false} Pow2Add(a: nat, b: nat)
    ensures Pow2(a + b) == Pow2(a) * Pow2(b)
  {
    if a > 0 {
      Pow2Add(a - 1, b);
      assert Pow2(a + b) == 2 * Pow2(a - 1 + b);
    }
  }

  /** The powers behind the source's integer widths. */
  lemma Pow2Widths()
    ensures Pow2(15) == 0x8000 && Pow2(16) == 0x1_0000 && Pow2(32) == 0x1_0000_0000
  {
    assert Pow2(4) == 16;
    Pow2Add(4, 4);
    Pow2Add(8, 7);
    Pow2Add(8, 8);
    Pow2Add(16, 16);
  }

  lemma {:induction false} Pow2Monotone(a: nat, b: nat)
    requires a <= b
    ensures Pow2(a) <= Pow2(b)
  {
    if a < b {
      Pow2Monotone(a, b - 1);
    }
  }

  /** Cancelling a positive factor from both sides of `<=`. */
  lemma {:induction false} MulLeCancel(a: nat, b: nat, c: nat)
    requires c > 0 && a * c <= b * c
    ensures a <= b
  {
  }

  lemma {:induction false} DoubleFactor(x: int, p: int)
    ensures 2 * (x * p) == x * (2 * p)
  {
  }

  lemma {:induction false} Distribute(a: int, b: int, c: int)
    ensures (a + b) * c == a * c + b * c
  {
  }

  lemma {:induction false} MulLeMonotone(a: nat, b: nat, c: nat)
    requires a <= b
    ensures a * c <= b * c
  {
  }

  /** The quotient of `b` by `w` is `c` exactly when `b` lies in `[c*w, (c+1)*w)`. */
  lemma {:induction false} DivInRange(b: nat, c: nat, w: nat)
    requires w > 0 && c * w <= b < (c + 1) * w
    ensures b / w == c
  {
    var q, r := b / w, b % w;
    assert b == q * w + r && 0 <= r < w;
    if q < c {
      MulLeMonotone(q + 1, c, w);
    } else if q > c {
      MulLeMonotone(c + 1, q, w);
    }
  }

  /** From `q*p <= w/2 < (q+1)*p` to the same bounds on `w` with `2*p`. */
  lemma {:induction false} DoubleBounds(w: nat, q: nat, p: nat)
    requires q * p <= w / 2 < (q + 1) * p
    ensures q * (2 * p) <= w < (q + 1) * (2 * p)
  {
    DoubleFactor(q, p);
    DoubleFactor(q + 1, p);
  }

  /** The quotient by `p` brackets the dividend. */
  lemma {:induction false} DivBounds(a: nat, p: nat)
    requires p > 0
    ensures (a / p) * p <= a < (a / p + 1) * p
  {
    var q, r := a / p, a % p;
    assert a == q * p + r;
    Distribute(q, 1, p);
  }

  /** Scaling the bounds `c*p <= a < (c+1)*p` by `k >= 1`. */
  lemma {:induction false} ScaleBounds(c: nat, a: nat, p: nat, k: nat)
    requires k >= 1 && c * p <= a < (c + 1) * p
    ensures c * (p * k) <= a * k < (c + 1) * (p * k)
  {
    MulLeMonotone(c * p, a, k);
    MulLeMonotone(a + 1, (c + 1) * p, k);
    Distribute(a, 1, k);
    assert (c * p) * k == c * (p * k);
    assert ((c + 1) * p) * k == (c + 1) * (p * k);
  }

  /** A quotient `a / p == c`, seen at a scale `k` times finer. */
  lemma {:induction false} QuotientScaled(c: nat, a: nat, p: nat, k: nat)
    requires p >= 1 && k >= 1 && a / p == c
    ensures c * (p * k) <= a * k < c * (p * k) + p * k
  {
    DivBounds(a, p);
    ScaleBounds(c, a, p, k);
    Distribute(c, 1, p * k);
  }
}
