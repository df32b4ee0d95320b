// Division facts the verifier does not find by itself.
module Arith {
  // Two to a power.
  ghost function Twos(w: nat): (p: nat)
    ensures p > 0
  {
    if w == 0 then 1 else 2 * Twos(w - 1)
  }

  lemma MulStep(a: nat, b: nat, d: nat)
    requires a < b
    ensures a * d + d <= b * d
  {
    assert (a + 1) * d == a * d + d;
    if a + 1 < b {
      MulStep(a, b - 1, d);
      assert b * d == (b - 1) * d + d;
    }
  }

  lemma Fundamental(n: nat, d: nat)
    requires 0 < d
    ensures n == n / d * d + n % d && 0 <= n % d < d && 0 <= n / d
  {
  }

  lemma DivModUnique(q: nat, d: nat, r: nat)
    requires r < d
    ensures (q * d + r) / d == q && (q * d + r) % d == r
  {
    var n := q * d + r;
    Fundamental(n, d);
    if n / d < q {
      MulStep(n / d, q, d);
    } else if n / d > q {
      MulStep(q, n / d, d);
    }
  }

  // An index below q * d has a quotient below q.
  lemma DivBelow(n: nat, q: nat, d: nat)
    requires 0 < d && n < q * d
    ensures 0 <= n / d < q && 0 <= n % d < d && n == n / d * d + n % d
  {
    Fundamental(n, d);
    if q <= n / d {
      if q < n / d { MulStep(q, n / d, d); }
    }
  }

  // Items of width w in blocks of h items: item c, octet i.
  lemma Aligned(c: nat, h: nat, w: nat, i: nat)
    requires 0 < h && i < w
    ensures 0 < h * w
    ensures (c * w + i) / (h * w) == c / h
    ensures (c * w + i) % (h * w) == c % h * w + i < h * w
  {
    Fundamental(c, h);
    var q, r := c / h, c % h;
    MulStep(r, h, w);
    assert c * w + i == q * (h * w) + (r * w + i) by {
      assert (q * h + r) * w == q * (h * w) + r * w;
    }
    DivModUnique(q, h * w, r * w + i);
  }
}
