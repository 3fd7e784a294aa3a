/** Facts about multiplication and division on naturals that the solver does not
    find by itself. */
module Arith {

  /** Multiplying both sides of an inequality by a natural number keeps it. */
  lemma {:induction false} MulMonotone(k: nat, a: int, b: int)
    requires a <= b
    ensures k * a <= k * b
  {
    if k > 0 {
      MulMonotone(k - 1, a, b);
      assert k * a == (k - 1) * a + a;
      assert k * b == (k - 1) * b + b;
    }
  }

  /** A row-major offset `y * w + x` with `x < w` lies inside row `y`. */
  lemma {:induction false} RowBounds(w: nat, x: nat, y: nat)
    requires x < w
    ensures y * w <= y * w + x < (y + 1) * w
  {
    assert (y + 1) * w == y * w + w;
  }

  /** Rows further down start further along. */
  lemma {:induction false} RowOrder(w: nat, y1: nat, y2: nat)
    requires y1 < y2
    ensures (y1 + 1) * w <= y2 * w
  {
    MulMonotone(w, y1 + 1, y2);
    assert w * (y1 + 1) == (y1 + 1) * w;
    assert w * y2 == y2 * w;
  }

  /** An offset below `w * h` lies in one of the first `h` rows. */
  lemma {:induction false} QuotientBelow(w: nat, h: nat, i: nat)
    requires i < w * h
    ensures w > 0 && i / w < h
  {
    if w > 0 && i / w >= h {
      MulMonotone(w, h, i / w);
      assert false;
    }
  }

  /** A quotient is at most `m` when the dividend is at most `m` times the divisor. */
  lemma {:induction false} QuotientAtMost(a: nat, k: nat, m: nat)
    requires k > 0 && a <= m * k
    ensures 0 <= a / k <= m
  {
    if a / k > m {
      MulMonotone(k, m + 1, a / k);
      assert false;
    }
  }

  /** A quotient is at least `m` when the dividend is at least `m` times the divisor. */
  lemma {:induction false} QuotientAtLeast(a: nat, k: nat, m: nat)
    requires k > 0 && m * k <= a
    ensures m <= a / k
  {
    if a / k < m {
      MulMonotone(k, a / k + 1, m);
      assert false;
    }
  }

  /** Division by `d` undoes `q * d + r` when `r < d`: quotient `q`, remainder `r`. */
  lemma {:induction false} DivModUnique(q: nat, r: nat, d: nat)
    requires r < d
    ensures (q * d + r) / d == q && (q * d + r) % d == r
  {
    var x := q * d + r;
    QuotientAtLeast(x, d, q);
    QuotientBelow(d, q + 1, x);
  }

  /** Euclid's division by a positive divisor, spelled out. */
  lemma {:induction false} DivMod(a: nat, d: nat)
    requires d > 0
    ensures a == a / d * d + a % d && a % d < d
  {
  }

  /** Regrouping a product of three factors. */
  lemma {:induction false} MulAssoc(a: int, b: int, c: int)
    ensures a * (b * c) == a * b * c
  {
  }

  /** Multiplication distributes over a sum on the left factor. */
  lemma {:induction false} MulAddRight(a: int, b: int, c: int)
    ensures (a + b) * c == a * c + b * c
  {
  }

  /** The offset `ri * n * n + gi * n + bi` of three base-`n` digits, and the
      digits read back from it. */
  lemma {:induction false} Digits(n: nat, ri: nat, gi: nat, bi: nat)
    requires ri < n && gi < n && bi < n
    ensures ri * n * n + gi * n + bi < n * n * n
    ensures (ri * n * n + gi * n + bi) / (n * n) == ri
    ensures (ri * n * n + gi * n + bi) / n % n == gi
    ensures (ri * n * n + gi * n + bi) % n == bi
  {
    var k := ri * n * n + gi * n + bi;
    RowBounds(n, bi, gi);
    RowOrder(n, gi, n);
    MulAssoc(ri, n, n);
    DivModUnique(ri, gi * n + bi, n * n);
    MulAddRight(ri * n, gi, n);
    DivModUnique(ri * n + gi, bi, n);
    DivModUnique(ri, gi, n);
    RowOrder(n * n, ri, n);
    MulAssoc(n, n, n);
  }

  /** An offset below `d * h` is a row below `h` and a column below `d`. */
  lemma {:induction false} Split(k: nat, d: nat, h: nat) returns (q: nat, r: nat)
    requires k < d * h
    ensures q < h && r < d && k == q * d + r
  {
    QuotientBelow(d, h, k);
    DivMod(k, d);
    q, r := k / d, k % d;
  }

  /** Every offset below `n * n * n` is the offset of one digit triple. */
  lemma {:induction false} Decompose(n: nat, k: nat) returns (ri: nat, gi: nat, bi: nat)
    requires k < n * n * n
    ensures ri < n && gi < n && bi < n && k == ri * n * n + gi * n + bi
  {
    var rest;
    ri, rest := Split(k, n * n, n);
    gi, bi := Split(rest, n, n);
    MulAssoc(ri, n, n);
  }
}
