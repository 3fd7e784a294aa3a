/** The palette of `main` in src/main.rs (lines 16-32): `num_colors` levels
    per channel, every combination once, red slowest and blue fastest. */
module Palettes {
  import opened Arith
  import opened Colors

  /** Level `i` of `n` as an 8-bit intensity, `i * 255 / n` on `usize`. It
      stays below 255, so `u8::try_from(..).unwrap()` never fails (and the
      top intensity 255 itself is never produced). */
  function Level(i: nat, n: nat): (v: Byte)
    requires i < n
    ensures v < 255
  {
    MulMonotone(255, i + 1, n);
    QuotientBelow(n, 255, i * 255);
    i * 255 / n
  }

  /** With at most 255 levels, a higher level is a strictly higher intensity. */
  lemma {:induction false} LevelIncreasing(i: nat, j: nat, n: nat)
    requires i < j < n <= 255
    ensures Level(i, n) < Level(j, n)
  {
    var q := i * 255 / n;
    assert i * 255 < (q + 1) * n;
    MulMonotone(255, i + 1, j);
    QuotientAtLeast(j * 255, n, q + 1);
  }

  /** With more than 255 levels the first two levels are both intensity 0. */
  lemma {:induction false} LevelCollision(n: nat)
    requires n > 255
    ensures Level(0, n) == Level(1, n) == 0
  {
  }

  /** The colour pushed as the `k`-th palette entry: `k` read as the three
      base-`n` digits red, green, blue. */
  function PaletteColor(n: nat, k: nat): (c: Rgb)
    requires k < n * n * n
    ensures c.r < 255 && c.g < 255 && c.b < 255
  {
    QuotientBelow(n * n, n, k);
    Rgb(Level(k / (n * n), n), Level(k / n % n, n), Level(k % n, n))
  }

  /** The whole palette before it is shuffled: `n.pow(3)` entries. */
  function Palette(n: nat): (p: seq<Rgb>)
    ensures |p| == n * n * n
  {
    seq(n * n * n, k requires 0 <= k < n * n * n => PaletteColor(n, k))
  }

  /** The nested loops push `(Level(ri), Level(gi), Level(bi))` at offset
      `ri * n * n + gi * n + bi`. */
  lemma {:induction false} PaletteAt(n: nat, ri: nat, gi: nat, bi: nat, k: nat)
    requires ri < n && gi < n && bi < n && k == ri * n * n + gi * n + bi
    ensures k < |Palette(n)| && Palette(n)[k] == Rgb(Level(ri, n), Level(gi, n), Level(bi, n))
  {
    Digits(n, ri, gi, bi);
  }

  /** The palette has no repeated colour exactly when there are at most 255
      levels: up to 255 the levels are distinct intensities, from 256 on the
      first two levels collide. */
  lemma {:induction false} PaletteDistinct(n: nat)
    ensures (forall i, j :: 0 <= i < j < |Palette(n)| ==> Palette(n)[i] != Palette(n)[j]) <==> n <= 255
  {
    var p := Palette(n);
    if n <= 255 {
      forall i, j | 0 <= i < j < |p|
        ensures p[i] != p[j]
      {
        var r1, g1, b1 := Decompose(n, i);
        var r2, g2, b2 := Decompose(n, j);
        PaletteAt(n, r1, g1, b1, i);
        PaletteAt(n, r2, g2, b2, j);
        if r1 != r2 {
          if r1 < r2 { LevelIncreasing(r1, r2, n); } else { LevelIncreasing(r2, r1, n); }
        } else if g1 != g2 {
          if g1 < g2 { LevelIncreasing(g1, g2, n); } else { LevelIncreasing(g2, g1, n); }
        } else {
          if b1 < b2 { LevelIncreasing(b1, b2, n); } else { LevelIncreasing(b2, b1, n); }
        }
      }
    } else {
      LevelCollision(n);
      PaletteAt(n, 0, 0, 0, 0);
      PaletteAt(n, 0, 0, 1, 1);
      assert p[0] == p[1];
    }
  }

  /** Lines 21-32 of src/main.rs: the three nested loops pushing one colour
      per digit triple, before the shuffle. */
  method BuildPalette(n: nat) returns (colors: seq<Rgb>)
    ensures colors == Palette(n)
  {
    colors := [];
    for ri := 0 to n
      invariant |colors| == ri * n * n && colors <= Palette(n)
    {
      for gi := 0 to n
        invariant |colors| == ri * n * n + gi * n && colors <= Palette(n)
      {
        for bi := 0 to n
          invariant |colors| == ri * n * n + gi * n + bi && colors <= Palette(n)
        {
          PaletteAt(n, ri, gi, bi, |colors|);
          colors := colors + [Rgb(Level(ri, n), Level(gi, n), Level(bi, n))];
        }
        MulAddRight(gi, 1, n);
      }
      MulAddRight(ri, 1, n);
      MulAddRight(ri * n, n, n);
    }
  }
}
