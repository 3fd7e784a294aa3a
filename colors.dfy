/** Colours and the squared RGB distance used to score candidate cells
    (src/lib.rs and src/main.rs, function color_dist). */
module Colors {
  import opened Arith

  /** An 8-bit intensity, Rust's `u8`. */
  type Byte = x: int | 0 <= x < 256

  /** An RGB colour, the tuple `(u8, u8, u8)` named `Rgb` in the source. */
  datatype Rgb = Rgb(r: Byte, g: Byte, b: Byte)

  /** The colour a fresh image is filled with, `(0, 0, 0)`. */
  const Black: Rgb := Rgb(0, 0, 0)

  /** The largest distance two colours can have: every channel differs by 255. */
  const MaxColorDist: int := 3 * 255 * 255

  /** One past the largest `i32`, the type the source computes distances in. */
  const I32Limit: int := 0x8000_0000

  /** Bounds of the square of a channel difference. */
  lemma {:induction false} SquareOfDifference(d: int)
    requires -255 <= d <= 255
    ensures 0 <= d * d <= 255 * 255
    ensures d * d == 0 <==> d == 0
  {
    var m := if d < 0 then -d else d;
    assert d * d == m * m;
    MulMonotone(m, 0, m);
    MulMonotone(m, m, 255);
    MulMonotone(255, m, 255);
    if m > 0 {
      MulMonotone(m, 1, m);
    }
  }

  /** Sum of the squared per-channel differences, widened to i32 as in the source.
      It is never negative, never above MaxColorDist (so it fits an i32), and zero
      exactly when the colours are equal. */
  function ColorDist(a: Rgb, b: Rgb): (d: int)
    ensures 0 <= d <= MaxColorDist < I32Limit
    ensures d == 0 <==> a == b
  {
    var dr := a.r - b.r;
    var dg := a.g - b.g;
    var db := a.b - b.b;
    SquareOfDifference(dr);
    SquareOfDifference(dg);
    SquareOfDifference(db);
    dr * dr + dg * dg + db * db
  }

  /** The distance does not depend on the order of its arguments. */
  lemma {:induction false} ColorDistSymmetric(a: Rgb, b: Rgb)
    ensures ColorDist(a, b) == ColorDist(b, a)
  {
    assert (a.r - b.r) * (a.r - b.r) == (b.r - a.r) * (b.r - a.r);
    assert (a.g - b.g) * (a.g - b.g) == (b.g - a.g) * (b.g - a.g);
    assert (a.b - b.b) * (a.b - b.b) == (b.b - a.b) * (b.b - a.b);
  }
}
