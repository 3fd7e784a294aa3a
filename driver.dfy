/** `main` of src/main.rs: a 32-level palette (32768 colours) filled into a
    256 by 128 image from its centre, 8-connected, then written as PPM. The
    random shuffle is the parameter `shuffled`; creating `img.ppm` and the
    write errors are outside the model, which returns the bytes written. */
module Driver {
  import opened Colors
  import opened Grid
  import opened Palettes
  import opened Greedy
  import opened Fill
  import opened Ppm

  const NumColors: nat := 32
  const Width: nat := 256
  const Height: nat := 128

  /** The seed of `main`, the centre `(width / 2, height / 2)`. */
  const Centre: Cell := (Width / 2, Height / 2)

  /** `main`: build the palette, take it in the shuffled order, fill, dump.
      The bytes written are a PPM of a complete 8-connected greedy run from
      the centre, and they read back as an image holding every palette
      colour exactly once. */
  method RenderMain(shuffled: seq<Rgb>) returns (out: seq<Byte>, ghost placed: seq<Cell>)
    requires multiset(shuffled) == multiset(Palette(NumColors))
    ensures GreedyRun(EightConnected, Width, Height, Centre, shuffled, placed)
    ensures |placed| == Width * Height
    ensures out == PpmBytes(Width, Height, Painted(Width, Height, shuffled, placed))
    ensures DecodePpm(out) == Some((Width, Height, Painted(Width, Height, shuffled, placed)))
    ensures multiset(Painted(Width, Height, shuffled, placed)) == multiset(Palette(NumColors))
    ensures DecodePpm(out).Some? && DecodePpm(out).value.0 == Width && DecodePpm(out).value.1 == Height
    ensures multiset(DecodePpm(out).value.2) == multiset(Palette(NumColors))
  {
    var colors := BuildPalette(NumColors);
    // `assert!(num_colors.pow(3) == width * height)` holds.
    assert |colors| == Width * Height;
    assert |shuffled| == |multiset(shuffled)| == |colors|;
    var r;
    r, placed := Generate(shuffled, Width, Height, Centre, EightConnected);
    var img := r.value;
    out := DumpPpm(img);
    PpmRoundTrip(Width, Height, img.data[..]);
  }
}
