/** `Image::dump_ppm` of src/image.rs (lines 64-81) and src/main.rs (lines
    141-160): a binary PPM ("P6") header, then the pixels row by row, three
    bytes each. The writer is modelled as the byte sequence it receives. */
module Ppm {
  import opened Colors
  import opened Images

  datatype Option<T> = None | Some(value: T)

  /** ASCII codes used by the header. */
  const Zero: Byte := 48      // '0'
  const Space: Byte := 32     // ' '
  const Newline: Byte := 10   // '\n'

  predicate IsDigit(b: Byte)
  {
    Zero <= b <= Zero + 9
  }

  /** `format!("{}", n)` for a `usize`: decimal digits, most significant first. */
  function Decimal(n: nat): (s: seq<Byte>)
    ensures |s| > 0 && forall i :: 0 <= i < |s| ==> IsDigit(s[i])
    ensures s[0] == Zero <==> n == 0
  {
    if n < 10 then [Zero + n] else Decimal(n / 10) + [Zero + n % 10]
  }

  /** The text `"P6\n{width} {height}\n255\n"`. */
  function Header(w: nat, h: nat): (hdr: seq<Byte>)
    ensures |hdr| == |Decimal(w)| + |Decimal(h)| + 9
    ensures hdr[..3] == [80, 54, Newline] && hdr[|hdr| - 4..] == [50, 53, 53, Newline]
  {
    [80, 54, Newline] + Decimal(w) + [Space] + Decimal(h) + [Newline, 50, 53, 53, Newline]
  }

  /** The bytes `r, g, b` of every pixel, in buffer order. */
  function PixelBytes(pix: seq<Rgb>): (bs: seq<Byte>)
    ensures |bs| == 3 * |pix|
  {
    if pix == [] then []
    else
      var p := pix[|pix| - 1];
      PixelBytes(pix[..|pix| - 1]) + [p.r, p.g, p.b]
  }

  /** Everything `dump_ppm` writes for a `w` by `h` image holding `pix`. */
  function PpmBytes(w: nat, h: nat, pix: seq<Rgb>): (bs: seq<Byte>)
    ensures |bs| == |Header(w, h)| + 3 * |pix| && bs[..|Header(w, h)|] == Header(w, h)
  {
    Header(w, h) + PixelBytes(pix)
  }

  /** `dump_ppm`: the header in one write, then one three-byte write per
      pixel. The output is the header followed by exactly `3 * width * height`
      bytes. I/O errors of the writer are not modelled. */
  method DumpPpm(img: Image<Rgb>) returns (out: seq<Byte>)
    requires img.Valid()
    ensures out == PpmBytes(img.width, img.height, img.data[..])
    ensures |out| == |Header(img.width, img.height)| + 3 * (img.width * img.height)
  {
    out := Header(img.width, img.height);
    for i := 0 to img.data.Length
      invariant out == Header(img.width, img.height) + PixelBytes(img.data[..i])
    {
      var p := img.data[i];
      assert img.data[..i + 1][..i] == img.data[..i];
      out := out + [p.r, p.g, p.b];
    }
    assert img.data[..img.data.Length] == img.data[..];
  }

  // ---------------------------------------------------------------------------
  // Reading the bytes back: the partner of the writer.

  /** How many digits `s` starts with. */
  function DigitRun(s: seq<Byte>): (k: nat)
    ensures k <= |s|
  {
    if s == [] || !IsDigit(s[0]) then 0 else 1 + DigitRun(s[1..])
  }

  /** The number a sequence of decimal digits spells. */
  function DigitsValue(ds: seq<Byte>): nat
  {
    if ds == [] then 0
    else
      var d := ds[|ds| - 1];
      10 * DigitsValue(ds[..|ds| - 1]) + (if IsDigit(d) then d - Zero else 0)
  }

  /** Splits `s` into the number its leading digits spell and what follows
      the terminator `stop`, if `s` is at least one digit then `stop`. */
  function ParseNumber(s: seq<Byte>, stop: Byte): Option<(nat, seq<Byte>)>
  {
    var k := DigitRun(s);
    if k == 0 || k == |s| || s[k] != stop then None
    else Some((DigitsValue(s[..k]), s[k + 1..]))
  }

  /** Groups bytes three by three into pixels. */
  function Pixels(bs: seq<Byte>): seq<Rgb>
    requires |bs| % 3 == 0
  {
    if bs == [] then []
    else Pixels(bs[..|bs| - 3]) + [Rgb(bs[|bs| - 3], bs[|bs| - 2], bs[|bs| - 1])]
  }

  /** A reader for exactly the files `dump_ppm` writes: the magic line, the
      two dimensions, the maximum 255, then `3 * width * height` bytes. */
  function DecodePpm(bs: seq<Byte>): Option<(nat, nat, seq<Rgb>)>
  {
    if |bs| < 3 || bs[..3] != [80, 54, Newline] then None
    else DecodeDimensions(bs[3..])
  }

  /** The `"{width} {height}\n"` line, then the rest. */
  function DecodeDimensions(s: seq<Byte>): Option<(nat, nat, seq<Rgb>)>
  {
    match ParseNumber(s, Space)
    case None => None
    case Some((w, afterWidth)) =>
      match ParseNumber(afterWidth, Newline)
      case None => None
      case Some((h, afterHeight)) => DecodeBody(w, h, afterHeight)
  }

  /** The `"255\n"` line, then exactly `3 * w * h` pixel bytes. */
  function DecodeBody(w: nat, h: nat, s: seq<Byte>): Option<(nat, nat, seq<Rgb>)>
  {
    if |s| < 4 || s[..4] != [50, 53, 53, Newline] || |s| - 4 != 3 * (w * h) then None
    else Some((w, h, Pixels(s[4..])))
  }

  /** A run of digits ends at the first byte that is not one. */
  lemma {:induction false} DigitRunStops(ds: seq<Byte>, b: Byte, rest: seq<Byte>)
    requires forall i :: 0 <= i < |ds| ==> IsDigit(ds[i])
    requires !IsDigit(b)
    ensures DigitRun(ds + [b] + rest) == |ds|
  {
    if ds != [] {
      DigitRunStops(ds[1..], b, rest);
      assert (ds + [b] + rest)[1..] == ds[1..] + [b] + rest;
    } else {
      assert (ds + [b] + rest)[0] == b;
    }
  }

  /** Reading a number back gives the number written. */
  lemma {:induction false} DecimalValue(n: nat)
    ensures DigitsValue(Decimal(n)) == n
  {
    if n >= 10 {
      DecimalValue(n / 10);
      var ds := Decimal(n);
      assert ds[..|ds| - 1] == Decimal(n / 10);
    }
  }

  /** A written number followed by its terminator parses back. */
  lemma {:induction false} ParseDecimal(n: nat, stop: Byte, rest: seq<Byte>)
    requires !IsDigit(stop)
    ensures ParseNumber(Decimal(n) + [stop] + rest, stop) == Some((n, rest))
  {
    var ds := Decimal(n);
    var s := ds + [stop] + rest;
    DigitRunStops(ds, stop, rest);
    DecimalValue(n);
    assert s[..|ds|] == ds;
    assert s[|ds| + 1..] == rest;
  }

  /** Grouping the written pixel bytes gives the pixels back. */
  lemma {:induction false} PixelsRoundTrip(pix: seq<Rgb>)
    ensures Pixels(PixelBytes(pix)) == pix
  {
    if pix != [] {
      var init := pix[..|pix| - 1];
      PixelsRoundTrip(init);
      var bs := PixelBytes(pix);
      assert bs[..|bs| - 3] == PixelBytes(init);
      assert pix == init + [pix[|pix| - 1]];
    }
  }

  /** The last header line and the pixel bytes read back as the pixels. */
  lemma {:induction false} BodyRoundTrip(w: nat, h: nat, pix: seq<Rgb>)
    requires |pix| == w * h
    ensures DecodeBody(w, h, [50, 53, 53, Newline] + PixelBytes(pix)) == Some((w, h, pix))
  {
    var s := [50, 53, 53, Newline] + PixelBytes(pix);
    assert s[..4] == [50, 53, 53, Newline];
    assert s[4..] == PixelBytes(pix);
    PixelsRoundTrip(pix);
  }

  /** The dimension line reads back as the two dimensions. */
  lemma {:induction false} DimensionsRoundTrip(w: nat, h: nat, rest: seq<Byte>)
    ensures DecodeDimensions(Decimal(w) + [Space] + Decimal(h) + [Newline] + rest)
            == DecodeBody(w, h, rest)
  {
    var afterWidth := Decimal(h) + [Newline] + rest;
    assert Decimal(w) + [Space] + Decimal(h) + [Newline] + rest == Decimal(w) + [Space] + afterWidth;
    ParseDecimal(w, Space, afterWidth);
    ParseDecimal(h, Newline, rest);
  }

  /** What `dump_ppm` writes for a `w` by `h` image reads back as that image. */
  lemma {:induction false} PpmRoundTrip(w: nat, h: nat, pix: seq<Rgb>)
    requires |pix| == w * h
    ensures DecodePpm(PpmBytes(w, h, pix)) == Some((w, h, pix))
  {
    var body := [50, 53, 53, Newline] + PixelBytes(pix);
    var dims := Decimal(w) + [Space] + Decimal(h) + [Newline] + body;
    var bs := PpmBytes(w, h, pix);
    assert bs == [80, 54, Newline] + dims;
    assert bs[..3] == [80, 54, Newline] && bs[3..] == dims;
    DimensionsRoundTrip(w, h, body);
    BodyRoundTrip(w, h, pix);
  }
}
