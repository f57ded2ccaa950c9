/** ColorPolicy: the fill color of one glyph. OpenCV hands samples over in
    blue-green-red order, PIL wants red-green-blue. */
module Color {
  import opened Common

  /** The two menu choices: "1) Green only" and "2) Full RGB". */
  datatype ColorMode = Green | TrueColor

  /** A pixel as OpenCV stores it. */
  datatype Bgr = Bgr(b: byte, g: byte, r: byte)

  /** A color as PIL's `fill` takes it. */
  datatype Rgb = Rgb(r: byte, g: byte, b: byte)

  /** The accent color of the green-only mode. */
  const Accent: Rgb := Rgb(0, 255, 0)

  /** The fill color for a cell whose downsampled pixel is `px`. */
  function FillColor(mode: ColorMode, px: Bgr): (c: Rgb)
    ensures mode == Green ==> c == Accent
    ensures mode == TrueColor ==> c.r == px.r && c.g == px.g && c.b == px.b
  {
    match mode
    case Green => Accent
    case TrueColor => Rgb(px.r, px.g, px.b)
  }

  /** cv2.COLOR_RGB2BGR on one pixel, applied to the canvas before it is written. */
  function ToBgr(c: Rgb): (px: Bgr)
    ensures px.r == c.r && px.g == c.g && px.b == c.b
  {
    Bgr(c.b, c.g, c.r)
  }

  /** Green mode ignores the sample entirely. */
  lemma GreenIgnoresPixel(p: Bgr, q: Bgr)
    ensures FillColor(Green, p) == FillColor(Green, q) == Rgb(0, 255, 0)
  {
  }

  /** True color only reorders channels: converting the fill back to OpenCV
      order gives the sample unchanged, so no channel value is altered. */
  lemma TrueColorRoundTrip(p: Bgr)
    ensures ToBgr(FillColor(TrueColor, p)) == p
    ensures multiset{FillColor(TrueColor, p).r, FillColor(TrueColor, p).g, FillColor(TrueColor, p).b}
         == multiset{p.b, p.g, p.r}
  {
  }

  /** Distinct samples give distinct true-color fills. */
  lemma TrueColorInjective(p: Bgr, q: Bgr)
    requires p != q
    ensures FillColor(TrueColor, p) != FillColor(TrueColor, q)
  {
    TrueColorRoundTrip(p);
    TrueColorRoundTrip(q);
  }
}
