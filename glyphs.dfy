/** LuminanceQuantizer: a grey level picks one glyph of the brightness ramp. */
module Glyphs {
  import opened Common

  /** The ramp from darkest to brightest. */
  const Ramp: string := " .:-=+*#%@"

  /** floor(g / 256 * |Ramp|), then clipped into the ramp. For g in 0..255 the
      float expression of line 85 is exact (g / 256 is a dyadic fraction), so
      the integer quotient models it. */
  function GlyphIndex(g: byte): (i: int)
    ensures 0 <= i < |Ramp|
    ensures i * 256 <= g as int * |Ramp| < (i + 1) * 256
  {
    Clamp((g as int * |Ramp|) / 256, 0, |Ramp| - 1)
  }

  function Glyph(g: byte): (c: char)
    ensures c in Ramp
  {
    Ramp[GlyphIndex(g)]
  }

  /** The clip on line 86 never changes the quotient of line 85. */
  lemma ClipIsIdentity(g: byte)
    ensures 0 <= (g as int * |Ramp|) / 256 <= |Ramp| - 1
    ensures GlyphIndex(g) == (g as int * 10) / 256
  {
  }

  /** Brighter samples never get a darker glyph. */
  lemma GlyphIndexMonotone(g1: byte, g2: byte)
    requires g1 <= g2
    ensures GlyphIndex(g1) <= GlyphIndex(g2)
  {
  }

  lemma GlyphEndpoints()
    ensures Glyph(0) == ' '
    ensures Glyph(255) == '@'
  {
    assert GlyphIndex(255) == 9;
  }

  /** The darkest grey level that maps to ramp entry i: ceil(256 * i / 10). */
  function BucketStart(i: int): (g: byte)
    requires 0 <= i < |Ramp|
  {
    ((256 * i + |Ramp| - 1) / |Ramp|) as byte
  }

  /** Every glyph of the ramp is used: bucket i starts at BucketStart(i), and
      the level just below it still belongs to the previous bucket. */
  lemma BucketStartIsFirst(i: int)
    requires 0 <= i < |Ramp|
    ensures GlyphIndex(BucketStart(i)) == i
    ensures i > 0 ==> GlyphIndex((BucketStart(i) as int - 1) as byte) == i - 1
  {
  }

  /** The ramp has no repeated glyph, so distinct indices are distinct glyphs. */
  lemma RampDistinct()
    ensures forall i, j :: 0 <= i < j < |Ramp| ==> Ramp[i] != Ramp[j]
  {
  }
}
