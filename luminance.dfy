/**
 * The ASCII path: each luminance byte of the resized grey image becomes one
 * glyph of a ten-step ramp, from sparsest to densest.
 */
module Luminance {
  import opened Pixels

  /** The ten glyphs, from the darkest to the brightest value. */
  const AsciiScale: string := " .:-=+*#%@"

  /** The ramp position of a luminance value: v * 9 / 255 truncated. */
  function GlyphIndex(v: Byte): (i: nat)
    ensures i < |AsciiScale|
    ensures i * 255 <= v * 9 < (i + 1) * 255
  {
    (v * 9) / 255
  }

  function Glyph(v: Byte): (c: char)
    ensures c in AsciiScale && c != '\n'
  {
    AsciiScale[GlyphIndex(v)]
  }

  /** Brighter pixels never get a sparser glyph. */
  lemma GlyphIndexMonotone(v: Byte, w: Byte)
    requires v <= w
    ensures GlyphIndex(v) <= GlyphIndex(w)
  {
  }

  /** The darkest value 0 is blank, the brightest 255 is '@', and 128 falls on '='. */
  lemma GlyphLandmarks()
    ensures GlyphIndex(0) == 0 && Glyph(0) == ' '
    ensures GlyphIndex(255) == 9 && Glyph(255) == '@'
    ensures GlyphIndex(128) == 4 && Glyph(128) == '='
  {
  }

  /**
   * The smallest luminance drawn with ramp glyph i, for i in 0..9: every
   * glyph is used, by the band of values from its threshold up.
   */
  function Threshold(i: nat): (v: Byte)
    requires i < |AsciiScale|
    ensures GlyphIndex(v) == i
    ensures v > 0 ==> GlyphIndex(v - 1) == i - 1
  {
    (i * 255 + 8) / 9
  }

  /**
   * The ramp position as imager.py:127 computes it when c[row][col] is a numpy
   * uint8 and NumPy 2 promotion keeps the product c * 9 in uint8: the product
   * wraps modulo 256 before the division by 255.
   */
  function GlyphIndexUint8(v: Byte): (i: nat)
    ensures i <= 1
    ensures i == 1 <==> (v * 9) % 256 == 255
  {
    ((v * 9) % 256) / 255
  }

  /**
   * With the wrapped product the ramp collapses to its first two glyphs:
   * white (255) is drawn blank instead of '@', and brighter is no longer denser.
   */
  lemma Uint8ProductLosesTheRamp()
    ensures GlyphIndexUint8(255) == 0 && GlyphIndex(255) == 9
    ensures GlyphIndexUint8(199) == 1 && GlyphIndexUint8(255) < GlyphIndexUint8(199)
  {
  }

  /**
   * The loop of convertImageToASCII over the resized grey image: one string
   * per row, extended glyph by glyph.
   */
  method ConvertToAscii(c: seq<seq<Byte>>, rows: nat, cols: nat) returns (asciimg: seq<string>)
    requires IsGrid(c, rows, cols)
    ensures |asciimg| == rows
    ensures forall r :: 0 <= r < rows ==>
              |asciimg[r]| == cols && forall k :: 0 <= k < cols ==> asciimg[r][k] == Glyph(c[r][k])
  {
    asciimg := [];
    for row := 0 to rows
      invariant |asciimg| == row
      invariant forall r :: 0 <= r < row ==>
                  |asciimg[r]| == cols && forall k :: 0 <= k < cols ==> asciimg[r][k] == Glyph(c[r][k])
    {
      asciimg := asciimg + [""];
      for col := 0 to cols
        invariant |asciimg| == row + 1
        invariant forall r :: 0 <= r < row ==>
                    |asciimg[r]| == cols && forall k :: 0 <= k < cols ==> asciimg[r][k] == Glyph(c[r][k])
        invariant |asciimg[row]| == col
        invariant forall k :: 0 <= k < col ==> asciimg[row][k] == Glyph(c[row][k])
      {
        var asciiChr := AsciiScale[GlyphIndex(c[row][col])];
        asciimg := asciimg[row := asciimg[row] + [asciiChr]];
      }
    }
  }
}
