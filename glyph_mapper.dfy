/**
 * The per-pixel mapper of the video-to-text converter: the BT.601 luma of a
 * pixel picks a glyph from a dark-to-light ramp, unless a custom glyph is
 * configured in colour mode; the cell keeps the pixel's colour.
 *
 * The luma 0.299 r + 0.587 g + 0.114 b is kept exactly, in thousandths:
 * 299 r + 587 g + 114 b.
 */
module GlyphMapper {
  import opened Wrappers

  newtype byte = x: int | 0 <= x < 256

  /** A pixel as the frame source stores it: blue, green, red (OpenCV's Vec3b). */
  datatype Vec3b = Vec3b(item0: byte, item1: byte, item2: byte)

  /** A colour in red, green, blue order. */
  datatype Rgb = Rgb(r: byte, g: byte, b: byte)

  /** One cell of a text frame: the glyph drawn and the colour of the pixel. */
  datatype PixelInfo = PixelInfo(symbol: char, color: Rgb)

  /** The session switches every stage reads. */
  datatype Settings = Settings(customSymbol: Option<char>, useColors: bool, ansiSupported: bool)

  /** The default ramp, darkest-weighted glyph first. */
  const AsciiChars: string := "@#S%?*+;:,. "

  /** Luma of white, in thousandths. */
  const MaxLumaMilli: nat := 255000

  /** True when every cell shows the custom glyph instead of a ramp glyph. */
  predicate UsesCustomSymbol(s: Settings) {
    s.customSymbol.Some? && s.useColors
  }

  /** BT.601 luma of (r, g, b) in thousandths of a level. */
  function LumaMilli(r: byte, g: byte, b: byte): (y: nat)
    ensures y <= MaxLumaMilli
  {
    299 * r as int + 587 * g as int + 114 * b as int
  }

  /** The weights are positive and sum to 1000: only black has zero luma, only white full luma. */
  lemma LumaExtremes(r: byte, g: byte, b: byte)
    ensures LumaMilli(r, g, b) == 0 <==> r == 0 && g == 0 && b == 0
    ensures LumaMilli(r, g, b) == MaxLumaMilli <==> r == 255 && g == 255 && b == 255
  {
  }

  /** Luma of a pixel read in blue, green, red order. */
  function PixelLuma(px: Vec3b): nat {
    LumaMilli(px.item2, px.item1, px.item0)
  }

  /**
   * The bucket `(int)(Y * (L - 1) / 255)` of a luma Y for the ramp of L
   * glyphs; the luma is non-negative, so truncation is the floor.
   */
  function GlyphIndex(y: nat): (i: nat)
    requires y <= MaxLumaMilli
    ensures i < |AsciiChars|
    ensures y == 0 ==> i == 0
    ensures y == MaxLumaMilli ==> i == |AsciiChars| - 1
  {
    y * (|AsciiChars| - 1) / MaxLumaMilli
  }

  /** A brighter luma never selects an earlier (darker) bucket. */
  lemma GlyphIndexMonotone(y1: nat, y2: nat)
    requires y1 <= y2 <= MaxLumaMilli
    ensures GlyphIndex(y1) <= GlyphIndex(y2)
  {
  }

  /** Maps one pixel to its cell. */
  function MapPixel(px: Vec3b, s: Settings): (cell: PixelInfo)
    ensures cell.color == Rgb(px.item2, px.item1, px.item0)
    ensures UsesCustomSymbol(s) ==> cell.symbol == s.customSymbol.value
    ensures !UsesCustomSymbol(s) ==> cell.symbol == RampGlyph(PixelLuma(px))
  {
    var symbol :=
      if UsesCustomSymbol(s) then s.customSymbol.value
      else RampGlyph(PixelLuma(px));
    PixelInfo(symbol, Rgb(px.item2, px.item1, px.item0))
  }

  /** The ramp glyph `asciiChars[index]` of a luma. */
  function RampGlyph(y: nat): (c: char)
    requires y <= MaxLumaMilli
    ensures c in AsciiChars
  {
    AsciiChars[GlyphIndex(y)]
  }

  /** Position of a glyph in the default ramp (the ramp's glyphs are distinct). */
  function RampPosition(c: char): (i: nat)
    requires c in AsciiChars
    ensures i < |AsciiChars| && AsciiChars[i] == c
  {
    if c == '@' then 0 else if c == '#' then 1 else if c == 'S' then 2
    else if c == '%' then 3 else if c == '?' then 4 else if c == '*' then 5
    else if c == '+' then 6 else if c == ';' then 7 else if c == ':' then 8
    else if c == ',' then 9 else if c == '.' then 10 else 11
  }

  /**
   * Without a custom glyph the ramp position of the chosen glyph is exactly
   * the luma bucket, so a pixel with a brighter luma never gets a darker glyph,
   * and pixels of equal luma get the same glyph.
   */
  lemma MapPixelMonotone(p: Vec3b, q: Vec3b, s: Settings)
    requires !UsesCustomSymbol(s)
    requires PixelLuma(p) <= PixelLuma(q)
    ensures RampPosition(MapPixel(p, s).symbol) == GlyphIndex(PixelLuma(p))
    ensures RampPosition(MapPixel(p, s).symbol) <= RampPosition(MapPixel(q, s).symbol)
    ensures PixelLuma(p) == PixelLuma(q) ==> MapPixel(p, s).symbol == MapPixel(q, s).symbol
  {
    GlyphIndexMonotone(PixelLuma(p), PixelLuma(q));
    var i, j := GlyphIndex(PixelLuma(p)), GlyphIndex(PixelLuma(q));
    RampIsInjective(i, RampPosition(AsciiChars[i]));
    RampIsInjective(j, RampPosition(AsciiChars[j]));
  }

  lemma RampIsInjective(i: nat, j: nat)
    requires i < |AsciiChars| && j < |AsciiChars| && AsciiChars[i] == AsciiChars[j]
    ensures i == j
  {
  }

  /**
   * Without a custom glyph a pixel of zero luma (only black) gets the first
   * glyph of the ramp, and a pixel of full luma (only white) the last one.
   */
  lemma RampEnds(px: Vec3b, s: Settings)
    requires !UsesCustomSymbol(s)
    ensures PixelLuma(px) == 0 ==> MapPixel(px, s).symbol == '@'
    ensures PixelLuma(px) == MaxLumaMilli ==> MapPixel(px, s).symbol == ' '
  {
  }

  /** In custom-glyph mode the glyph does not depend on the pixel. */
  lemma CustomSymbolEverywhere(p: Vec3b, q: Vec3b, s: Settings)
    requires UsesCustomSymbol(s)
    ensures MapPixel(p, s).symbol == MapPixel(q, s).symbol == s.customSymbol.value
  {
  }

  /** Glyphs of the ramp are never line breaks, so the frame's lines are the grid's rows. */
  lemma MapPixelNoLineBreak(px: Vec3b, s: Settings)
    requires UsesCustomSymbol(s) ==> s.customSymbol.value != '\n'
    ensures MapPixel(px, s).symbol != '\n'
  {
  }
}
