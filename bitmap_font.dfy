/**
 * The decoded font shared by the previewer and the firmware (`g_font_t` in
 * font.h, the `Font` dataclass in parse_string.py), its glyph size
 * (`g_font_glyph_size`) and how a character code addresses its glyph.
 */
module BitmapFont {
  import opened Bits
  import PyOps
  import opened GlyphPack

  /** A font: layout mode, cell size, code of glyph 0 and the packed glyph store. */
  datatype Font = Font(monospace: bool, width: nat, height: nat, asciiOffset: nat, glyphs: seq<byte>)

  /** The header fields fit the `uint8_t` fields of `g_font_t`. */
  predicate ByteFields(f: Font)
  {
    f.width < 256 && f.height < 256 && f.asciiOffset < 256
  }

  /**
   * `g_font_glyph_size`: `(g_size_t)ceil(width / 8) * height`, returned as the
   * 16-bit `g_size_t`; the truncation to 16 bits never changes the value.
   */
  function GlyphSize(width: nat, height: nat): (r: nat)
    requires width < 256 && height < 256
    ensures r == WidthBytes(width) * height
    ensures r <= 32 * 255
  {
    var wb := WidthBytes(width);
    MulBound(wb, height, 32, 255);
    (wb * height) % 0x1_0000
  }

  /** Narrow fonts use one byte per row, fonts of 9 to 16 pixels two; empty cells have no bytes. */
  lemma GlyphSizeCases(width: nat, height: nat)
    requires width < 256 && height < 256
    ensures 1 <= width <= 8 ==> GlyphSize(width, height) == height
    ensures 9 <= width <= 16 ==> GlyphSize(width, height) == 2 * height
    ensures width == 0 || height == 0 ==> GlyphSize(width, height) == 0
  {
    WidthBytesSmall(width);
  }

  /** Glyph size of a font. */
  function SizeOf(f: Font): nat
    requires ByteFields(f)
  {
    GlyphSize(f.width, f.height)
  }

  /** Start of the glyph of code `c`: `(c - ascii_offset) * glyph_size`. */
  function GlyphOffset(f: Font, c: int): (r: int)
    requires ByteFields(f)
    ensures c >= f.asciiOffset ==> r >= 0
  {
    var k, size := c - f.asciiOffset, SizeOf(f);
    assert k >= 0 ==> k * size >= 0;
    k * size
  }

  /** The store holds a whole glyph for code `c`. */
  predicate HasGlyph(f: Font, c: int)
    requires ByteFields(f)
  {
    c >= f.asciiOffset && GlyphOffset(f, c) + SizeOf(f) <= |f.glyphs|
  }

  /** The glyph bytes of code `c` (the firmware's `&glyphs[offset]`). */
  function GlyphOf(f: Font, c: int): (g: seq<byte>)
    requires ByteFields(f) && HasGlyph(f, c)
    ensures |g| == SizeOf(f)
  {
    assert GlyphOffset(f, c) >= 0;
    f.glyphs[GlyphOffset(f, c) .. GlyphOffset(f, c) + SizeOf(f)]
  }

  /** The previewer's `glyphs[index:index + glyph_size]`, which is cut short at the end of the store. */
  function PyGlyphOf(f: Font, c: int): (g: seq<byte>)
    requires ByteFields(f)
    ensures HasGlyph(f, c) ==> g == GlyphOf(f, c)
  {
    PyOps.Slice(f.glyphs, GlyphOffset(f, c), GlyphOffset(f, c) + SizeOf(f))
  }

  /** Glyph `i` of a store laid out slot after slot is the glyph of code `i + ascii_offset`. */
  lemma SlotAddressing(f: Font, i: nat)
    requires ByteFields(f)
    ensures GlyphOffset(f, i + f.asciiOffset) == i * SizeOf(f)
  {
  }

  /** The renderers' test of pixel (u, v) of the glyph of code `c`: the glyph is in the store and its bit is set. */
  predicate GlyphPixel(f: Font, c: int, v: nat, u: nat)
    requires ByteFields(f)
  {
    HasGlyph(f, c) && PixelSet(GlyphOf(f, c), WidthBytes(f.width), v, u)
  }
}
