/**
 * How the font converter lays a glyph sheet out: the sheet is a grid of cells
 * `8 * ceil(width / 8)` pixels wide and `height` pixels high, slot `i` is cut
 * from cell `i % per_row` of grid row `i // per_row`, and the glyph store is
 * the packed slots one after another (font2bin.py).
 */
module GlyphSheet {
  import opened Bits
  import PyOps
  import opened GlyphPack
  import opened BitmapFont

  /** `img[y:y + h, x:x + w]` on a grayscale sheet: numpy clamps both ranges. */
  function Cut(sheet: seq<seq<int>>, y: nat, h: nat, x: nat, w: nat): seq<seq<int>>
  {
    var rows := PyOps.Slice(sheet, y, y + h);
    seq(|rows|, r requires 0 <= r < |rows| => PyOps.Slice(rows[r], x, x + w))
  }

  /** Inside the sheet a cut is the `h x w` window at `(x, y)`. */
  lemma CutInside(sheet: seq<seq<int>>, sheetWidth: nat, y: nat, h: nat, x: nat, w: nat)
    requires Rectangular(sheet, sheetWidth)
    requires y + h <= |sheet| && x + w <= sheetWidth
    ensures |Cut(sheet, y, h, x, w)| == h && Rectangular(Cut(sheet, y, h, x, w), w)
    ensures forall v, u :: 0 <= v < h && 0 <= u < w ==> Cut(sheet, y, h, x, w)[v][u] == sheet[y + v][x + u]
  {
    var c, rows := Cut(sheet, y, h, x, w), PyOps.Slice(sheet, y, y + h);
    assert rows == sheet[y..y + h];
    assert |c| == h;
    forall v | 0 <= v < h
      ensures c[v] == sheet[y + v][x..x + w]
    {
      assert rows[v] == sheet[y + v] && |rows[v]| == sheetWidth;
    }
  }

  /** Left edge of slot `i`: `glyph_width * (glyph_index % glyphs_per_row)`. */
  function SlotX(i: nat, cell: nat, perRow: nat): nat
    requires perRow > 0
  {
    cell * (i % perRow)
  }

  /** Top edge of slot `i`: `glyph_height * (glyph_index // glyphs_per_row)`. */
  function SlotY(i: nat, height: nat, perRow: nat): nat
    requires perRow > 0
  {
    height * (i / perRow)
  }

  /** The cell width: `8 * ceil(width / 8)`. */
  function Cell(width: nat): nat
  {
    8 * WidthBytes(width)
  }

  /** The image of slot `i`. */
  function SlotImage(sheet: seq<seq<int>>, width: nat, height: nat, perRow: nat, i: nat): seq<seq<int>>
    requires perRow > 0
  {
    Cut(sheet, SlotY(i, height, perRow), height, SlotX(i, Cell(width), perRow), width)
  }

  /** A slot of an aligned sheet never runs past its right edge. */
  lemma SlotInRow(width: nat, perRow: nat, sheetWidth: nat, i: nat)
    requires perRow > 0 && perRow * Cell(width) == sheetWidth
    ensures SlotX(i, Cell(width), perRow) + width <= sheetWidth
  {
    var cell, k := Cell(width), i % perRow;
    MulBound(cell, k, cell, perRow - 1);
    assert cell * (perRow - 1) + cell == cell * perRow;
  }

  /** Blocks written one after another. */
  function Flatten(blocks: seq<seq<byte>>): seq<byte>
  {
    if blocks == [] then [] else Flatten(blocks[..|blocks| - 1]) + blocks[|blocks| - 1]
  }

  /** Every block has `size` bytes. */
  predicate Uniform(blocks: seq<seq<byte>>, size: nat)
  {
    forall j :: 0 <= j < |blocks| ==> |blocks[j]| == size
  }

  /** `(n - 1) * s + s == n * s`. */
  lemma MulPred(n: nat, s: nat)
    requires n > 0
    ensures (n - 1) * s + s == n * s
  {
  }

  /** `n` blocks of `size` bytes flatten to `n * size` bytes. */
  lemma {:induction false} FlattenLength(blocks: seq<seq<byte>>, size: nat)
    requires Uniform(blocks, size)
    ensures |Flatten(blocks)| == |blocks| * size
  {
    if blocks != [] {
      var n := |blocks|;
      FlattenLength(blocks[..n - 1], size);
      MulPred(n, size);
    }
  }

  /** Block `i` of equal blocks sits at `[i * size, (i + 1) * size)`. */
  lemma {:induction false} FlattenBlock(blocks: seq<seq<byte>>, size: nat, i: nat)
    requires Uniform(blocks, size) && i < |blocks|
    ensures |Flatten(blocks)| == |blocks| * size
    ensures i * size + size <= |blocks| * size
    ensures Flatten(blocks)[i * size .. i * size + size] == blocks[i]
  {
    var n := |blocks|;
    FlattenLength(blocks, size);
    FlattenLength(blocks[..n - 1], size);
    MulPred(n, size);
    if i < n - 1 {
      FlattenBlock(blocks[..n - 1], size, i);
      assert Flatten(blocks)[i * size .. i * size + size] == Flatten(blocks[..n - 1])[i * size .. i * size + size];
    }
  }

  /** The packed glyph of every slot, `None` slots included, in slot order. */
  function Slots(sheet: seq<seq<int>>, width: nat, height: nat, perRow: nat, n: nat): (r: seq<seq<byte>>)
    requires perRow > 0 || n == 0
    ensures |r| == n
  {
    seq(n, i requires 0 <= i < n => PackGlyph(SlotImage(sheet, width, height, perRow, i)))
  }

  /** The glyph store written after the header. */
  function StoreOf(sheet: seq<seq<int>>, width: nat, height: nat, perRow: nat, n: nat): seq<byte>
    requires perRow > 0 || n == 0
  {
    Flatten(Slots(sheet, width, height, perRow, n))
  }

  /** Glyph rows needed for `n` slots: `ceil(n / per_row)`. */
  function GlyphRows(n: nat, perRow: nat): nat
    requires perRow > 0
  {
    (n + perRow - 1) / perRow
  }

  /** The sheet has enough pixel rows for the first `n` slots. */
  predicate Covers(sheet: seq<seq<int>>, height: nat, perRow: nat, n: nat)
  {
    perRow > 0 && height * GlyphRows(n, perRow) <= |sheet|
  }

  /** Slot `i < n` sits in one of the first `ceil(n / per_row)` glyph rows. */
  lemma SlotRow(n: nat, perRow: nat, i: nat)
    requires perRow > 0 && i < n
    ensures i / perRow + 1 <= GlyphRows(n, perRow)
  {
    var q, r := i / perRow, i % perRow;
    assert i == q * perRow + r;
    var m := n + perRow - 1;
    assert (q + 1) * perRow <= m by {
      assert (q + 1) * perRow == q * perRow + perRow;
    }
    DivMono(q + 1, perRow, m);
  }

  /** Each of the first `n` slots of a covering sheet lies inside its rows. */
  lemma CoversSlot(sheet: seq<seq<int>>, height: nat, perRow: nat, n: nat, i: nat)
    requires Covers(sheet, height, perRow, n) && i < n
    ensures SlotY(i, height, perRow) + height <= |sheet|
  {
    var row, rows := i / perRow, GlyphRows(n, perRow);
    SlotRow(n, perRow, i);
    MulBound(height, row + 1, height, rows);
    assert height * (row + 1) == height * row + height;
  }

  /** A slot inside the sheet packs to exactly one glyph's bytes. */
  lemma SlotGlyphLength(sheet: seq<seq<int>>, sheetWidth: nat, width: nat, height: nat, perRow: nat, i: nat)
    requires Rectangular(sheet, sheetWidth) && width <= 127 && height < 256
    requires perRow > 0 && perRow * Cell(width) == sheetWidth
    requires SlotY(i, height, perRow) + height <= |sheet|
    ensures |PackGlyph(SlotImage(sheet, width, height, perRow, i))| == GlyphSize(width, height)
  {
    SlotGlyph(sheet, sheetWidth, width, height, perRow, i);
  }

  /** A slot inside the sheet is the cell's window of the sheet, pixel for pixel. */
  lemma SlotGlyph(sheet: seq<seq<int>>, sheetWidth: nat, width: nat, height: nat, perRow: nat, i: nat)
    requires Rectangular(sheet, sheetWidth) && width <= 127 && height < 256
    requires perRow > 0 && perRow * Cell(width) == sheetWidth
    requires SlotY(i, height, perRow) + height <= |sheet|
    ensures |PackGlyph(SlotImage(sheet, width, height, perRow, i))| == GlyphSize(width, height)
    ensures Rectangular(SlotImage(sheet, width, height, perRow, i), width)
    ensures |SlotImage(sheet, width, height, perRow, i)| == height
    ensures forall v, u :: 0 <= v < height && 0 <= u < width ==>
      SlotImage(sheet, width, height, perRow, i)[v][u]
        == sheet[SlotY(i, height, perRow) + v][SlotX(i, Cell(width), perRow) + u]
  {
    var x, y := SlotX(i, Cell(width), perRow), SlotY(i, height, perRow);
    SlotInRow(width, perRow, sheetWidth, i);
    CutInside(sheet, sheetWidth, y, height, x, width);
    PackGlyphLength(SlotImage(sheet, width, height, perRow, i), width);
  }

  /** When the sheet covers the charmap every slot contributes one glyph's bytes. */
  lemma SlotsUniform(sheet: seq<seq<int>>, sheetWidth: nat, width: nat, height: nat, perRow: nat, n: nat)
    requires Rectangular(sheet, sheetWidth) && width <= 127 && height < 256
    requires perRow * Cell(width) == sheetWidth && Covers(sheet, height, perRow, n)
    ensures Uniform(Slots(sheet, width, height, perRow, n), GlyphSize(width, height))
  {
    var blocks := Slots(sheet, width, height, perRow, n);
    forall j | 0 <= j < n
      ensures |blocks[j]| == GlyphSize(width, height)
    {
      CoversSlot(sheet, height, perRow, n, j);
      SlotGlyphLength(sheet, sheetWidth, width, height, perRow, j);
    }
  }

  /** A font whose store is equal blocks of one glyph each holds block `i` as the glyph of code `i + ascii_offset`. */
  lemma BlockGlyph(f: Font, blocks: seq<seq<byte>>, i: nat)
    requires ByteFields(f) && f.glyphs == Flatten(blocks) && Uniform(blocks, SizeOf(f)) && i < |blocks|
    ensures HasGlyph(f, i + f.asciiOffset) && GlyphOf(f, i + f.asciiOffset) == blocks[i]
  {
    FlattenBlock(blocks, SizeOf(f), i);
    SlotAddressing(f, i);
  }

  /** Converting one more slot appends that slot's packed glyph to the store. */
  lemma StoreSucc(sheet: seq<seq<int>>, width: nat, height: nat, perRow: nat, n: nat)
    requires perRow > 0
    ensures StoreOf(sheet, width, height, perRow, n + 1)
         == StoreOf(sheet, width, height, perRow, n) + PackGlyph(SlotImage(sheet, width, height, perRow, n))
  {
    assert Slots(sheet, width, height, perRow, n + 1)[..n] == Slots(sheet, width, height, perRow, n);
  }

  /** Testing the packed glyph of a slot inside the sheet reads the sheet's pixel under it. */
  lemma SlotPixel(sheet: seq<seq<int>>, sheetWidth: nat, width: nat, height: nat, perRow: nat, n: nat, i: nat, v: nat, u: nat)
    requires Rectangular(sheet, sheetWidth) && width <= 127 && height < 256
    requires perRow * Cell(width) == sheetWidth && Covers(sheet, height, perRow, n) && i < n
    requires v < height && u < width
    ensures PixelSet(PackGlyph(SlotImage(sheet, width, height, perRow, i)), WidthBytes(width), v, u)
        <==> ImageInk(sheet, SlotX(i, Cell(width), perRow) + u, SlotY(i, height, perRow) + v)
  {
    CoversSlot(sheet, height, perRow, n, i);
    var img := SlotImage(sheet, width, height, perRow, i);
    SlotGlyph(sheet, sheetWidth, width, height, perRow, i);
    SlotInRow(width, perRow, sheetWidth, i);
    PackThenTest(img, width, v, u);
  }

  /** In a font whose store was cut from a covering sheet, the glyph of code `i + ascii_offset` is slot `i` packed. */
  lemma StoreGlyph(f: Font, sheet: seq<seq<int>>, sheetWidth: nat, perRow: nat, n: nat, i: nat)
    requires ByteFields(f) && f.width <= 127 && Rectangular(sheet, sheetWidth)
    requires perRow * Cell(f.width) == sheetWidth && Covers(sheet, f.height, perRow, n)
    requires f.glyphs == StoreOf(sheet, f.width, f.height, perRow, n) && i < n
    ensures HasGlyph(f, i + f.asciiOffset)
    ensures GlyphOf(f, i + f.asciiOffset) == PackGlyph(SlotImage(sheet, f.width, f.height, perRow, i))
  {
    var blocks := Slots(sheet, f.width, f.height, perRow, n);
    SlotsUniform(sheet, sheetWidth, f.width, f.height, perRow, n);
    BlockGlyph(f, blocks, i);
  }

  /** A font glyph known to be slot `i` packed tests like the sheet under slot `i`. */
  lemma SlotGlyphPixel(f: Font, sheet: seq<seq<int>>, sheetWidth: nat, perRow: nat, n: nat, i: nat, v: nat, u: nat)
    requires ByteFields(f) && f.width <= 127 && Rectangular(sheet, sheetWidth)
    requires perRow * Cell(f.width) == sheetWidth && Covers(sheet, f.height, perRow, n)
    requires i < n && v < f.height && u < f.width
    requires HasGlyph(f, i + f.asciiOffset)
    requires GlyphOf(f, i + f.asciiOffset) == PackGlyph(SlotImage(sheet, f.width, f.height, perRow, i))
    ensures GlyphPixel(f, i + f.asciiOffset, v, u)
        <==> ImageInk(sheet, SlotX(i, Cell(f.width), perRow) + u, SlotY(i, f.height, perRow) + v)
  {
    SlotPixel(sheet, sheetWidth, f.width, f.height, perRow, n, i, v, u);
  }

  /**
   * In a font whose store was cut from the sheet, pixel (u, v) of the glyph of
   * code `i + ascii_offset` is set exactly when pixel (x + u, y + v) of the
   * sheet is, where (x, y) is the corner of slot `i`.
   */
  lemma StorePixel(f: Font, sheet: seq<seq<int>>, sheetWidth: nat, perRow: nat, n: nat, i: nat, v: nat, u: nat)
    requires ByteFields(f) && f.width <= 127 && Rectangular(sheet, sheetWidth)
    requires perRow * Cell(f.width) == sheetWidth && Covers(sheet, f.height, perRow, n)
    requires f.glyphs == StoreOf(sheet, f.width, f.height, perRow, n)
    requires i < n && v < f.height && u < f.width
    ensures GlyphPixel(f, i + f.asciiOffset, v, u)
        <==> ImageInk(sheet, SlotX(i, Cell(f.width), perRow) + u, SlotY(i, f.height, perRow) + v)
  {
    StoreGlyph(f, sheet, sheetWidth, perRow, n, i);
    SlotGlyphPixel(f, sheet, sheetWidth, perRow, n, i, v, u);
  }
}
