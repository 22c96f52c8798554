/**
 * The raster primitives of graphics.c on the virtual display buffer (VDB):
 * `g_vdb_t` holds the screen region it currently stands for and a row-major
 * buffer of 16-bit colours laid out `g_region_width(region)` cells per row.
 * Every drawing operation paints a rectangle of buffer cells (possibly
 * empty, possibly one cell) and leaves the rest of the buffer alone.
 */
module Raster {
  import opened Bits
  import opened Regions
  import opened GlyphPack
  import opened BitmapFont

  /** `g_color_t`: a 16-bit colour. */
  type Color = c: int | 0 <= c < 0x1_0000

  /** `G_FILLED`: the thickness that asks `g_draw_rect` to fill. */
  const Filled := 0

  /** The conversion of a `size_t` to the 16-bit `g_size_t`. */
  function U16(v: nat): nat
  {
    v % 0x1_0000
  }

  /** A rectangle of buffer cells, relative to the VDB: columns `c0 ..= c1`, rows `r0 ..= r1`. */
  datatype Cells = Cells(c0: int, c1: int, r0: int, r1: int)

  const NoCells := Cells(0, -1, 0, -1)

  /** The row of buffer index `i` in a buffer `w` cells wide, `i / w`. */
  function Row(w: nat, i: nat): nat
    requires w > 0
    decreases i
  {
    if i < w then 0 else 1 + Row(w, i - w)
  }

  /** The column of buffer index `i` in a buffer `w` cells wide, `i % w`. */
  function Col(w: nat, i: nat): nat
    requires w > 0
    decreases i
  {
    if i < w then i else Col(w, i - w)
  }

  /** Rows and columns are the quotient and remainder of the index by the width. */
  lemma {:induction false} RowColDiv(w: nat, i: nat)
    requires w > 0
    ensures Row(w, i) == i / w && Col(w, i) == i % w
    decreases i
  {
    if i >= w {
      RowColDiv(w, i - w);
      ModUnique(i, (i - w) / w + 1, (i - w) % w, w);
    }
  }

  /** Buffer index `i` of a buffer `w` cells wide lies in the cell rectangle `k`. */
  predicate InCells(w: nat, i: int, k: Cells)
  {
    w > 0 && 0 <= i && k.r0 <= Row(w, i) <= k.r1 && k.c0 <= Col(w, i) <= k.c1
  }

  /** The buffer after setting every cell of `k` to `color`. */
  function Paint(s: seq<Color>, w: nat, k: Cells, color: Color): (r: seq<Color>)
    ensures |r| == |s|
  {
    seq(|s|, i requires 0 <= i < |s| => if InCells(w, i, k) then color else s[i])
  }

  /** Index `r * w + c` is the cell at row `r`, column `c`, and no other index is. */
  lemma CellOf(w: nat, i: int, r: int, c: int)
    requires w > 0 && 0 <= r && 0 <= c < w
    ensures i == r * w + c <==> i >= 0 && Row(w, i) == r && Col(w, i) == c
  {
    if i >= 0 {
      RowColDiv(w, i);
    }
    if i == r * w + c {
      ModUnique(i, r, c, w);
    }
  }

  /** A cell of a `w` by `h` window has an index below `w * h`. */
  lemma CellBound(w: nat, h: nat, r: int, c: int)
    requires 0 <= r < h && 0 <= c < w
    ensures 0 <= r * w + c < w * h
  {
    MulBound(r + 1, w, h, w);
    MulSucc(w, r);
  }

  /** Painting no cells leaves the buffer as it is. */
  lemma PaintNothing(s: seq<Color>, w: nat, k: Cells, color: Color)
    requires k.c0 > k.c1 || k.r0 > k.r1
    ensures Paint(s, w, k, color) == s
  {
  }

  /** One more column of a one-row rectangle sets exactly the cell `r * w + c`. */
  lemma PaintRowStep(s: seq<Color>, w: nat, r: int, c0: int, c: int, color: Color)
    requires 0 <= r && 0 <= c0 <= c < w && r * w + c < |s|
    ensures Paint(s, w, Cells(c0, c, r, r), color) == Paint(s, w, Cells(c0, c - 1, r, r), color)[r * w + c := color]
  {
    forall i | 0 <= i < |s|
      ensures InCells(w, i, Cells(c0, c, r, r)) <==> InCells(w, i, Cells(c0, c - 1, r, r)) || i == r * w + c
    {
      CellOf(w, i, r, c);
    }
  }

  /** One more row of a one-column rectangle sets exactly the cell `r * w + c`. */
  lemma PaintColStep(s: seq<Color>, w: nat, c: int, r0: int, r: int, color: Color)
    requires 0 <= r0 <= r && 0 <= c < w && r * w + c < |s|
    ensures Paint(s, w, Cells(c, c, r0, r), color) == Paint(s, w, Cells(c, c, r0, r - 1), color)[r * w + c := color]
  {
    forall i | 0 <= i < |s|
      ensures InCells(w, i, Cells(c, c, r0, r)) <==> InCells(w, i, Cells(c, c, r0, r - 1)) || i == r * w + c
    {
      CellOf(w, i, r, c);
    }
  }

  /**
   * One more row `r` of a rectangle whose first row is `r0` is that first
   * row's run of cells copied `r - r0` rows down.
   */
  lemma PaintBlockStep(s: seq<Color>, w: nat, c0: int, c1: int, r0: int, r: int, src: int, dst: int, color: Color)
    requires 0 <= c0 <= c1 < w && 0 <= r0 < r && r * w + c1 < |s|
    requires src == r0 * w + c0 && dst == r * w + c0
    ensures 0 <= src <= src + (c1 - c0 + 1) <= dst
    ensures dst + (c1 - c0 + 1) <= |s|
    ensures Paint(s, w, Cells(c0, c1, r0, r), color) == Copied(Paint(s, w, Cells(c0, c1, r0, r - 1), color), dst, src, c1 - c0 + 1)
  {
    var p, n := Paint(s, w, Cells(c0, c1, r0, r - 1), color), c1 - c0 + 1;
    MulMono(r0 + 1, r, w);
    MulSucc(w, r0);
    var q := Paint(s, w, Cells(c0, c1, r0, r), color);
    var t := Copied(p, dst, src, n);
    forall i | 0 <= i < |s|
      ensures q[i] == t[i]
    {
      BlockCell(w, c0, c1, r0, r, src, dst, i);
      CopiedAt(p, dst, src, n, i);
    }
  }

  /** One pass of the row-copy loop of `g_draw_rect`, for row `r` starting at `rowBase`. */
  lemma CopyRowStep(s: seq<Color>, w: nat, h: nat, fr: Region, r: int, rowBase: int, color: Color)
    requires 0 <= fr.x0 <= fr.x1 < w && 0 <= fr.y0 < r < h && w * h <= |s|
    requires rowBase == r * w
    ensures 0 <= fr.y0 * w + fr.x0 && 0 <= rowBase + fr.x0
    ensures fr.y0 * w + fr.x0 + (fr.x1 - fr.x0 + 1) <= rowBase + fr.x0
    ensures rowBase + fr.x0 + (fr.x1 - fr.x0 + 1) <= |s|
    ensures rowBase + w == (r + 1) * w
    ensures Paint(s, w, Cells(fr.x0, fr.x1, fr.y0, r), color)
         == Copied(Paint(s, w, Cells(fr.x0, fr.x1, fr.y0, r - 1), color), rowBase + fr.x0, fr.y0 * w + fr.x0, fr.x1 - fr.x0 + 1)
  {
    CellBound(w, h, r, fr.x1);
    PaintBlockStep(s, w, fr.x0, fr.x1, fr.y0, r, fr.y0 * w + fr.x0, rowBase + fr.x0, color);
    MulSucc(w, r);
  }

  /**
   * Index `i` is in rows `r0 ..= r` of the rectangle exactly when it is in
   * rows `r0 ..= r - 1` or in the run `dst ..< dst + n` of row `r`, and the
   * first row's index `src + (i - dst)` lies in the rectangle for every `i`
   * of that run.
   */
  lemma BlockCell(w: nat, c0: int, c1: int, r0: int, r: int, src: int, dst: int, i: int)
    requires 0 <= c0 <= c1 < w && 0 <= r0 < r && src == r0 * w + c0 && dst == r * w + c0
    ensures InCells(w, i, Cells(c0, c1, r0, r)) <==> InCells(w, i, Cells(c0, c1, r0, r - 1)) || dst <= i < dst + (c1 - c0 + 1)
    ensures dst <= i < dst + (c1 - c0 + 1) ==> InCells(w, src + (i - dst), Cells(c0, c1, r0, r - 1))
  {
    if dst <= i < dst + (c1 - c0 + 1) {
      CellOf(w, i, r, i - dst + c0);
      CellOf(w, src + (i - dst), r0, i - dst + c0);
    } else {
      CellOutside(w, i, r, c0, c1);
    }
  }

  /** An index outside the run `r * w + c0 ..= r * w + c1` is not a cell of row `r` between those columns. */
  lemma CellOutside(w: nat, i: int, r: int, c0: int, c1: int)
    requires 0 <= c0 <= c1 < w && !(r * w + c0 <= i <= r * w + c1)
    ensures !(i >= 0 && Row(w, i) == r && c0 <= Col(w, i) <= c1)
  {
    if i >= 0 && Row(w, i) == r && c0 <= Col(w, i) <= c1 {
      CellOf(w, i, r, Col(w, i));
    }
  }

  /** The cells `s` holds after `memcpy(&s[dst], &s[src], n)`: the run at `src` written over the run at `dst`. */
  function Copied(s: seq<Color>, dst: nat, src: nat, n: nat): (r: seq<Color>)
    requires src + n <= dst && dst + n <= |s|
    ensures |r| == |s|
  {
    s[..dst] + s[src..src + n] + s[dst + n..]
  }

  /** Cell `i` after the copy comes from the run at `src` inside the run at `dst`, and is unchanged outside it. */
  lemma CopiedAt(s: seq<Color>, dst: nat, src: nat, n: nat, i: nat)
    requires src + n <= dst && dst + n <= |s| && i < |s|
    ensures Copied(s, dst, src, n)[i] == if dst <= i < dst + n then s[src + (i - dst)] else s[i]
  {
  }

  /** `memcpy(&a[dst], &a[src], n)` on non-overlapping runs of cells. */
  method Memcpy(a: array<Color>, dst: nat, src: nat, n: nat)
    requires src + n <= dst && dst + n <= a.Length
    modifies a
    ensures a[..] == Copied(old(a[..]), dst, src, n)
  {
    forall i | dst <= i < dst + n {
      a[i] := a[src + i - dst];
    }
  }

  // ----- the VDB window and its pixels -----

  /** A VDB region: ordered `g_coord_t` corners, fewer than 2^15 columns and rows. */
  predicate Window(v: Region)
  {
    Coords(v) && v.x0 <= v.x1 && v.y0 <= v.y1 && v.x1 - v.x0 < 0x7FFF && v.y1 - v.y0 < 0x7FFF
  }

  /** Screen pixel (px, py) lies in the region (bounds inclusive). */
  predicate Inside(v: Region, px: int, py: int)
  {
    v.x0 <= px <= v.x1 && v.y0 <= py <= v.y1
  }

  /** Where pixel (px, py) lives in the buffer: `(py - y0) * width + px - x0`. */
  function Offset(v: Region, px: int, py: int): int
  {
    (py - v.y0) * Width(v) + px - v.x0
  }

  /** Window widths and heights are the plain differences. */
  lemma WindowSize(v: Region)
    requires Window(v)
    ensures Width(v) == v.x1 - v.x0 + 1 && Height(v) == v.y1 - v.y0 + 1
    ensures 0 < Width(v) < 0x8000 && 0 < Height(v) < 0x8000
  {
  }

  /**
   * The pixels of the region map one to one onto the first `width * height`
   * buffer cells: pixel (px, py) is the cell at column `px - x0`, row `py - y0`.
   */
  lemma PixelCell(v: Region, px: int, py: int)
    requires Window(v) && Inside(v, px, py)
    ensures 0 <= Offset(v, px, py) < Width(v) * Height(v)
    ensures Row(Width(v), Offset(v, px, py)) == py - v.y0 && Col(Width(v), Offset(v, px, py)) == px - v.x0
  {
    WindowSize(v);
    CellOf(Width(v), Offset(v, px, py), py - v.y0, px - v.x0);
    CellBound(Width(v), Height(v), py - v.y0, px - v.x0);
  }

  /** Distinct pixels of the region occupy distinct buffer cells. */
  lemma OffsetInjective(v: Region, px: int, py: int, qx: int, qy: int)
    requires Window(v) && Inside(v, px, py) && Inside(v, qx, qy)
    ensures Offset(v, px, py) == Offset(v, qx, qy) <==> px == qx && py == qy
  {
    PixelCell(v, px, py);
    PixelCell(v, qx, qy);
  }

  /** A pixel is in a cell rectangle exactly when its column and row are. */
  lemma PixelInCells(v: Region, px: int, py: int, k: Cells)
    requires Window(v) && Inside(v, px, py)
    ensures InCells(Width(v), Offset(v, px, py), k) <==> k.c0 <= px - v.x0 <= k.c1 && k.r0 <= py - v.y0 <= k.r1
  {
    PixelCell(v, px, py);
  }

  // ----- what each primitive paints -----

  /** `g_draw_pixel`: the pixel's own cell when it is inside the region, nothing otherwise. */
  function PixelCells(v: Region, x: int, y: int): Cells
  {
    if Inside(v, x, y) then Cells(x - v.x0, x - v.x0, y - v.y0, y - v.y0) else NoCells
  }

  /**
   * A one-pixel `g_draw_hline`: nothing when row `y` is outside the region,
   * otherwise the columns from `_x` (0, or `x - x0`) up to but excluding `x1`
   * (`width` when the line runs past the right edge, else `x + width - x0`).
   */
  function HCells(v: Region, x: int, y: int, width: nat): Cells
  {
    if y < v.y0 || y > v.y1 then NoCells
    else
      var lo := if x < v.x0 then 0 else x - v.x0;
      var hi := if x + width - 1 > v.x1 then Width(v) else x + width - v.x0;
      Cells(lo, hi - 1, y - v.y0, y - v.y0)
  }

  /** A one-pixel `g_draw_vline`: the same, by rows of column `x`. */
  function VCells(v: Region, x: int, y: int, height: nat): Cells
  {
    if x < v.x0 || x > v.x1 then NoCells
    else
      var lo := if y < v.y0 then 0 else y - v.y0;
      var hi := if y + height - 1 > v.y1 then Height(v) else y + height - v.y0;
      Cells(x - v.x0, x - v.x0, lo, hi - 1)
  }

  /** `fill_region`: the rectangle clamped to the VDB, relative to it. */
  function FillRegion(v: Region, r: Region): Region
  {
    Region(if r.x0 <= v.x0 then 0 else r.x0 - v.x0,
           if r.y0 <= v.y0 then 0 else r.y0 - v.y0,
           if r.x1 > v.x1 then Width(v) - 1 else r.x1 - v.x0,
           if r.y1 > v.y1 then Height(v) - 1 else r.y1 - v.y0)
  }

  /**
   * The out-of-bounds test of `g_draw_rect` as written:
   * `x1 <= 0 || y1 <= 0 || y0 > y1 || x0 > x1` on the clamped region.
   */
  predicate RejectedAsWritten(fr: Region)
  {
    fr.x1 <= 0 || fr.y1 <= 0 || fr.y0 > fr.y1 || fr.x0 > fr.x1
  }

  /** The intended test: the clamped region is empty (an edge at relative 0 is still inside). */
  predicate Rejected(fr: Region)
  {
    fr.x1 < 0 || fr.y1 < 0 || fr.y0 > fr.y1 || fr.x0 > fr.x1
  }

  /** A filled `g_draw_rect` (with the intended test): every cell of the clamped region. */
  function FillCells(v: Region, r: Region): Cells
  {
    var fr := FillRegion(v, r);
    if Rejected(fr) then NoCells else Cells(fr.x0, fr.x1, fr.y0, fr.y1)
  }

  /** The rectangle a thick horizontal line fills: `thickness / 2` rows above and below `y`. */
  function HRect(x: int, y: int, width: nat, thickness: nat): Region
  {
    Region(x, Int16(y - thickness / 2), Int16(x + width - 1), Int16(y + thickness / 2))
  }

  /** The rectangle a thick vertical line fills: `thickness / 2` columns left and right of `x`. */
  function VRect(x: int, y: int, height: nat, thickness: nat): Region
  {
    Region(Int16(x - thickness / 2), y, Int16(x + thickness / 2), Int16(y + height - 1))
  }

  /** What `g_draw_hline` paints for each thickness: nothing, one row, or a filled rectangle. */
  function HLineCells(v: Region, x: int, y: int, width: nat, thickness: nat): Cells
  {
    if thickness < 1 then NoCells
    else if thickness == 1 then HCells(v, x, y, width)
    else FillCells(v, HRect(x, y, width, thickness))
  }

  /** What `g_draw_vline` paints for each thickness. */
  function VLineCells(v: Region, x: int, y: int, height: nat, thickness: nat): Cells
  {
    if thickness < 1 then NoCells
    else if thickness == 1 then VCells(v, x, y, height)
    else FillCells(v, VRect(x, y, height, thickness))
  }

  /** A filled rectangle paints its clamped cells, which are none when it is rejected. */
  lemma RectFilled(s: seq<Color>, v: Region, r: Region, color: Color)
    ensures RectPaint(s, v, r, color, Filled) == Paint(s, Width(v), FillCells(v, r), color)
  {
    if Rejected(FillRegion(v, r)) {
      PaintNothing(s, Width(v), NoCells, color);
    }
  }

  /** The four edges `g_draw_rect` draws for a nonzero thickness, in order. */
  function Outline(s: seq<Color>, v: Region, r: Region, color: Color, thickness: nat): seq<Color>
  {
    var w, h := U16(Width(r)), U16(Height(r));
    var s1 := Paint(s, Width(v), HLineCells(v, r.x0, r.y0, w, thickness), color);
    var s2 := Paint(s1, Width(v), HLineCells(v, r.x0, r.y1, w, thickness), color);
    var s3 := Paint(s2, Width(v), VLineCells(v, r.x0, r.y0, h, thickness), color);
    Paint(s3, Width(v), VLineCells(v, r.x1, r.y0, h, thickness), color)
  }

  /** `g_draw_rect`: nothing for a rectangle off the VDB, else a fill or the outline. */
  function RectPaint(s: seq<Color>, v: Region, r: Region, color: Color, thickness: nat): seq<Color>
  {
    if Rejected(FillRegion(v, r)) then s
    else if thickness == Filled then Paint(s, Width(v), FillCells(v, r), color)
    else Outline(s, v, r, color, thickness)
  }

  // ----- when the firmware's 16-bit intermediates do not wrap -----

  /** The relative corners `g_draw_rect` computes fit `g_coord_t`. */
  predicate RectFits(v: Region, r: Region)
  {
    && Coords(r)
    && (r.x0 > v.x0 ==> InCoord(r.x0 - v.x0)) && (r.x1 <= v.x1 ==> InCoord(r.x1 - v.x0))
    && (r.y0 > v.y0 ==> InCoord(r.y0 - v.y0)) && (r.y1 <= v.y1 ==> InCoord(r.y1 - v.y0))
  }

  /** The column bounds a one-pixel `g_draw_hline` computes fit `g_coord_t`, as does a thick line's rectangle. */
  predicate HLineFits(v: Region, x: int, y: int, width: nat, thickness: nat)
  {
    && (thickness == 1 && v.y0 <= y <= v.y1 ==>
          (x >= v.x0 ==> InCoord(x - v.x0)) && (x + width - 1 <= v.x1 ==> InCoord(x + width - v.x0)))
    && (thickness > 1 ==> RectFits(v, HRect(x, y, width, thickness)))
  }

  /** The same for `g_draw_vline`. */
  predicate VLineFits(v: Region, x: int, y: int, height: nat, thickness: nat)
  {
    && (thickness == 1 && v.x0 <= x <= v.x1 ==>
          (y >= v.y0 ==> InCoord(y - v.y0)) && (y + height - 1 <= v.y1 ==> InCoord(y + height - v.y0)))
    && (thickness > 1 ==> RectFits(v, VRect(x, y, height, thickness)))
  }

  /** The four edge calls of an outlined rectangle fit. */
  predicate OutlineFits(v: Region, r: Region, thickness: nat)
  {
    var w, h := U16(Width(r)), U16(Height(r));
    && HLineFits(v, r.x0, r.y0, w, thickness) && HLineFits(v, r.x0, r.y1, w, thickness)
    && VLineFits(v, r.x0, r.y0, h, thickness) && VLineFits(v, r.x1, r.y0, h, thickness)
  }

  /** Under `RectFits`, the 16-bit corners `g_draw_rect` computes are those of `FillRegion`. */
  lemma FillRegionFits(v: Region, r: Region)
    requires Window(v) && RectFits(v, r)
    ensures Region(if r.x0 <= v.x0 then 0 else Int16(r.x0 - v.x0),
                   if r.y0 <= v.y0 then 0 else Int16(r.y0 - v.y0),
                   if r.x1 > v.x1 then Int16(Width(v) - 1) else Int16(r.x1 - v.x0),
                   if r.y1 > v.y1 then Int16(Height(v) - 1) else Int16(r.y1 - v.y0))
         == FillRegion(v, r)
  {
    WindowSize(v);
  }

  // ----- what each primitive paints, pixel by pixel -----

  /** Painting cells `k` changes pixel (px, py) of the region exactly when its column and row are in `k`. */
  lemma PaintPixel(s: seq<Color>, v: Region, k: Cells, color: Color, px: int, py: int)
    requires Window(v) && Inside(v, px, py) && Width(v) * Height(v) <= |s|
    ensures 0 <= Offset(v, px, py) < |s|
    ensures Paint(s, Width(v), k, color)[Offset(v, px, py)]
         == if k.c0 <= px - v.x0 <= k.c1 && k.r0 <= py - v.y0 <= k.r1 then color else s[Offset(v, px, py)]
  {
    PixelCell(v, px, py);
  }

  /** `g_draw_pixel` paints the one pixel it is given, and only when it is inside the region. */
  lemma PixelExact(v: Region, x: int, y: int, px: int, py: int)
    requires Window(v) && Inside(v, px, py)
    ensures InCells(Width(v), Offset(v, px, py), PixelCells(v, x, y)) <==> px == x && py == y
  {
    PixelInCells(v, px, py, PixelCells(v, x, y));
  }

  /** A one-pixel horizontal line paints the pixels of row `y` from `x` to `x + width - 1` inside the region. */
  lemma HCellsExact(v: Region, x: int, y: int, width: nat, px: int, py: int)
    requires Window(v) && Inside(v, px, py)
    ensures InCells(Width(v), Offset(v, px, py), HCells(v, x, y, width)) <==> py == y && x <= px <= x + width - 1
  {
    WindowSize(v);
    PixelInCells(v, px, py, HCells(v, x, y, width));
  }

  /** A one-pixel vertical line paints the pixels of column `x` from `y` to `y + height - 1` inside the region. */
  lemma VCellsExact(v: Region, x: int, y: int, height: nat, px: int, py: int)
    requires Window(v) && Inside(v, px, py)
    ensures InCells(Width(v), Offset(v, px, py), VCells(v, x, y, height)) <==> px == x && y <= py <= y + height - 1
  {
    WindowSize(v);
    PixelInCells(v, px, py, VCells(v, x, y, height));
  }

  /** A filled rectangle paints exactly the pixels of the region that lie in it (bounds inclusive). */
  lemma FillExact(v: Region, r: Region, px: int, py: int)
    requires Window(v) && Inside(v, px, py)
    ensures InCells(Width(v), Offset(v, px, py), FillCells(v, r)) <==> r.x0 <= px <= r.x1 && r.y0 <= py <= r.y1
  {
    WindowSize(v);
    PixelInCells(v, px, py, FillCells(v, r));
  }

  /**
   * A horizontal line of thickness `t` paints, in columns `x ..= x + width - 1`,
   * row `y` alone for `t == 1` and the rows `y - t / 2 ..= y + t / 2` for
   * `t > 1` (so an even thickness gives `t + 1` rows), as long as those
   * rows and columns are `g_coord_t` values.
   */
  lemma HLineExact(v: Region, x: int, y: int, width: nat, t: nat, px: int, py: int)
    requires Window(v) && Inside(v, px, py)
    requires InCoord(x + width - 1) && InCoord(y - t / 2) && InCoord(y + t / 2)
    ensures InCells(Width(v), Offset(v, px, py), HLineCells(v, x, y, width, t))
        <==> t >= 1 && x <= px <= x + width - 1 && (if t == 1 then py == y else y - t / 2 <= py <= y + t / 2)
  {
    if t < 1 {
      PixelInCells(v, px, py, NoCells);
    } else if t == 1 {
      HCellsExact(v, x, y, width, px, py);
    } else {
      FillExact(v, HRect(x, y, width, t), px, py);
    }
  }

  /** The same for vertical lines: columns `x - t / 2 ..= x + t / 2`, rows `y ..= y + height - 1`. */
  lemma VLineExact(v: Region, x: int, y: int, height: nat, t: nat, px: int, py: int)
    requires Window(v) && Inside(v, px, py)
    requires InCoord(y + height - 1) && InCoord(x - t / 2) && InCoord(x + t / 2)
    ensures InCells(Width(v), Offset(v, px, py), VLineCells(v, x, y, height, t))
        <==> t >= 1 && y <= py <= y + height - 1 && (if t == 1 then px == x else x - t / 2 <= px <= x + t / 2)
  {
    if t < 1 {
      PixelInCells(v, px, py, NoCells);
    } else if t == 1 {
      VCellsExact(v, x, y, height, px, py);
    } else {
      FillExact(v, VRect(x, y, height, t), px, py);
    }
  }

  /** Pixel (px, py) lies on the one-pixel border of rectangle `r`. */
  predicate OnBorder(r: Region, px: int, py: int)
  {
    || ((py == r.y0 || py == r.y1) && r.x0 <= px <= r.x1)
    || ((px == r.x0 || px == r.x1) && r.y0 <= py <= r.y1)
  }

  /**
   * An outlined rectangle of thickness 1 that is not rejected paints exactly
   * the pixels of its border that lie in the region, and leaves every other
   * pixel of the region as it was.
   */
  lemma OutlineExact(s: seq<Color>, v: Region, r: Region, color: Color, px: int, py: int)
    requires Window(v) && Inside(v, px, py) && Width(v) * Height(v) <= |s|
    requires Coords(r) && r.x1 - r.x0 < 0xFFFF && r.y1 - r.y0 < 0xFFFF && !Rejected(FillRegion(v, r))
    ensures 0 <= Offset(v, px, py) < |s|
    ensures RectPaint(s, v, r, color, 1)[Offset(v, px, py)] == if OnBorder(r, px, py) then color else s[Offset(v, px, py)]
  {
    WindowSize(v);
    assert r.x0 <= r.x1 && r.y0 <= r.y1;
    WidthCases(r);
    HeightCases(r);
    var w, h, wv := U16(Width(r)), U16(Height(r)), Width(v);
    assert w == r.x1 - r.x0 + 1 && h == r.y1 - r.y0 + 1;
    var k1, k2 := HCells(v, r.x0, r.y0, w), HCells(v, r.x0, r.y1, w);
    var k3, k4 := VCells(v, r.x0, r.y0, h), VCells(v, r.x1, r.y0, h);
    var s1 := Paint(s, wv, k1, color);
    var s2 := Paint(s1, wv, k2, color);
    var s3 := Paint(s2, wv, k3, color);
    PixelCell(v, px, py);
    HCellsExact(v, r.x0, r.y0, w, px, py);
    HCellsExact(v, r.x0, r.y1, w, px, py);
    VCellsExact(v, r.x0, r.y0, h, px, py);
    VCellsExact(v, r.x1, r.y0, h, px, py);
  }

  /**
   * The out-of-bounds test as written drops a rectangle that reaches into
   * the VDB by exactly its first column: the VDB spans 10 ..= 20 both
   * ways, the rectangle 0 ..= 10 across and 0 ..= 15 down, so its clamped
   * right edge is relative column 0 and pixel (10, 10), inside both, is
   * never painted.
   */
  lemma EdgeRectDropped()
    ensures var v, r := Region(10, 10, 20, 20), Region(0, 0, 10, 15);
      && Window(v) && Inside(v, 10, 10) && RectFits(v, r)
      && r.x0 <= 10 <= r.x1 && r.y0 <= 10 <= r.y1
      && RejectedAsWritten(FillRegion(v, r))
      && !Rejected(FillRegion(v, r))
      && InCells(Width(v), Offset(v, 10, 10), FillCells(v, r))
  {
    var v, r := Region(10, 10, 20, 20), Region(0, 0, 10, 15);
    FillExact(v, r, 10, 10);
  }

  // ----- g_draw_line -----

  /** A screen pixel. */
  datatype Point = Point(x: int, y: int)

  /** `ABS`. */
  function Abs(v: int): nat
  {
    if v < 0 then -v else v
  }

  /** `MIN`. */
  function Min(a: int, b: int): int
  {
    if a < b then a else b
  }

  /** The buffer after `g_draw_pixel` of each point of `pts` in turn. */
  function PaintPoints(s: seq<Color>, v: Region, pts: seq<Point>, color: Color): (r: seq<Color>)
    ensures |r| == |s|
  {
    if pts == [] then s
    else
      var p := pts[|pts| - 1];
      Paint(PaintPoints(s, v, pts[..|pts| - 1], color), Width(v), PixelCells(v, p.x, p.y), color)
  }

  /** Drawing one more point paints its cell over what the points before it painted. */
  lemma PaintPointsSnoc(s: seq<Color>, v: Region, pts: seq<Point>, p: Point, color: Color)
    ensures PaintPoints(s, v, pts + [p], color) == Paint(PaintPoints(s, v, pts, color), Width(v), PixelCells(v, p.x, p.y), color)
  {
    assert (pts + [p])[..|pts|] == pts;
  }

  /** Drawing `a` and then `b` is drawing `a + b`. */
  lemma {:induction false} PaintPointsAppend(s: seq<Color>, v: Region, a: seq<Point>, b: seq<Point>, color: Color)
    ensures PaintPoints(s, v, a + b, color) == PaintPoints(PaintPoints(s, v, a, color), v, b, color)
    decreases |b|
  {
    if b != [] {
      var b' := b[..|b| - 1];
      assert (a + b)[..|a + b| - 1] == a + b';
      PaintPointsAppend(s, v, a, b', color);
    } else {
      assert a + b == a;
    }
  }

  /** `q` follows `p` by one pixel: a step of `sx` across, of `sy` down, or both. */
  predicate KingStep(p: Point, q: Point, sx: int, sy: int)
  {
    (q.x == p.x || q.x == p.x + sx) && (q.y == p.y || q.y == p.y + sy) && p != q
  }

  /**
   * The pixels Bresenham's algorithm visits from (x0, y0) to (x1, y1): one
   * per column or per row of the longer axis, starting and ending at the
   * endpoints, each a king's step towards (x1, y1) from the one before.
   */
  predicate LineTrace(pts: seq<Point>, x0: int, y0: int, x1: int, y1: int)
  {
    var sx, sy := if x0 < x1 then 1 else -1, if y0 < y1 then 1 else -1;
    && |pts| == (if Abs(x1 - x0) > Abs(y1 - y0) then Abs(x1 - x0) else Abs(y1 - y0)) + 1
    && pts[0] == Point(x0, y0) && pts[|pts| - 1] == Point(x1, y1)
    && forall k :: 0 <= k < |pts| - 1 ==> KingStep(pts[k], pts[k + 1], sx, sy)
  }

  /**
   * The loop state of `g_draw_line` after `X` steps across and `Y` steps
   * down: the error term `e_xy` stays `e0 + Y * dx - X * dy`, which keeps
   * the visited pixel within half a pixel of the ideal line.
   */
  predicate BresInv(dx: int, dy: int, X: int, Y: int, err: int)
  {
    var e0 := CDiv(if dx > dy then dx else -dy, 2);
    && 0 <= X <= dx && 0 <= Y <= dy
    && err == e0 + Y * dx - X * dy
    && -dy <= err < dx
    && (dx > dy ==> err > e0 - dx)
    && (dx <= dy ==> err < e0 + dy)
  }

  /** The loop starts with `e_xy = (dx > dy ? dx : -dy) / 2`. */
  lemma BresStart(dx: int, dy: int)
    requires 1 <= dx && 1 <= dy
    ensures BresInv(dx, dy, 0, 0, CDiv(if dx > dy then dx else -dy, 2))
  {
    CDivByTwo(if dx > dy then dx else -dy);
  }

  /** `x0 += sx` when the error term allows a step across. */
  function StepX(dx: int, err: int, x: int, sx: int): int
  {
    if err > -dx then x + sx else x
  }

  /** `y0 += sy` when the error term allows a step down. */
  function StepY(dy: int, err: int, y: int, sy: int): int
  {
    if err < dy then y + sy else y
  }

  /** `e_xy -= dy` and `e_xy += dx`, each stored back into the 16-bit `e_xy`. */
  function StepErr(dx: int, dy: int, err: int): int
  {
    var e1 := if err > -dx then Int16(err - dy) else err;
    if err < dy then Int16(e1 + dx) else e1
  }

  /** The loop state: the invariant, and the current pixel `X` steps across and `Y` steps down from (x0, y0). */
  predicate LineState(x0: int, y0: int, x1: int, y1: int, X: int, Y: int, err: int, cx: int, cy: int)
  {
    && BresInv(Abs(x1 - x0), Abs(y1 - y0), X, Y, err)
    && cx == (if x0 < x1 then x0 + X else x0 - X)
    && cy == (if y0 < y1 then y0 + Y else y0 - Y)
  }

  /**
   * One iteration of the loop before the end point keeps the invariant,
   * makes a king's step, and steps along the longer axis every time; the
   * 16-bit `e_xy` never leaves its range, so its wrap-around does not matter.
   */
  lemma BresStep(x0: int, y0: int, x1: int, y1: int, X: int, Y: int, err: int, cx: int, cy: int)
    requires x0 != x1 && y0 != y1 && Abs(x1 - x0) < 0x8000 && Abs(y1 - y0) < 0x8000
    requires LineState(x0, y0, x1, y1, X, Y, err, cx, cy) && !(cx == x1 && cy == y1)
    ensures var dx, dy, sx, sy := Abs(x1 - x0), Abs(y1 - y0), if x0 < x1 then 1 else -1, if y0 < y1 then 1 else -1;
      && LineState(x0, y0, x1, y1, StepX(dx, err, X, 1), StepY(dy, err, Y, 1), StepErr(dx, dy, err), StepX(dx, err, cx, sx), StepY(dy, err, cy, sy))
      && KingStep(Point(cx, cy), Point(StepX(dx, err, cx, sx), StepY(dy, err, cy, sy)), sx, sy)
      && (dx - StepX(dx, err, X, 1)) + (dy - StepY(dy, err, Y, 1)) < (dx - X) + (dy - Y)
      && (if dx > dy then StepX(dx, err, X, 1) else StepY(dy, err, Y, 1)) == (if dx > dy then X else Y) + 1
  {
    BresArith(Abs(x1 - x0), Abs(y1 - y0), X, Y, err);
  }

  /** The arithmetic of `BresStep`, on the step counts alone. */
  lemma BresArith(dx: int, dy: int, X: int, Y: int, err: int)
    requires 1 <= dx < 0x8000 && 1 <= dy < 0x8000 && BresInv(dx, dy, X, Y, err) && !(X == dx && Y == dy)
    ensures BresInv(dx, dy, StepX(dx, err, X, 1), StepY(dy, err, Y, 1), StepErr(dx, dy, err))
    ensures StepX(dx, err, X, 1) != X || StepY(dy, err, Y, 1) != Y
    ensures dx > dy ==> StepX(dx, err, X, 1) == X + 1
    ensures dx <= dy ==> StepY(dy, err, Y, 1) == Y + 1
  {
    var e0 := CDiv(if dx > dy then dx else -dy, 2);
    CDivByTwo(if dx > dy then dx else -dy);
    BresNoOvershoot(dx, dy, X, Y, err);
    MulSucc(dy, X);
    MulSucc(dx, Y);
    if err > -dx && err < dy {
      Int16Add(err - dy, dx);
      assert StepErr(dx, dy, err) == err - dy + dx;
    }
  }

  /** The loop never steps past the end point: at the last column no step across, at the last row no step down. */
  lemma BresNoOvershoot(dx: int, dy: int, X: int, Y: int, err: int)
    requires 1 <= dx && 1 <= dy && BresInv(dx, dy, X, Y, err) && !(X == dx && Y == dy)
    ensures X == dx ==> err <= -dx
    ensures Y == dy ==> err >= dy
  {
    var e0 := CDiv(if dx > dy then dx else -dy, 2);
    CDivByTwo(if dx > dy then dx else -dy);
    if X == dx {
      MulMono(Y + 1, dy, dx);
      MulSucc(dx, Y);
      assert Y * dx + dx <= dy * dx;
      assert err <= e0 - dx;
    }
    if Y == dy {
      MulMono(X + 1, dx, dy);
      MulSucc(dy, X);
      assert X * dy + dy <= dx * dy;
      assert err >= e0 + dy;
    }
  }

  /** At the end point the loop has made `dx` steps across and `dy` down. */
  lemma BresEnd(x0: int, y0: int, x1: int, y1: int, X: int, Y: int, err: int)
    requires LineState(x0, y0, x1, y1, X, Y, err, x1, y1)
    ensures X == Abs(x1 - x0) && Y == Abs(y1 - y0)
  {
  }

  /**
   * The first `n` pixels drawn so far start at (x0, y0) and go by king's
   * steps, the last of them one step before the current pixel (cx, cy).
   */
  predicate TraceSoFar(pts: seq<Point>, x0: int, y0: int, cx: int, cy: int, sx: int, sy: int, n: nat)
  {
    && |pts| == n
    && (|pts| == 0 ==> cx == x0 && cy == y0)
    && (|pts| > 0 ==> pts[0] == Point(x0, y0) && KingStep(pts[|pts| - 1], Point(cx, cy), sx, sy))
    && forall k :: 0 <= k < |pts| - 1 ==> KingStep(pts[k], pts[k + 1], sx, sy)
  }

  /** Drawing the current pixel and stepping to the next extends the trace. */
  lemma TraceGrow(pts: seq<Point>, x0: int, y0: int, cx: int, cy: int, nx: int, ny: int, sx: int, sy: int, n: nat)
    requires TraceSoFar(pts, x0, y0, cx, cy, sx, sy, n) && KingStep(Point(cx, cy), Point(nx, ny), sx, sy)
    ensures TraceSoFar(pts + [Point(cx, cy)], x0, y0, nx, ny, sx, sy, n + 1)
  {
    var q := pts + [Point(cx, cy)];
    forall k | 0 <= k < |q| - 1
      ensures KingStep(q[k], q[k + 1], sx, sy)
    {
      if k < |pts| - 1 {
        assert q[k] == pts[k] && q[k + 1] == pts[k + 1];
      }
    }
  }

  /** Drawing the end point completes the trace of the whole line. */
  lemma TraceDone(pts: seq<Point>, x0: int, y0: int, x1: int, y1: int, sx: int, sy: int)
    requires sx == (if x0 < x1 then 1 else -1) && sy == (if y0 < y1 then 1 else -1)
    requires TraceSoFar(pts, x0, y0, x1, y1, sx, sy, if Abs(x1 - x0) > Abs(y1 - y0) then Abs(x1 - x0) else Abs(y1 - y0))
    ensures LineTrace(pts + [Point(x1, y1)], x0, y0, x1, y1)
  {
    var q := pts + [Point(x1, y1)];
    forall k | 0 <= k < |q| - 1
      ensures KingStep(q[k], q[k + 1], sx, sy)
    {
      if k < |pts| - 1 {
        assert q[k] == pts[k] && q[k + 1] == pts[k + 1];
      }
    }
  }

  /**
   * One iteration's update of `e_xy`, `x0` and `y0` in `g_draw_line`, after
   * the current pixel (cx, cy), which is not the end point, has been drawn:
   * the loop state moves on by one king's step and the trace grows by (cx, cy).
   */
  method Advance(x0: int, y0: int, x1: int, y1: int, dx: int, dy: int, sx: int, sy: int, err: int, cx: int, cy: int,
                 ghost X: int, ghost Y: int, ghost drawn: seq<Point>)
    returns (err': int, cx': int, cy': int, ghost X': int, ghost Y': int)
    requires x0 != x1 && y0 != y1 && Abs(x1 - x0) < 0x8000 && Abs(y1 - y0) < 0x8000
    requires dx == Abs(x1 - x0) && dy == Abs(y1 - y0) && sx == (if x0 < x1 then 1 else -1) && sy == (if y0 < y1 then 1 else -1)
    requires LineState(x0, y0, x1, y1, X, Y, err, cx, cy) && !(cx == x1 && cy == y1)
    requires TraceSoFar(drawn, x0, y0, cx, cy, sx, sy, if dx > dy then X else Y)
    ensures err' == StepErr(dx, dy, err) && cx' == StepX(dx, err, cx, sx) && cy' == StepY(dy, err, cy, sy)
    ensures LineState(x0, y0, x1, y1, X', Y', err', cx', cy')
    ensures TraceSoFar(drawn + [Point(cx, cy)], x0, y0, cx', cy', sx, sy, if dx > dy then X' else Y')
    ensures 0 <= (dx - X') + (dy - Y') < (dx - X) + (dy - Y)
  {
    BresStep(x0, y0, x1, y1, X, Y, err, cx, cy);
    X', Y' := StepX(dx, err, X, 1), StepY(dy, err, Y, 1);
    var e := err;
    err', cx', cy' := err, cx, cy;
    if e > -dx {
      err' := Int16(err' - dy);
      cx' := cx' + sx;
    }
    if e < dy {
      err' := Int16(err' + dx);
      cy' := cy' + sy;
    }
    TraceGrow(drawn, x0, y0, cx, cy, cx', cy', sx, sy, if dx > dy then X else Y);
  }

  // ----- g_draw_bitmap_mono and g_draw_char -----

  /** The pixels `g_draw_bitmap_mono` draws in row `v` of a bitmap, among its first `n` columns, left to right. */
  function RowInk(bm: seq<byte>, wb: nat, v: nat, n: nat, x: int, y: int): seq<Point>
  {
    if n == 0 then []
    else
      var here := if PixelSet(bm, wb, v, n - 1) then [Point(Int16(x + n - 1), Int16(y + v))] else [];
      RowInk(bm, wb, v, n - 1, x, y) + here
  }

  /** The pixels `g_draw_bitmap_mono` draws in the first `m` rows of a `w`-column bitmap, row by row. */
  function BitmapInk(bm: seq<byte>, wb: nat, w: nat, m: nat, x: int, y: int): seq<Point>
  {
    if m == 0 then [] else BitmapInk(bm, wb, w, m - 1, x, y) + RowInk(bm, wb, m - 1, w, x, y)
  }

  /** Column `u` of a `w`-pixel row lies in one of its `ceil(w / 8)` bytes, so row `v < h` reads inside `wb * h` bytes. */
  lemma ColumnByte(u: nat, w: nat, wb: nat, v: nat, h: nat)
    requires u < w && wb == WidthBytes(w) && v < h
    ensures u / 8 < wb
    ensures 0 <= wb * v + u / 8 < wb * h
  {
    assert u == 8 * (u / 8) + u % 8;
    RowOffset(wb, v, u / 8, h);
  }

  /** One more column of row `v` adds its pixel exactly when the firmware's bit test passes. */
  lemma RowInkStep(bm: seq<byte>, wb: nat, v: nat, u: nat, x: int, y: int)
    requires wb * v + u / 8 < |bm|
    ensures RowInk(bm, wb, v, u + 1, x, y)
         == RowInk(bm, wb, v, u, x, y) + if bm[wb * v + u / 8] & Mask(NotAnd7(u)) != 0 then [Point(Int16(x + u), Int16(y + v))] else []
  {
  }

  /** Row `v` draws exactly the set columns `u < n`, each at (x + u, y + v) as `g_coord_t`. */
  lemma {:induction false} RowInkMembers(bm: seq<byte>, wb: nat, v: nat, n: nat, x: int, y: int)
    ensures forall u :: 0 <= u < n && PixelSet(bm, wb, v, u) ==> Point(Int16(x + u), Int16(y + v)) in RowInk(bm, wb, v, n, x, y)
    ensures forall p :: p in RowInk(bm, wb, v, n, x, y) ==>
      exists u :: 0 <= u < n && PixelSet(bm, wb, v, u) && p == Point(Int16(x + u), Int16(y + v))
  {
    if n > 0 {
      RowInkMembers(bm, wb, v, n - 1, x, y);
    }
  }

  /**
   * A bitmap draws exactly its set pixels: every set pixel (u, v) at
   * (x + u, y + v), and nothing that is not such a pixel.
   */
  lemma {:induction false} BitmapInkMembers(bm: seq<byte>, wb: nat, w: nat, m: nat, x: int, y: int)
    ensures forall v, u :: 0 <= v < m && 0 <= u < w && PixelSet(bm, wb, v, u) ==>
      Point(Int16(x + u), Int16(y + v)) in BitmapInk(bm, wb, w, m, x, y)
    ensures forall p :: p in BitmapInk(bm, wb, w, m, x, y) ==>
      exists v, u :: 0 <= v < m && 0 <= u < w && PixelSet(bm, wb, v, u) && p == Point(Int16(x + u), Int16(y + v))
  {
    if m > 0 {
      BitmapInkMembers(bm, wb, w, m - 1, x, y);
      RowInkMembers(bm, wb, m - 1, w, x, y);
    }
  }

  /**
   * Drawing a glyph packed from an image, where no coordinate wraps, draws
   * pixel (x + u, y + v) exactly when the image's pixel (u, v) is nonzero.
   */
  lemma DrawsPackedImage(img: seq<seq<int>>, w: nat, x: int, y: int, u: nat, v: nat)
    requires Rectangular(img, w) && v < |img| && u < w
    requires InCoord(x) && InCoord(y) && InCoord(x + w) && InCoord(y + |img|)
    ensures Point(x + u, y + v) in BitmapInk(PackGlyph(img), WidthBytes(w), w, |img|, x, y) <==> img[v][u] != 0
  {
    PackThenTest(img, w, v, u);
    InkAt(PackGlyph(img), WidthBytes(w), w, |img|, x, y, u, v);
  }

  /** Where no coordinate wraps, the bitmap draws pixel (x + u, y + v) exactly when bit (v, u) is set. */
  lemma InkAt(bm: seq<byte>, wb: nat, w: nat, m: nat, x: int, y: int, u: nat, v: nat)
    requires v < m && u < w
    requires InCoord(x) && InCoord(y) && InCoord(x + w) && InCoord(y + m)
    ensures Point(x + u, y + v) in BitmapInk(bm, wb, w, m, x, y) <==> PixelSet(bm, wb, v, u)
  {
    var p := Point(x + u, y + v);
    if PixelSet(bm, wb, v, u) {
      BitmapInkMembers(bm, wb, w, m, x, y);
      assert p == Point(Int16(x + u), Int16(y + v));
    }
    if p in BitmapInk(bm, wb, w, m, x, y) {
      var v', u' := InkWitness(bm, wb, w, m, x, y, p);
      assert Int16(x + u') == x + u' && Int16(y + v') == y + v';
    }
  }

  /** A pixel the bitmap draws comes from some set bit (v, u). */
  lemma InkWitness(bm: seq<byte>, wb: nat, w: nat, m: nat, x: int, y: int, p: Point) returns (v: nat, u: nat)
    requires p in BitmapInk(bm, wb, w, m, x, y)
    ensures v < m && u < w && PixelSet(bm, wb, v, u) && p == Point(Int16(x + u), Int16(y + v))
  {
    BitmapInkMembers(bm, wb, w, m, x, y);
    var v', u' :| 0 <= v' < m && 0 <= u' < w && PixelSet(bm, wb, v', u') && p == Point(Int16(x + u'), Int16(y + v'));
    v, u := v', u';
  }

  /** The VDB: the screen region it stands for and its colour buffer. */
  class Vdb {
    var region: Region
    var buf: array<Color>

    /** The buffer holds the region's `width * height` cells. */
    predicate Valid()
      reads this
    {
      Window(region) && Width(region) * Height(region) <= buf.Length
    }

    /** `g_draw_pixel(x, y, color)`: sets the pixel's cell when the pixel is inside the region. */
    method DrawPixel(x: int, y: int, color: Color)
      requires Valid() && InCoord(x) && InCoord(y)
      modifies buf
      ensures buf[..] == Paint(old(buf[..]), Width(region), PixelCells(region, x, y), color)
    {
      ghost var s0 := buf[..];
      if x < region.x0 || y < region.y0 || x > region.x1 || y > region.y1 {
        PaintNothing(s0, Width(region), NoCells, color);
        return;
      }
      PixelCell(region, x, y);
      var i := (y - region.y0) * Width(region) + x - region.x0;
      buf[i] := color;
      forall j | 0 <= j < buf.Length
        ensures buf[j] == Paint(s0, Width(region), PixelCells(region, x, y), color)[j]
      {
        CellOf(Width(region), j, y - region.y0, x - region.x0);
      }
    }
    /**
     * `g_draw_hline(x, y, width, color, thickness)`: nothing for thickness 0;
     * for thickness 1 the run of row `y` clipped to the VDB; otherwise a
     * filled rectangle `thickness / 2` rows either side of `y`.
     */
    method HLine(x: int, y: int, width: nat, color: Color, thickness: nat)
      requires Valid() && InCoord(x) && InCoord(y) && width < 0x1_0000 && thickness < 0x1_0000
      requires HLineFits(region, x, y, width, thickness)
      modifies buf
      ensures buf[..] == Paint(old(buf[..]), Width(region), HLineCells(region, x, y, width, thickness), color)
      decreases thickness, 0
    {
      if thickness < 1 {
        PaintNothing(buf[..], Width(region), NoCells, color);
      } else if thickness == 1 {
        HRun(x, y, width, color);
      } else {
        RectFilled(buf[..], region, HRect(x, y, width, thickness), color);
        DrawRect(HRect(x, y, width, thickness), color, Filled);
      }
    }

    /** The thickness-1 branch of `g_draw_hline`: one write per column of the clipped run. */
    method HRun(x: int, y: int, width: nat, color: Color)
      requires Valid() && InCoord(x) && InCoord(y) && width < 0x1_0000
      requires HLineFits(region, x, y, width, 1)
      modifies buf
      ensures buf[..] == Paint(old(buf[..]), Width(region), HCells(region, x, y, width), color)
    {
      ghost var s0 := buf[..];
      if y < region.y0 || y > region.y1 {
        PaintNothing(s0, Width(region), NoCells, color);
        return;
      }
      var vdbWidth := Width(region);
      WindowSize(region);
      var cx: int := if x < region.x0 then 0 else Int16(x - region.x0);
      var x1: int := if x + width - 1 > region.x1 then Int16(vdbWidth) else Int16(x + width - region.x0);
      ghost var lo := cx;
      var row := y - region.y0;
      assert HCells(region, x, y, width) == Cells(lo, x1 - 1, row, row);
      PaintNothing(s0, vdbWidth, Cells(lo, lo - 1, row, row), color);
      if x1 <= lo {
        PaintNothing(s0, vdbWidth, Cells(lo, x1 - 1, row, row), color);
      }
      while cx < x1
        invariant cx == lo || lo <= cx <= x1
        invariant buf[..] == Paint(s0, vdbWidth, Cells(lo, cx - 1, row, row), color)
      {
        CellBound(vdbWidth, Height(region), row, cx);
        PaintRowStep(s0, vdbWidth, row, lo, cx, color);
        buf[row * vdbWidth + cx] := color;
        cx := cx + 1;
      }
    }

    /** `g_draw_vline(x, y, height, color, thickness)`: the same, down column `x`. */
    method VLine(x: int, y: int, height: nat, color: Color, thickness: nat)
      requires Valid() && InCoord(x) && InCoord(y) && height < 0x1_0000 && thickness < 0x1_0000
      requires VLineFits(region, x, y, height, thickness)
      modifies buf
      ensures buf[..] == Paint(old(buf[..]), Width(region), VLineCells(region, x, y, height, thickness), color)
      decreases thickness, 0
    {
      if thickness < 1 {
        PaintNothing(buf[..], Width(region), NoCells, color);
      } else if thickness == 1 {
        VRun(x, y, height, color);
      } else {
        RectFilled(buf[..], region, VRect(x, y, height, thickness), color);
        DrawRect(VRect(x, y, height, thickness), color, Filled);
      }
    }

    /** The thickness-1 branch of `g_draw_vline`: one write per row of the clipped run. */
    method VRun(x: int, y: int, height: nat, color: Color)
      requires Valid() && InCoord(x) && InCoord(y) && height < 0x1_0000
      requires VLineFits(region, x, y, height, 1)
      modifies buf
      ensures buf[..] == Paint(old(buf[..]), Width(region), VCells(region, x, y, height), color)
    {
      ghost var s0 := buf[..];
      if x < region.x0 || x > region.x1 {
        PaintNothing(s0, Width(region), NoCells, color);
        return;
      }
      var vdbWidth := Width(region);
      WindowSize(region);
      var cy: int := if y < region.y0 then 0 else Int16(y - region.y0);
      var y1: int := if y + height - 1 > region.y1 then Int16(Height(region)) else Int16(y + height - region.y0);
      ghost var lo, col := cy, x - region.x0;
      assert VCells(region, x, y, height) == Cells(col, col, lo, y1 - 1);
      PaintNothing(s0, vdbWidth, Cells(col, col, lo, lo - 1), color);
      if y1 <= lo {
        PaintNothing(s0, vdbWidth, Cells(col, col, lo, y1 - 1), color);
      }
      while cy < y1
        invariant cy == lo || lo <= cy <= y1
        invariant buf[..] == Paint(s0, vdbWidth, Cells(col, col, lo, cy - 1), color)
      {
        CellBound(vdbWidth, Height(region), cy, col);
        PaintColStep(s0, vdbWidth, col, lo, cy, color);
        buf[cy * vdbWidth + x - region.x0] := color;
        cy := cy + 1;
      }
    }

    /**
     * `g_draw_rect(region, color, thickness)`: clamps the rectangle to the
     * VDB and gives up when nothing is left; `G_FILLED` paints the first row
     * cell by cell and copies it to the rows below, any other thickness
     * draws the four edges as lines.
     */
    method DrawRect(r: Region, color: Color, thickness: nat)
      requires Valid() && RectFits(region, r) && thickness < 0x1_0000
      requires thickness != Filled ==> OutlineFits(region, r, thickness)
      modifies buf
      ensures buf[..] == RectPaint(old(buf[..]), region, r, color, thickness)
      decreases thickness, 2
    {
      var v := region;
      WindowSize(v);
      var fr := Region(if r.x0 <= v.x0 then 0 else Int16(r.x0 - v.x0),
                       if r.y0 <= v.y0 then 0 else Int16(r.y0 - v.y0),
                       if r.x1 > v.x1 then Int16(Width(v) - 1) else Int16(r.x1 - v.x0),
                       if r.y1 > v.y1 then Int16(Height(v) - 1) else Int16(r.y1 - v.y0));
      FillRegionFits(v, r);
      if fr.x1 < 0 || fr.y1 < 0 || fr.y0 > fr.y1 || fr.x0 > fr.x1 {
        return;
      }
      if thickness == Filled {
        FillBlock(fr, color);
      } else {
        DrawOutline(r, color, thickness);
      }
    }

    /** The outline branch of `g_draw_rect`: top, bottom, left and right edge, in that order. */
    method DrawOutline(r: Region, color: Color, thickness: nat)
      requires Valid() && Coords(r) && 0 < thickness < 0x1_0000 && OutlineFits(region, r, thickness)
      modifies buf
      ensures buf[..] == Outline(old(buf[..]), region, r, color, thickness)
      decreases thickness, 1
    {
      HLine(r.x0, r.y0, U16(Width(r)), color, thickness);
      HLine(r.x0, r.y1, U16(Width(r)), color, thickness);
      VLine(r.x0, r.y0, U16(Height(r)), color, thickness);
      VLine(r.x1, r.y0, U16(Height(r)), color, thickness);
    }

    /**
     * The `G_FILLED` branch of `g_draw_rect` on a clamped, non-empty region
     * `fr`: the first row cell by cell, then a `memcpy` of that row into
     * each row below.
     */
    method FillBlock(fr: Region, color: Color)
      requires Valid() && 0 <= fr.x0 <= fr.x1 < Width(region) && 0 <= fr.y0 <= fr.y1 < Height(region)
      modifies buf
      ensures buf[..] == Paint(old(buf[..]), Width(region), Cells(fr.x0, fr.x1, fr.y0, fr.y1), color)
    {
      ghost var s0 := buf[..];
      var vdbWidth := Width(region);
      var base := fr.y0 * vdbWidth;
      var c := fr.x0;
      while c <= fr.x1
        invariant fr.x0 <= c <= fr.x1 + 1
        invariant buf[..] == Paint(s0, vdbWidth, Cells(fr.x0, c - 1, fr.y0, fr.y0), color)
      {
        CellBound(vdbWidth, Height(region), fr.y0, c);
        PaintRowStep(s0, vdbWidth, fr.y0, fr.x0, c, color);
        buf[base + c] := color;
        c := c + 1;
      }
      CopyRows(fr, color, s0);
    }

    /** The `memcpy` of the filled first row of `fr` into each row below it. */
    method CopyRows(fr: Region, color: Color, ghost s0: seq<Color>)
      requires Valid() && 0 <= fr.x0 <= fr.x1 < Width(region) && 0 <= fr.y0 <= fr.y1 < Height(region)
      requires |s0| == buf.Length && buf[..] == Paint(s0, Width(region), Cells(fr.x0, fr.x1, fr.y0, fr.y0), color)
      modifies buf
      ensures buf[..] == Paint(s0, Width(region), Cells(fr.x0, fr.x1, fr.y0, fr.y1), color)
    {
      var vdbWidth := Width(region);
      var first := fr.y0 * vdbWidth + fr.x0;
      var n := fr.x1 - fr.x0 + 1;
      var rowBase := fr.y0 * vdbWidth + vdbWidth;
      MulSucc(vdbWidth, fr.y0);
      var row := fr.y0 + 1;
      while row <= fr.y1
        invariant fr.y0 + 1 <= row <= fr.y1 + 1
        invariant rowBase == row * vdbWidth
        invariant buf[..] == Paint(s0, vdbWidth, Cells(fr.x0, fr.x1, fr.y0, row - 1), color)
      {
        CopyRow(fr, color, s0, row, rowBase, first, n);
        MulSucc(vdbWidth, row);
        rowBase := rowBase + vdbWidth;
        row := row + 1;
      }
    }

    /** One pass of the copy loop: `memcpy(buf + x0, first_row, n)` for row `row`, whose cells start at `rowBase`. */
    method CopyRow(fr: Region, color: Color, ghost s0: seq<Color>, row: int, rowBase: int, first: int, n: int)
      requires Valid() && 0 <= fr.x0 <= fr.x1 < Width(region) && 0 <= fr.y0 < row < Height(region)
      requires rowBase == row * Width(region) && first == fr.y0 * Width(region) + fr.x0 && n == fr.x1 - fr.x0 + 1
      requires |s0| == buf.Length && buf[..] == Paint(s0, Width(region), Cells(fr.x0, fr.x1, fr.y0, row - 1), color)
      modifies buf
      ensures buf[..] == Paint(s0, Width(region), Cells(fr.x0, fr.x1, fr.y0, row), color)
    {
      CopyRowStep(s0, Width(region), Height(region), fr, row, rowBase, color);
      Memcpy(buf, rowBase + fr.x0, first, n);
    }

    /**
     * `g_draw_line(x0, y0, x1, y1, color, thickness)`: a vertical or a
     * horizontal line through `g_draw_vline` / `g_draw_hline`, any other line
     * pixel by pixel with Bresenham's algorithm (thickness then ignored);
     * `pts` are the pixels passed to `g_draw_pixel`, in order.
     */
    method DrawLine(x0: int, y0: int, x1: int, y1: int, color: Color, thickness: nat) returns (ghost pts: seq<Point>)
      requires Valid() && InCoord(x0) && InCoord(y0) && InCoord(x1) && InCoord(y1) && thickness < 0x1_0000
      requires x0 == x1 ==> VLineFits(region, x0, Min(y0, y1), U16(Abs(y1 - y0) + 1), thickness)
      requires x0 != x1 && y0 == y1 ==> HLineFits(region, Min(x0, x1), y0, U16(Abs(x1 - x0) + 1), thickness)
      requires x0 != x1 && y0 != y1 ==> Abs(x1 - x0) < 0x8000 && Abs(y1 - y0) < 0x8000
      modifies buf
      ensures x0 == x1 ==>
        buf[..] == Paint(old(buf[..]), Width(region), VLineCells(region, x0, Min(y0, y1), U16(Abs(y1 - y0) + 1), thickness), color)
      ensures x0 != x1 && y0 == y1 ==>
        buf[..] == Paint(old(buf[..]), Width(region), HLineCells(region, Min(x0, x1), y0, U16(Abs(x1 - x0) + 1), thickness), color)
      ensures x0 != x1 && y0 != y1 ==>
        LineTrace(pts, x0, y0, x1, y1) && buf[..] == PaintPoints(old(buf[..]), region, pts, color)
    {
      pts := [];
      if x0 == x1 {
        VLine(Min(x0, x1), Min(y0, y1), U16(Abs(y1 - y0) + 1), color, thickness);
        return;
      }
      if y0 == y1 {
        HLine(Min(x0, x1), Min(y0, y1), U16(Abs(x1 - x0) + 1), color, thickness);
        return;
      }
      pts := Bresenham(x0, y0, x1, y1, color);
    }

    /** The pixel-by-pixel branch of `g_draw_line`. */
    method Bresenham(x0: int, y0: int, x1: int, y1: int, color: Color) returns (ghost pts: seq<Point>)
      requires Valid() && InCoord(x0) && InCoord(y0) && InCoord(x1) && InCoord(y1)
      requires x0 != x1 && y0 != y1 && Abs(x1 - x0) < 0x8000 && Abs(y1 - y0) < 0x8000
      modifies buf
      ensures LineTrace(pts, x0, y0, x1, y1) && buf[..] == PaintPoints(old(buf[..]), region, pts, color)
    {
      ghost var s0 := buf[..];
      var dx: int := Abs(x1 - x0);
      var sx := if x0 < x1 then 1 else -1;
      var dy: int := Abs(y1 - y0);
      var sy := if y0 < y1 then 1 else -1;
      var err := CDiv(if dx > dy then dx else -dy, 2);
      var cx, cy := x0, y0;
      ghost var X, Y := 0, 0;
      BresStart(dx, dy);
      pts := [];
      while true
        invariant LineState(x0, y0, x1, y1, X, Y, err, cx, cy)
        invariant TraceSoFar(pts, x0, y0, cx, cy, sx, sy, if dx > dy then X else Y)
        invariant buf[..] == PaintPoints(s0, region, pts, color)
        decreases (dx - X) + (dy - Y)
      {
        DrawPixel(cx, cy, color);
        ghost var drawn := pts;
        PaintPointsSnoc(s0, region, pts, Point(cx, cy), color);
        pts := pts + [Point(cx, cy)];
        if cx == x1 && cy == y1 {
          BresEnd(x0, y0, x1, y1, X, Y, err);
          TraceDone(drawn, x0, y0, x1, y1, sx, sy);
          break;
        }
        err, cx, cy, X, Y := Advance(x0, y0, x1, y1, dx, dy, sx, sy, err, cx, cy, X, Y, drawn);
      }
    }
    /**
     * `g_draw_bitmap_mono(x, y, bitmap, width, height, color)`: tests every
     * bit of a packed one-bit bitmap, row by row with stride
     * `ceil(width / 8)`, and draws a pixel for each set bit.
     */
    method DrawBitmapMono(x: int, y: int, bitmap: seq<byte>, width: nat, height: nat, color: Color) returns (ghost pts: seq<Point>)
      requires Valid() && InCoord(x) && InCoord(y) && width < 0x8000 && height < 0x8000
      requires WidthBytes(width) * height <= |bitmap|
      modifies buf
      ensures pts == BitmapInk(bitmap, WidthBytes(width), width, height, x, y)
      ensures buf[..] == PaintPoints(old(buf[..]), region, pts, color)
    {
      ghost var s0 := buf[..];
      var widthBytes := WidthBytes(width);
      pts := [];
      var v := 0;
      while v < height
        invariant 0 <= v <= height
        invariant pts == BitmapInk(bitmap, widthBytes, width, v, x, y)
        invariant buf[..] == PaintPoints(s0, region, pts, color)
      {
        ghost var row := DrawBitmapRow(x, y, bitmap, widthBytes, width, height, v, color);
        PaintPointsAppend(s0, region, pts, row, color);
        pts := pts + row;
        v := v + 1;
      }
    }

    /** Row `v` of `g_draw_bitmap_mono`: the inner loop over the columns. */
    method DrawBitmapRow(x: int, y: int, bitmap: seq<byte>, widthBytes: nat, width: nat, height: nat, v: nat, color: Color)
      returns (ghost row: seq<Point>)
      requires Valid() && InCoord(x) && InCoord(y) && width < 0x8000 && v < height < 0x8000
      requires widthBytes == WidthBytes(width) && widthBytes * height <= |bitmap|
      modifies buf
      ensures row == RowInk(bitmap, widthBytes, v, width, x, y)
      ensures buf[..] == PaintPoints(old(buf[..]), region, row, color)
    {
      ghost var s0 := buf[..];
      row := [];
      var u := 0;
      while u < width
        invariant 0 <= u <= width
        invariant row == RowInk(bitmap, widthBytes, v, u, x, y)
        invariant buf[..] == PaintPoints(s0, region, row, color)
      {
        ColumnByte(u, width, widthBytes, v, height);
        RowInkStep(bitmap, widthBytes, v, u, x, y);
        if bitmap[widthBytes * v + u / 8] & Mask(NotAnd7(u)) != 0 {
          DrawPixel(Int16(x + u), Int16(y + v), color);
          PaintPointsSnoc(s0, region, row, Point(Int16(x + u), Int16(y + v)), color);
          row := row + [Point(Int16(x + u), Int16(y + v))];
        }
        u := u + 1;
      }
    }

    /**
     * `g_draw_char(x, y, character, color)`: draws the glyph of the
     * character from the current font as a `width` by `height` bitmap at (x, y).
     */
    method DrawChar(x: int, y: int, c: int, f: Font, color: Color) returns (ghost pts: seq<Point>)
      requires Valid() && InCoord(x) && InCoord(y) && ByteFields(f) && HasGlyph(f, c)
      modifies buf
      ensures pts == BitmapInk(GlyphOf(f, c), WidthBytes(f.width), f.width, f.height, x, y)
      ensures buf[..] == PaintPoints(old(buf[..]), region, pts, color)
    {
      pts := DrawBitmapMono(x, y, GlyphOf(f, c), f.width, f.height, color);
    }
  }
}
