/**
 * The ink width of a glyph, used by proportional layout: the previewer's
 * `binary` / `rightmost_bit` / `glyph_width` (parse_string.py) and the
 * firmware's `_rightmost_bit` / `_glyph_width` / `_glyph_width_multibytes`
 * (graphics.c). Both are measured against one reference: one past the
 * right-most column that has a set pixel in some row.
 */
module InkWidth {
  import opened Bits
  import PyOps
  import opened GlyphPack
  import opened BitmapFont

  // ---------------------------------------------------------------------------
  // The reference
  // ---------------------------------------------------------------------------

  /** Column `u` has a set pixel in one of the rows below `n`. */
  predicate ColumnInk(g: seq<byte>, wb: nat, n: nat, u: nat)
  {
    n > 0 && (PixelSet(g, wb, n - 1, u) || ColumnInk(g, wb, n - 1, u))
  }

  lemma {:induction false} ColumnInkAny(g: seq<byte>, wb: nat, n: nat, u: nat)
    ensures ColumnInk(g, wb, n, u) <==> exists v :: 0 <= v < n && PixelSet(g, wb, v, u)
  {
    if n > 0 {
      ColumnInkAny(g, wb, n - 1, u);
    }
  }

  /** `r` is one past the right-most column below `n` with ink in one of the `h` rows; 0 when there is none. */
  predicate RightEdge(g: seq<byte>, wb: nat, h: nat, n: nat, r: nat)
  {
    && r <= n
    && (forall u :: r <= u < n ==> !ColumnInk(g, wb, h, u))
    && (r > 0 ==> ColumnInk(g, wb, h, r - 1))
  }

  lemma RightEdgeUnique(g: seq<byte>, wb: nat, h: nat, n: nat, r1: nat, r2: nat)
    requires RightEdge(g, wb, h, n, r1) && RightEdge(g, wb, h, n, r2)
    ensures r1 == r2
  {
  }

  /** The columns below `n`, scanned right to left: one past the first one with ink. */
  function LastInk(g: seq<byte>, wb: nat, h: nat, n: nat): (r: nat)
    ensures RightEdge(g, wb, h, n, r)
  {
    if n == 0 then 0
    else if ColumnInk(g, wb, h, n - 1) then n
    else LastInk(g, wb, h, n - 1)
  }

  /** Ink width of a glyph of `h` rows of `wb` bytes: right-most set column + 1. */
  function InkWidth(g: seq<byte>, wb: nat, h: nat): nat
  {
    LastInk(g, wb, h, 8 * wb)
  }

  /** The ink width stated pixel by pixel: no set pixel at or right of it, one just left of it, 0 only for a blank glyph. */
  lemma InkWidthSpec(g: seq<byte>, wb: nat, h: nat)
    ensures InkWidth(g, wb, h) <= 8 * wb
    ensures forall v, u :: 0 <= v < h && InkWidth(g, wb, h) <= u < 8 * wb ==> !PixelSet(g, wb, v, u)
    ensures InkWidth(g, wb, h) > 0 ==> exists v, u :: 0 <= v < h && u == InkWidth(g, wb, h) - 1 && PixelSet(g, wb, v, u)
    ensures InkWidth(g, wb, h) == 0 <==> forall v, u :: 0 <= v < h && 0 <= u < 8 * wb ==> !PixelSet(g, wb, v, u)
  {
    var r := InkWidth(g, wb, h);
    forall v, u | 0 <= v < h && 0 <= u < 8 * wb
      ensures PixelSet(g, wb, v, u) ==> ColumnInk(g, wb, h, u)
    {
      ColumnInkAny(g, wb, h, u);
    }
    if r > 0 {
      ColumnInkAny(g, wb, h, r - 1);
    }
  }

  /** A set pixel in the last padded column makes the glyph as wide as its rows: `8 * ceil(width / 8)`. */
  lemma LastColumnInk(g: seq<byte>, wb: nat, h: nat, v: nat)
    requires wb > 0 && v < h && PixelSet(g, wb, v, 8 * wb - 1)
    ensures InkWidth(g, wb, h) == 8 * wb
  {
    ColumnInkAny(g, wb, h, 8 * wb - 1);
  }

  /** A glyph whose padding bits are clear (as the converter writes them) is no wider than the font. */
  lemma PaddedInkWidth(g: seq<byte>, w: nat, h: nat)
    requires |g| == h * WidthBytes(w) && PaddingClear(g, w, h)
    ensures InkWidth(g, WidthBytes(w), h) <= w
  {
    var r := InkWidth(g, WidthBytes(w), h);
    if r > 0 {
      ColumnInkAny(g, WidthBytes(w), h, r - 1);
    }
  }

  // ---------------------------------------------------------------------------
  // Column bytes: the firmware ORs byte `j` of every row
  // ---------------------------------------------------------------------------

  /** A glyph byte, 0 past the end. */
  function ByteAt(g: seq<byte>, i: nat): byte
  {
    if i < |g| then g[i] else 0
  }

  /** OR of byte `j` of each of the first `n` rows. */
  function ColOr(g: seq<byte>, wb: nat, j: nat, n: nat): byte
  {
    if n == 0 then 0 else ColOr(g, wb, j, n - 1) | ByteAt(g, wb * (n - 1) + j)
  }

  /** Bit `k` of byte `j` of row `v` is pixel `8 * j + 7 - k`. */
  lemma ColumnPixel(g: seq<byte>, wb: nat, v: nat, j: nat, k: nat)
    requires k < 8
    ensures PixelSet(g, wb, v, 8 * j + 7 - k) <==> BitSet(ByteAt(g, wb * v + j), k)
  {
    var u := 8 * j + 7 - k;
    assert u / 8 == j && u % 8 == 7 - k;
    NotAnd7IsMsbIndex(u);
    MaskBit(0, k);
  }

  /** Bit `k` of the column OR is set iff pixel `8 * j + 7 - k` has ink in some row. */
  lemma {:induction false} ColOrBit(g: seq<byte>, wb: nat, j: nat, n: nat, k: nat)
    requires k < 8
    ensures BitSet(ColOr(g, wb, j, n), k) <==> ColumnInk(g, wb, n, 8 * j + 7 - k)
  {
    if n == 0 {
      MaskBit(0, k);
    } else {
      ColOrBit(g, wb, j, n - 1, k);
      BitOr(ColOr(g, wb, j, n - 1), ByteAt(g, wb * (n - 1) + j), k);
      ColumnPixel(g, wb, n - 1, j, k);
    }
  }

  /** A zero column byte `j` holds no ink in columns `8 * j .. 8 * j + 7`. */
  lemma ByteBlank(g: seq<byte>, wb: nat, h: nat, j: nat)
    requires ColOr(g, wb, j, h) == 0
    ensures forall u :: 8 * j <= u < 8 * j + 8 ==> !ColumnInk(g, wb, h, u)
  {
    forall u | 8 * j <= u < 8 * j + 8
      ensures !ColumnInk(g, wb, h, u)
    {
      ColOrBit(g, wb, j, h, 8 * j + 7 - u);
      MaskBit(0, 8 * j + 7 - u);
    }
  }

  /** The lowest set bit `t` of the right-most nonzero column byte `j` puts the edge at `8 * j + 8 - t`. */
  lemma ByteEdge(g: seq<byte>, wb: nat, h: nat, j: nat, t: nat)
    requires j < wb && t < 8
    requires BitSet(ColOr(g, wb, j, h), t)
    requires forall k :: 0 <= k < t ==> !BitSet(ColOr(g, wb, j, h), k)
    requires forall u :: 8 * (j + 1) <= u < 8 * wb ==> !ColumnInk(g, wb, h, u)
    ensures RightEdge(g, wb, h, 8 * wb, 8 * j + 8 - t)
  {
    ColOrBit(g, wb, j, h, t);
    forall u | 8 * j + 8 - t <= u < 8 * wb
      ensures !ColumnInk(g, wb, h, u)
    {
      if u < 8 * (j + 1) {
        ColOrBit(g, wb, j, h, 8 * j + 7 - u);
      }
    }
  }

  // ---------------------------------------------------------------------------
  // Firmware
  // ---------------------------------------------------------------------------

  /** `_rightmost_bit`: 8 for the zero byte, otherwise the index of its lowest set bit (`__builtin_ctz`). */
  function RightmostBitC(b: byte): (r: nat)
    ensures r <= 8 && (r == 8 <==> b == 0)
    ensures r < 8 ==> BitSet(b, r) && forall k :: 0 <= k < r ==> !BitSet(b, k)
  {
    if b == 0 then 8 else Ctz(b)
  }

  /**
   * The bytes `_glyph_width` reads for code `c` lie in the store: the whole
   * glyph for a font wider than 8 pixels, `height` bytes otherwise (one byte
   * per row; for a zero-width font that is the first `height` bytes).
   */
  predicate CReadable(f: Font, c: int)
    requires ByteFields(f)
  {
    c >= f.asciiOffset && GlyphOffset(f, c) + (if f.width > 8 then SizeOf(f) else f.height) <= |f.glyphs|
  }

  /** What `_glyph_width` returns, as a `uint8_t`. */
  function CGlyphWidth(f: Font, c: int): (w: nat)
    requires ByteFields(f) && CReadable(f, c)
    ensures w < 256
  {
    var off := GlyphOffset(f, c);
    if f.width > 8 then
      InkWidth(GlyphOf(f, c), WidthBytes(f.width), f.height) % 256
    else
      var g := f.glyphs[off .. off + f.height];
      if f.width == 0 then 8 - RightmostBitC(ColOr(g, 1, 0, f.height))
      else InkWidth(g, 1, f.height)
  }

  /** For a glyph of one-byte rows, `8 - _rightmost_bit(OR of the rows)` is the ink width. */
  lemma NarrowInk(g: seq<byte>, h: nat)
    ensures 8 - RightmostBitC(ColOr(g, 1, 0, h)) == InkWidth(g, 1, h)
  {
    var t := RightmostBitC(ColOr(g, 1, 0, h));
    if t < 8 {
      ByteEdge(g, 1, h, 0, t);
    } else {
      ByteBlank(g, 1, h, 0);
    }
    RightEdgeUnique(g, 1, h, 8, 8 - t, InkWidth(g, 1, h));
  }

  /** `b == wb * q + rr` with `rr < wb`: `rr` is the remainder. */
  lemma RemainderOf(b: nat, wb: nat, q: nat, rr: nat)
    requires rr < wb && b == wb * q + rr
    ensures b % wb == rr
  {
    var q2, r2 := b / wb, b % wb;
    assert b == wb * q2 + r2;
    MulMono(q + 1, q2, wb);
    MulMono(q2 + 1, q, wb);
    assert (q + 1) * wb == q * wb + wb;
    assert (q2 + 1) * wb == q2 * wb + wb;
  }

  /** The end of the OR loop: `wb * h` steps close exactly `h` rows. */
  lemma WholeRows(wb: nat, q: nat, rr: nat, h: nat)
    requires rr < wb && wb * q + rr == wb * h
    ensures q == h && rr == 0
  {
    MulMono(q + 1, h, wb);
    MulMono(h + 1, q, wb);
    assert (q + 1) * wb == q * wb + wb;
    assert (h + 1) * wb == h * wb + wb;
  }

  /** One step of `glyph_bits[b % wb] |= glyph[b]` with `b = wb * q + rr` adds row `q` to column byte `rr`. */
  lemma OrStep(g: seq<byte>, wb: nat, q: nat, rr: nat, b: nat)
    requires b == wb * q + rr && b < |g|
    ensures ColOr(g, wb, rr, q + 1) == ColOr(g, wb, rr, q) | g[b]
  {
  }

  /** The first loop of `_glyph_width_multibytes`: `glyph_bits[b % wb] |= glyph[b]` over the whole glyph. */
  method OrColumns(g: seq<byte>, wb: nat, h: nat) returns (glyphBits: array<byte>)
    requires wb > 0 && |g| == wb * h
    ensures fresh(glyphBits) && glyphBits.Length == wb
    ensures forall j :: 0 <= j < wb ==> glyphBits[j] == ColOr(g, wb, j, h)
  {
    glyphBits := new byte[wb](_ => 0);
    var b := 0;
    ghost var q, rr := 0, 0;
    while b < wb * h
      invariant rr < wb && b == wb * q + rr && b <= |g|
      invariant forall j :: 0 <= j < rr ==> glyphBits[j] == ColOr(g, wb, j, q + 1)
      invariant forall j :: rr <= j < wb ==> glyphBits[j] == ColOr(g, wb, j, q)
    {
      RemainderOf(b, wb, q, rr);
      OrStep(g, wb, q, rr, b);
      glyphBits[b % wb] := glyphBits[b % wb] | g[b];
      if rr + 1 == wb {
        q, rr := q + 1, 0;
      } else {
        rr := rr + 1;
      }
      b := b + 1;
    }
    WholeRows(wb, q, rr, h);
  }

  /** `_glyph_width_multibytes`: OR the rows column byte by column byte, then find the right-most set bit. */
  method GlyphWidthMultibytes(f: Font, c: int) returns (w: nat)
    requires ByteFields(f) && f.width > 8 && HasGlyph(f, c)
    ensures w == InkWidth(GlyphOf(f, c), WidthBytes(f.width), f.height) % 256
  {
    var wb, h := WidthBytes(f.width), f.height;
    var g := GlyphOf(f, c);
    var glyphBits := OrColumns(g, wb, h);

    var j := wb - 1;
    while j >= 0
      invariant -1 <= j < wb
      invariant forall k :: 0 <= k < wb ==> glyphBits[k] == ColOr(g, wb, k, h)
      invariant forall u :: 8 * (j + 1) <= u < 8 * wb ==> !ColumnInk(g, wb, h, u)
    {
      var t := RightmostBitC(glyphBits[j]);
      if t < 8 {
        ByteEdge(g, wb, h, j, t);
        RightEdgeUnique(g, wb, h, 8 * wb, 8 * j + 8 - t, InkWidth(g, wb, h));
        return (8 * j + 8 - t) % 256;
      }
      ByteBlank(g, wb, h, j);
      j := j - 1;
    }
    RightEdgeUnique(g, wb, h, 8 * wb, 0, InkWidth(g, wb, h));
    return 0;
  }

  /** `_glyph_width`: fonts wider than 8 pixels go to the multi-byte scan; otherwise OR the one-byte rows. */
  method GlyphWidthC(f: Font, c: int) returns (w: nat)
    requires ByteFields(f) && CReadable(f, c)
    ensures w == CGlyphWidth(f, c)
  {
    if f.width > 8 {
      w := GlyphWidthMultibytes(f, c);
      return;
    }
    var off := GlyphOffset(f, c);
    ghost var g := f.glyphs[off .. off + f.height];
    var glyphBits: byte := 0;
    var y := 0;
    while y < f.height
      invariant y <= f.height
      invariant glyphBits == ColOr(g, 1, 0, y)
    {
      glyphBits := glyphBits | f.glyphs[off + y];
      y := y + 1;
    }
    w := 8 - RightmostBitC(glyphBits);
    NarrowInk(g, f.height);
  }

  // ---------------------------------------------------------------------------
  // Previewer
  // ---------------------------------------------------------------------------

  /** `bin(b)[2:].zfill(8)`: the eight bits of `b`, most significant first. */
  function ByteBin(b: byte): (s: string)
    ensures |s| == 8
  {
    seq(8, i requires 0 <= i < 8 => if BitSet(b, 7 - i) then '1' else '0')
  }

  /** `binary`: the bit strings of the bytes, joined. */
  function Binary(bytes: seq<byte>): (s: string)
    ensures |s| == 8 * |bytes|
  {
    if bytes == [] then "" else Binary(bytes[..|bytes| - 1]) + ByteBin(bytes[|bytes| - 1])
  }

  /** Bit `j` of a line read left to right: bit `7 - j % 8` of byte `j / 8`. */
  predicate LineBit(line: seq<byte>, j: nat)
  {
    j < 8 * |line| && BitSet(line[j / 8], 7 - j % 8)
  }

  lemma {:induction false} BinaryAt(bytes: seq<byte>, j: nat)
    requires j < 8 * |bytes|
    ensures Binary(bytes)[j] == if LineBit(bytes, j) then '1' else '0'
  {
    var n := |bytes|;
    var init := bytes[..n - 1];
    var q, r := j / 8, j % 8;
    assert j == 8 * q + r;
    if j < 8 * (n - 1) {
      BinaryAt(init, j);
      assert init[q] == bytes[q];
    } else {
      assert q == n - 1;
      assert Binary(bytes)[j] == ByteBin(bytes[n - 1])[r];
    }
  }

  /** `s.rstrip(c)`. */
  function RStrip(s: string, c: char): (r: string)
    ensures |r| <= |s| && r == s[..|r|]
    ensures r == [] || r[|r| - 1] != c
    ensures forall j :: |r| <= j < |s| ==> s[j] == c
  {
    if s != [] && s[|s| - 1] == c then RStrip(s[..|s| - 1], c) else s
  }

  /** `rightmost_bit`: from the right end of the bit string, 0 for no set bit, else the trailing zeros + 1. */
  function RightmostBit(line: seq<byte>): nat
  {
    var b := Binary(line);
    var l := |RStrip(b, '0')|;
    if l == 0 then 0 else |b| - l + 1
  }

  /** The right-most set bit of the line is at position `8 * |line| - rightmost_bit(line)`. */
  lemma RightmostBitSpec(line: seq<byte>)
    ensures RightmostBit(line) <= 8 * |line|
    ensures RightmostBit(line) == 0 <==> forall j :: 0 <= j < 8 * |line| ==> !LineBit(line, j)
    ensures RightmostBit(line) > 0 ==>
      && LineBit(line, 8 * |line| - RightmostBit(line))
      && forall j :: 8 * |line| - RightmostBit(line) < j < 8 * |line| ==> !LineBit(line, j)
  {
    var b := Binary(line);
    var l := |RStrip(b, '0')|;
    forall j | 0 <= j < |b|
      ensures LineBit(line, j) <==> b[j] == '1'
      ensures b[j] == '0' || b[j] == '1'
    {
      BinaryAt(line, j);
    }
    if l > 0 {
      assert b[l - 1] != '0';
    }
  }

  /** Row `i` as the previewer slices it: `glyph[i * width_bytes : (i + 1) * width_bytes]`. */
  function RowSlice(glyph: seq<byte>, wb: nat, i: nat): seq<byte>
  {
    PyOps.Slice(glyph, i * wb, (i + 1) * wb)
  }

  function Max1(n: nat): nat
  {
    if n == 0 then 1 else n
  }

  /** The previewer's width of a whole glyph: its ink width, but at least 1. */
  function PyInkWidth(f: Font, c: int): nat
    requires ByteFields(f) && HasGlyph(f, c)
  {
    Max1(InkWidth(GlyphOf(f, c), WidthBytes(f.width), f.height))
  }

  /** One past the right-most inked column of rows below `n`, counting a blank prefix as 1. */
  predicate Edge1(g: seq<byte>, wb: nat, n: nat, e: int)
  {
    && 1 <= e && (e == 1 || e <= 8 * wb)
    && NoInkFrom(g, wb, n, e)
    && (e > 1 ==> ColumnInk(g, wb, n, e - 1))
  }

  /** No row below `n` has ink in a column from `e` on. */
  predicate NoInkFrom(g: seq<byte>, wb: nat, n: nat, e: int)
  {
    forall u :: 0 <= u && e <= u < 8 * wb ==> !ColumnInk(g, wb, n, u)
  }

  lemma Edge1Max(g: seq<byte>, wb: nat, h: nat, e: int)
    requires Edge1(g, wb, h, e)
    ensures e == Max1(InkWidth(g, wb, h))
  {
  }

  /** Row `n` of a whole glyph, as the previewer slices it. */
  lemma RowSliceIs(g: seq<byte>, wb: nat, h: nat, n: nat)
    requires |g| == wb * h && n < h
    ensures wb * n + wb <= |g| && RowSlice(g, wb, n) == g[wb * n .. wb * n + wb]
  {
    var a, b := n * wb, (n + 1) * wb;
    MulMono(0, n, wb);
    MulMono(n + 1, h, wb);
    assert b == a + wb && a == wb * n;
    assert 0 <= a <= b <= |g|;
    assert RowSlice(g, wb, n) == PyOps.Slice(g, a, b);
  }

  /** Bit `u` of row `n`, read from the row's bytes, is the decoder's pixel test. */
  lemma RowBit(line: seq<byte>, g: seq<byte>, wb: nat, n: nat, u: nat)
    requires wb * n + wb <= |g| && line == g[wb * n .. wb * n + wb] && u < 8 * wb
    ensures LineBit(line, u) <==> PixelSet(g, wb, n, u)
  {
    var q, r := u / 8, u % 8;
    assert u == 8 * q + r && q < wb;
    NotAnd7IsMsbIndex(u);
    assert line[q] == g[wb * n + q];
  }

  /** What `rightmost_bit` of row `n` says in pixels: 0 for a blank row, else the right-most set pixel is `8 * wb - r`. */
  predicate RowRight(g: seq<byte>, wb: nat, n: nat, r: nat)
  {
    && r <= 8 * wb
    && (r == 0 ==> forall u :: 0 <= u < 8 * wb ==> !PixelSet(g, wb, n, u))
    && (r > 0 ==> PixelSet(g, wb, n, 8 * wb - r) && forall u :: 8 * wb - r < u < 8 * wb ==> !PixelSet(g, wb, n, u))
  }

  lemma RowRightmost(line: seq<byte>, g: seq<byte>, wb: nat, n: nat)
    requires wb * n + wb <= |g| && line == g[wb * n .. wb * n + wb]
    ensures RowRight(g, wb, n, RightmostBit(line))
  {
    RightmostBitSpec(line);
    var r := RightmostBit(line);
    assert |line| == wb;
    if r == 0 {
      forall u | 0 <= u < 8 * wb
        ensures !PixelSet(g, wb, n, u)
      {
        RowBit(line, g, wb, n, u);
      }
    } else {
      RowBit(line, g, wb, n, 8 * wb - r);
      forall u | 8 * wb - r < u < 8 * wb
        ensures !PixelSet(g, wb, n, u)
      {
        RowBit(line, g, wb, n, u);
      }
    }
  }

  /** One round of `if r != 0 and r < min_bits: min_bits = r` keeps `Edge1`. */
  lemma EdgeStep(g: seq<byte>, wb: nat, n: nat, m: int, r: nat, m': int)
    requires Edge1(g, wb, n, 8 * wb - m + 1) && RowRight(g, wb, n, r)
    requires m' == if r != 0 && r < m then r else m
    ensures Edge1(g, wb, n + 1, 8 * wb - m' + 1)
  {
    var e, n1 := 8 * wb - m' + 1, n + 1;
    forall u | e <= u < 8 * wb
      ensures !ColumnInk(g, wb, n1, u)
    {
    }
  }

  /**
   * `glyph_width`: the `min_bits` loop over the rows of the sliced glyph. For a
   * whole glyph it is the ink width, with 1 for a blank glyph; for a glyph cut
   * short by the end of the store only its range is stated.
   */
  method GlyphWidthPy(f: Font, c: int) returns (w: int)
    requires ByteFields(f)
    ensures 1 <= w && (w == 1 || w <= 8 * WidthBytes(f.width))
    ensures HasGlyph(f, c) ==> w == PyInkWidth(f, c)
  {
    var wb := WidthBytes(f.width);
    var glyph := PyGlyphOf(f, c);
    var minBits := wb * 8;
    ghost var whole := HasGlyph(f, c);
    var i := 0;
    while i < f.height
      invariant i <= f.height
      invariant minBits <= 8 * wb && (wb > 0 ==> 1 <= minBits) && (wb == 0 ==> minBits == 0)
      invariant whole ==> Edge1(glyph, wb, i, 8 * wb - minBits + 1)
    {
      var line := PyOps.Slice(glyph, i * wb, (i + 1) * wb);
      var r := RightmostBit(line);
      ghost var m := minBits;
      if r != 0 && r < minBits {
        minBits := r;
      }
      if whole {
        PyRowStep(f, c, glyph, i, m, minBits);
      }
      i := i + 1;
    }
    w := 8 * wb - minBits + 1;
    if whole {
      Edge1Max(glyph, wb, f.height, w);
    }
  }

  /** One row of `glyph_width`'s loop keeps its invariant on a whole glyph. */
  lemma PyRowStep(f: Font, c: int, glyph: seq<byte>, i: nat, m: int, m': int)
    requires ByteFields(f) && HasGlyph(f, c) && glyph == GlyphOf(f, c) && i < f.height
    requires Edge1(glyph, WidthBytes(f.width), i, 8 * WidthBytes(f.width) - m + 1)
    requires var r := RightmostBit(PyOps.Slice(glyph, i * WidthBytes(f.width), (i + 1) * WidthBytes(f.width)));
      m' == if r != 0 && r < m then r else m
    ensures Edge1(glyph, WidthBytes(f.width), i + 1, 8 * WidthBytes(f.width) - m' + 1)
  {
    var wb := WidthBytes(f.width);
    var line := PyOps.Slice(glyph, i * wb, (i + 1) * wb);
    RowSliceIs(glyph, wb, f.height, i);
    RowRightmost(line, glyph, wb, i);
    EdgeStep(glyph, wb, i, m, RightmostBit(line), m');
  }

  // ---------------------------------------------------------------------------
  // The two implementations side by side
  // ---------------------------------------------------------------------------

  /**
   * On a whole glyph of a font at least one pixel wide, the firmware returns the
   * ink width (below 256, which the converter's clear padding guarantees) and the
   * previewer returns the same value, except 1 instead of 0 for a blank glyph.
   */
  lemma PreviewerMatchesFirmware(f: Font, c: int)
    requires ByteFields(f) && f.width > 0 && HasGlyph(f, c)
    requires InkWidth(GlyphOf(f, c), WidthBytes(f.width), f.height) < 256
    ensures CReadable(f, c)
    ensures CGlyphWidth(f, c) == InkWidth(GlyphOf(f, c), WidthBytes(f.width), f.height)
    ensures PyInkWidth(f, c) == if CGlyphWidth(f, c) == 0 then 1 else CGlyphWidth(f, c)
  {
    GlyphSizeCases(f.width, f.height);
    WidthBytesSmall(f.width);
  }
}
