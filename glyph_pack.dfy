/**
 * The packed 1-bit glyph format: `glyph2bytes` in the font converter turns a
 * grayscale glyph image into rows of `ceil(w / 8)` bytes, most significant bit
 * first, zero padded; the previewer (`draw_char`) and the firmware
 * (`g_draw_bitmap_mono`) read pixel (u, v) back with the test
 * `glyph[wb * v + (u >> 3)] & (1 << (~u & 7))`.
 */
module GlyphPack {
  import opened Bits

  /** Pixel (x, y) of an image is inside it and non-zero. */
  predicate ImageInk(img: seq<seq<int>>, x: int, y: int)
  {
    0 <= y < |img| && Ink(img[y], x)
  }

  /** Every row of a glyph image has `w` pixels (a 2-D image array). */
  predicate Rectangular(img: seq<seq<int>>, w: nat)
  {
    forall y :: 0 <= y < |img| ==> |img[y]| == w
  }

  /** Pixel `j` of a row is ink: inside the row and non-zero (the padding is blank). */
  predicate Ink(line: seq<int>, j: int)
  {
    0 <= j < |line| && line[j] != 0
  }

  /**
   * The byte built from the eight pixels `line[base..base + 8]` after `n` rounds
   * of `byte |= bit << i` over the reversed chunk: bit `i` holds pixel `base + 7 - i`.
   */
  function ByteBits(line: seq<int>, base: int, n: nat): byte
    requires n <= 8
  {
    if n == 0 then 0
    else ByteBits(line, base, n - 1) | BitIf(Ink(line, base + 7 - (n - 1)), n - 1)
  }

  /** One round of `byte |= (1 if bit else 0) << i` adds pixel `base + 7 - i` as bit `i`. */
  lemma ByteBitsStep(line: seq<int>, base: int, i: nat, bit: int)
    requires i < 8 && (bit != 0 <==> Ink(line, base + 7 - i))
    ensures ByteBits(line, base, i + 1) == ByteBits(line, base, i) | ((if bit != 0 then 1 else 0) << i)
  {
    ShiftIsMask(i);
  }

  /** Byte `b` of a packed row. */
  function RowByte(line: seq<int>, b: nat): byte
  {
    ByteBits(line, 8 * b, 8)
  }

  /** One image row packed into `ceil(|line| / 8)` bytes. */
  function PackRow(line: seq<int>): seq<byte>
  {
    seq(WidthBytes(|line|), b requires 0 <= b => RowByte(line, b))
  }

  /** A whole glyph image packed row after row. */
  function PackGlyph(img: seq<seq<int>>): seq<byte>
  {
    if img == [] then [] else PackGlyph(img[..|img| - 1]) + PackRow(img[|img| - 1])
  }

  /** Two rows with the same ink build the same bytes. */
  lemma {:induction false} SameInkSameBits(a: seq<int>, b: seq<int>, base: int, n: nat)
    requires n <= 8
    requires forall j :: Ink(a, j) <==> Ink(b, j)
    ensures ByteBits(a, base, n) == ByteBits(b, base, n)
  {
    if n > 0 {
      SameInkSameBits(a, b, base, n - 1);
      assert Ink(a, base + 7 - (n - 1)) <==> Ink(b, base + 7 - (n - 1));
    }
  }

  /**
   * The innermost loop of `glyph2bytes`: bit `i` of the byte is pixel `i` of
   * the chunk `line[8 * byteIndex .. 8 * byteIndex + 8]` reversed.
   */
  method PackChunk(line: seq<int>, byteIndex: nat) returns (byte: byte)
    requires 8 * byteIndex + 8 <= |line|
    ensures byte == ByteBits(line, 8 * byteIndex, 8)
  {
    var chunk := line[8 * byteIndex .. 8 * byteIndex + 8];
    var reversed := seq(8, k requires 0 <= k < 8 => chunk[7 - k]);
    byte := 0;
    var i := 0;
    while i < 8
      invariant 0 <= i <= 8
      invariant byte == ByteBits(line, 8 * byteIndex, i)
    {
      var bit := reversed[i];
      assert bit == chunk[7 - i] == line[8 * byteIndex + (7 - i)];
      ByteBitsStep(line, 8 * byteIndex, i, bit);
      byte := byte | ((if bit != 0 then 1 else 0) << i);
      i := i + 1;
    }
  }

  /** `glyph2bytes(glyph_img)`: the nested loops of the converter. */
  method Glyph2Bytes(img: seq<seq<int>>) returns (bytes: seq<byte>)
    ensures bytes == PackGlyph(img)
  {
    bytes := [];
    var y := 0;
    while y < |img|
      invariant 0 <= y <= |img|
      invariant bytes == PackGlyph(img[..y])
    {
      var line := img[y];
      var bytesPerLine := WidthBytes(|line|);
      // Add extra bits to fill the byte
      line := line + seq(8 * bytesPerLine - |line|, _ => 0);
      assert forall j :: Ink(line, j) <==> Ink(img[y], j);
      var byteIndex := 0;
      while byteIndex < bytesPerLine
        invariant 0 <= byteIndex <= bytesPerLine
        invariant bytes == PackGlyph(img[..y]) + PackRow(img[y])[..byteIndex]
      {
        var byte := PackChunk(line, byteIndex);
        SameInkSameBits(line, img[y], 8 * byteIndex, 8);
        assert PackRow(img[y])[..byteIndex + 1] == PackRow(img[y])[..byteIndex] + [byte];
        bytes := bytes + [byte];
        byteIndex := byteIndex + 1;
      }
      assert PackRow(img[y])[..byteIndex] == PackRow(img[y]);
      assert img[..y + 1][..y] == img[..y];
      y := y + 1;
    }
    assert img[..y] == img;
  }

  /** Bit `k` of the packed byte is pixel `base + 7 - k`, for the bits already built. */
  lemma {:induction false} ByteBitsAt(line: seq<int>, base: int, n: nat, k: nat)
    requires n <= 8 && k < 8
    ensures BitSet(ByteBits(line, base, n), k) <==> k < n && Ink(line, base + 7 - k)
  {
    if n > 0 {
      ByteBitsAt(line, base, n - 1, k);
      BitOrMaybe(ByteBits(line, base, n - 1), Ink(line, base + 7 - (n - 1)), n - 1, k);
    }
  }

  /** Pixel `j` of a row is bit `7 - j % 8` of byte `j / 8`; padding bits are zero. */
  lemma PackRowBit(line: seq<int>, j: nat)
    requires j < 8 * WidthBytes(|line|)
    ensures j / 8 < |PackRow(line)|
    ensures BitSet(PackRow(line)[j / 8], 7 - j % 8) <==> Ink(line, j)
    ensures j >= |line| ==> !BitSet(PackRow(line)[j / 8], 7 - j % 8)
  {
    ByteBitsAt(line, 8 * (j / 8), 8, 7 - j % 8);
  }

  /** A packed h x w image is exactly `h * ceil(w / 8)` bytes. */
  lemma {:induction false} PackGlyphLength(img: seq<seq<int>>, w: nat)
    requires Rectangular(img, w)
    ensures |PackGlyph(img)| == |img| * WidthBytes(w)
  {
    if img != [] {
      var n, wb := |img|, WidthBytes(w);
      PackGlyphLength(img[..n - 1], w);
      assert |PackGlyph(img)| == (n - 1) * wb + wb;
      assert (n - 1) * wb + wb == n * wb;
    }
  }

  /** Row-major layout: byte `b` of row `v` sits at offset `wb * v + b`. */
  lemma {:induction false} PackGlyphAt(img: seq<seq<int>>, w: nat, v: nat, b: nat)
    requires Rectangular(img, w)
    requires v < |img| && b < WidthBytes(w)
    ensures WidthBytes(w) * v + b < |PackGlyph(img)|
    ensures PackGlyph(img)[WidthBytes(w) * v + b] == RowByte(img[v], b)
  {
    var n, wb := |img|, WidthBytes(w);
    var init := img[..n - 1];
    PackGlyphLength(init, w);
    var front, last := PackGlyph(init), PackRow(img[n - 1]);
    assert |front| == wb * (n - 1);
    assert PackGlyph(img) == front + last;
    var k := wb * v + b;
    if v < n - 1 {
      PackGlyphAt(init, w, v, b);
      RowOffset(wb, v, b, n - 1);
      assert (front + last)[k] == front[k];
    } else {
      assert k == |front| + b;
      assert (front + last)[k] == last[b];
    }
  }

  /** The decoder's bit test `glyph[wb * v + (u >> 3)] & (1 << (~u & 7))`. */
  predicate GlyphBit(glyph: seq<byte>, wb: nat, v: nat, u: nat)
    requires wb * v + u / 8 < |glyph|
  {
    BitSet(glyph[wb * v + u / 8], NotAnd7(u))
  }

  /** The bit test, false for a byte outside the glyph. */
  predicate PixelSet(glyph: seq<byte>, wb: nat, v: nat, u: nat)
  {
    wb * v + u / 8 < |glyph| && GlyphBit(glyph, wb, v, u)
  }

  /** Testing a packed glyph recovers every pixel of the image it was packed from. */
  lemma PackThenTest(img: seq<seq<int>>, w: nat, v: nat, u: nat)
    requires Rectangular(img, w)
    requires v < |img| && u < w
    ensures WidthBytes(w) * v + u / 8 < |PackGlyph(img)|
    ensures GlyphBit(PackGlyph(img), WidthBytes(w), v, u) <==> img[v][u] != 0
  {
    PackGlyphAt(img, w, v, u / 8);
    NotAnd7IsMsbIndex(u);
    PackRowBit(img[v], u);
  }

  /** `unpack`: the h x w matrix of bit tests over a packed glyph. */
  function Unpack(glyph: seq<byte>, w: nat, h: nat): (m: seq<seq<bool>>)
    requires h * WidthBytes(w) <= |glyph|
    ensures |m| == h && forall v :: 0 <= v < h ==> |m[v]| == w
  {
    seq(h, v requires 0 <= v < h =>
      seq(w, u requires 0 <= u < w =>
        RowOffset(WidthBytes(w), v, u / 8, h);
        GlyphBit(glyph, WidthBytes(w), v, u)))
  }

  /** The truthiness matrix of a grayscale image. */
  function Truthy(img: seq<seq<int>>): seq<seq<bool>>
  {
    seq(|img|, v requires 0 <= v < |img| => seq(|img[v]|, u requires 0 <= u < |img[v]| => img[v][u] != 0))
  }

  /** Round trip: unpacking a packed image gives the image's truthiness. */
  lemma UnpackPack(img: seq<seq<int>>, w: nat)
    requires Rectangular(img, w)
    ensures |PackGlyph(img)| == |img| * WidthBytes(w)
    ensures Unpack(PackGlyph(img), w, |img|) == Truthy(img)
  {
    PackGlyphLength(img, w);
    var m, t := Unpack(PackGlyph(img), w, |img|), Truthy(img);
    forall v | 0 <= v < |img|
      ensures m[v] == t[v]
    {
      forall u | 0 <= u < w
        ensures m[v][u] == t[v][u]
      {
        PackThenTest(img, w, v, u);
      }
    }
  }

  /** The pixel image (1 for a set bit, 0 otherwise) of a boolean matrix. */
  function ToPixels(m: seq<seq<bool>>): seq<seq<int>>
  {
    seq(|m|, v requires 0 <= v < |m| => seq(|m[v]|, u requires 0 <= u < |m[v]| => if m[v][u] then 1 else 0))
  }

  /** The padding bits beyond column `w` of every row are clear. */
  predicate PaddingClear(glyph: seq<byte>, w: nat, h: nat)
    requires h * WidthBytes(w) <= |glyph|
  {
    forall v, u :: 0 <= v < h && w <= u < 8 * WidthBytes(w) ==>
      WidthBytes(w) * v + u / 8 < |glyph| && !GlyphBit(glyph, WidthBytes(w), v, u)
  }

  /** Byte `b` of row `v` is rebuilt bit for bit from the unpacked matrix. */
  lemma RepackByte(glyph: seq<byte>, w: nat, h: nat, v: nat, b: nat)
    requires |glyph| == h * WidthBytes(w)
    requires PaddingClear(glyph, w, h)
    requires v < h && b < WidthBytes(w)
    ensures WidthBytes(w) * v + b < |glyph|
    ensures RowByte(ToPixels(Unpack(glyph, w, h))[v], b) == glyph[WidthBytes(w) * v + b]
  {
    var wb := WidthBytes(w);
    RowOffset(wb, v, b, h);
    var line := ToPixels(Unpack(glyph, w, h))[v];
    assert |line| == w;
    forall k | 0 <= k < 8
      ensures BitSet(RowByte(line, b), k) <==> BitSet(glyph[wb * v + b], k)
    {
      var u := 8 * b + 7 - k;
      assert u / 8 == b && u % 8 == 7 - k;
      NotAnd7IsMsbIndex(u);
      PackRowBit(line, u);
      if u < w {
        assert line[u] != 0 <==> GlyphBit(glyph, wb, v, u);
      } else {
        assert !GlyphBit(glyph, wb, v, u);
      }
    }
    BitsDetermineByte(RowByte(line, b), glyph[wb * v + b]);
  }

  /** An offset inside an `h`-row glyph is byte `i % wb` of row `i / wb`. */
  lemma SplitOffset(i: nat, wb: nat, h: nat) returns (v: nat, b: nat)
    requires i < h * wb
    ensures wb > 0 && v < h && b < wb && i == wb * v + b
  {
    assert wb > 0;
    v, b := i / wb, i % wb;
  }

  /** Round trip the other way: packing the unpacked matrix gives back the bytes. */
  lemma PackUnpack(glyph: seq<byte>, w: nat, h: nat)
    requires |glyph| == h * WidthBytes(w)
    requires PaddingClear(glyph, w, h)
    ensures PackGlyph(ToPixels(Unpack(glyph, w, h))) == glyph
  {
    var wb := WidthBytes(w);
    var img := ToPixels(Unpack(glyph, w, h));
    assert Rectangular(img, w);
    PackGlyphLength(img, w);
    var packed := PackGlyph(img);
    forall i | 0 <= i < |glyph|
      ensures packed[i] == glyph[i]
    {
      var v, b := SplitOffset(i, wb, h);
      PackGlyphAt(img, w, v, b);
      RepackByte(glyph, w, h, v, b);
    }
  }
}
