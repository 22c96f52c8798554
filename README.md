# Bitmap fonts, text layout, raster primitives and the EBG container

This project models the core of AlbertWDev/graphics and proves properties about the model. The repository is a small graphics stack for an embedded display, and the model covers five parts of it.

- **The BMF font pipeline.**
  - The converter `font2bin.py` checks a JSON font descriptor and fills in its defaults. It cuts each charmap slot out of a glyph sheet and packs the slot row by row into bytes, most significant bit first (`glyph2bytes`). It writes a 3-byte header before the glyph store and builds the glyph-name map.
  - The previewer `parse_string.py` decodes the header. It expands accented characters into base and mark glyphs separated by the 0x1B combining marker (`preprocess_string`). It measures glyph ink widths (`binary`, `rightmost_bit`, `glyph_width`). It lays strings out with a small cursor machine (`draw_string`, `draw_char`).
- **The firmware text path** (`graphics.c`, `font.h`).
  - `g_font_glyph_size` and the glyph addressing of `g_draw_char`.
  - The one-bit bitmap blitter `g_draw_bitmap_mono`.
  - The ink-width scans `_rightmost_bit`, `_glyph_width` and `_glyph_width_multibytes`.
  - The firmware's own cursor machine `g_draw_string`. It works on 16-bit coordinates, treats space specially and centres marks with C's truncating division.
- **Raster primitives on the virtual display buffer (VDB).** These are `g_draw_pixel`, `g_draw_hline`, `g_draw_vline`, filled and outlined `g_draw_rect` (its row `memcpy` included) and Bresenham `g_draw_line`. They use the region helpers of `region.h`.
  - The VDB is a class with a `region` field and a `buf` array.
  - Each method is proved to leave `buf` equal to a paint function of the old buffer. Lemmas then say exactly which screen pixels each paint function sets.
- **The EBG image container** (`img_utils/ebg.py`).
  - The RGB565 colour packing and its two round-trip laws.
  - The flag byte.
  - The byte layout written by `EBG.save` and read by `EBG.load`, over a byte sequence. `load` of `save(e)` gives `e` back, with colours masked to RGB565.
- **The command-line helpers of `img2ebg.py`.** These are the colour-argument parser `color` and the natural sort `sorted_alphanumeric`. The sort returns a stable permutation ordered by the key, and `'f2'` sorts before `'f10'`.

Python `int` is unbounded like Dafny's `int`. The C types are written out explicitly:
- `g_coord_t` is the two's-complement `Int16`;
- `size_t` is `SizeT`, modulo 2^32;
- `g_size_t` is `U16`;
- bytes are `bv8`;
- C division is the truncating `CDiv`.

Python's `~u & 7` is `(-u - 1) % 8`.

No I/O is modelled:
- files are byte sequences;
- the `draw_char` / `g_draw_char` calls of the two layout loops are collected as a trace of placements;
- `draw_char` itself writes a 2-D `array2<int>`;
- the filesystem test `os.path.isfile` is a parameter of the descriptor check.

Where the code and its description disagree, the model follows the code:
- **Blank glyph width.** `glyph_width` of a glyph with no set pixel returns 1, from `8*wb - 8*wb + 1`. The full cell width is documented but is not what the code computes. `PyRender.CharWidth` and `InkWidth.PyInkWidth` use 1.
- **Over-wide font.** A descriptor whose width is above 127 makes `parse_font_descriptor` raise KeyError on `font['witdh']`. It does not print the message and return None. The model states both outcomes as if-and-only-ifs: the KeyError when no `witdh` key exists, and the printed error only when one happens to exist.
- **`EBG.save` with no palette.** This raises AttributeError at `self.palette.transparent`, before the `is None` guards are reached (`SaveError.NoPalette`).

Modules, one per file: `Wrappers`, `Bits`, `Tokens`, `PyOps`, `PyStr`, `GlyphPack`, `BitmapFont`, `BmfFile`, `GlyphSheet`, `FontConvert`, `InkWidth`, `Preprocess`, `PyRender`, `CRender`, `Regions`, `Raster`, `Ebg`, `Img2Ebg`.

## Model

| member | source | states |
|---|---|---|
| PyOps.SliceIndex | font_utils/parse_string.py:132 | one end of a Python slice is clamped into `0..len`, and an end already in range is kept |
| PyOps.Slice | font_utils/parse_string.py:132 | `s[a:b]` never fails and is no longer than `s`; in range it is the plain slice, and an end past the sequence is cut to its length |
| Bits.WidthBytes | font.h:15-17 | `ceil(w / 8)`: the smallest byte count whose bits hold `w` pixels |
| Bits.WidthBytesSmall | font.h:15-17 | 1 byte per row for widths 1-8, 2 for 9-16, 0 exactly for width 0 |
| Bits.ShiftIsMask | font_utils/font2bin.py:76 | the converter's `1 << i` on a byte is the mask of bit `i`, and `0 << i` is 0 |
| Bits.NotAnd7IsMsbIndex | graphics.c:300 | for a column `u >= 0`, `~u & 7 == 7 - u % 8`, the MSB-first bit index |
| Bits.CDiv | graphics.c:391 | C division truncates toward zero and agrees with Euclidean division on non-negative operands |
| Bits.CDivByTwo | graphics.c:391 | truncating halving of a negative odd value is one more than the floored one |
| Bits.Int16 | region.h:5 | the conversion to `int16_t` lands in range and keeps in-range values |
| Bits.Int16Add | region.h:5 | wrapping an intermediate sum to 16 bits does not change the wrapped total |
| Bits.SizeT | region.h:19-25 | the conversion to a 32-bit `size_t` lands below 2^32 and keeps values already in range |
| Bits.Ctz | graphics.c:315-318 | the count of trailing zero bits: every lower bit clear, bit `r` set, 8 exactly for the zero byte |
| Bits.WholeCells | font_utils/font2bin.py:107-108 | `(w // c) * c == w` iff `c` divides `w`; no cell fits iff `w < c` |
| BitmapFont.GlyphSize | font.h:15-17 | `g_font_glyph_size` is `ceil(width/8) * height` and at most 32*255, so the 16-bit result never truncates |
| BitmapFont.GlyphSizeCases | font.h:15-17 | glyph size is `height` for widths 1-8, `2*height` for 9-16, 0 when width or height is 0 |
| BitmapFont.GlyphOffset | graphics.c:309 | `(c - ascii_offset) * glyph_size` is non-negative for codes at or past the offset |
| BitmapFont.GlyphOf | graphics.c:309 | the glyph addressed for code `c` is exactly one glyph size long |
| BitmapFont.PyGlyphOf | font_utils/parse_string.py:131-132 | the previewer's clamped slice equals the firmware's glyph whenever the store holds the whole glyph |
| BitmapFont.SlotAddressing | graphics.c:309 | the glyph of code `i + ascii_offset` starts at `i * glyph_size`, slot `i` of the store |
| BmfFile.WidthByte | font_utils/font2bin.py:116 | header byte 0 has bit 7 clear iff the font is monospace, and its low 7 bits are the width |
| BmfFile.EncodeHeader | font_utils/font2bin.py:115-119 | the header is written iff height and offset fit a byte; it is then `[width byte, height, ascii_offset]` |
| BmfFile.DecodeBmf | font_utils/parse_string.py:272-278 | decoding succeeds iff the file has 3 bytes; it then gives a width below 128, byte fields and the store `file[3..]` |
| BmfFile.HeaderRoundTrip | font_utils/parse_string.py:272-278 | decoding an encoded header plus store gives back monospace, width, height, offset and store, for widths up to 127 |
| GlyphPack.ByteBitsStep | font_utils/font2bin.py:75-76 | one round of `byte \|= (1 if bit else 0) << i` adds pixel `base + 7 - i` as bit `i` |
| GlyphPack.SameInkSameBits | font_utils/font2bin.py:72 | rows with the same ink, the zero padding included, pack to the same bytes |
| GlyphPack.ByteBitsAt | font_utils/font2bin.py:75-76 | bit `k` of a packed byte is pixel `base + 7 - k` |
| GlyphPack.PackChunk | font_utils/font2bin.py:74-77 | the inner loop builds the byte of pixels `8b .. 8b + 7`, MSB first |
| GlyphPack.Glyph2Bytes | font_utils/font2bin.py:66-79 | `glyph2bytes` returns the row-major packing of the image |
| GlyphPack.PackRowBit | font_utils/font2bin.py:70-77 | pixel `j` of a row is bit `7 - j % 8` of byte `j / 8`, set iff the pixel is truthy; padding bits are 0 |
| GlyphPack.PackGlyphLength | font_utils/font2bin.py:66-79 | an `h x w` image packs to exactly `h * ceil(w/8)` bytes |
| GlyphPack.PackGlyphAt | font_utils/font2bin.py:68-77 | byte `b` of row `v` sits at offset `wb * v + b` |
| GlyphPack.PackThenTest | font_utils/parse_string.py:134-137 | the decoders' bit test `glyph[wb*v + (u>>3)] & (1 << (~u & 7))` on a packed image recovers the truthiness of every pixel |
| GlyphPack.Unpack | font_utils/parse_string.py:134-136 | the matrix of bit tests over a glyph has `h` rows of `w` entries |
| GlyphPack.UnpackPack | font_utils/font2bin.py:66-79 | unpacking a packed image gives its truthiness matrix |
| GlyphPack.RepackByte | font_utils/font2bin.py:73-77 | each byte of a glyph with clear padding is rebuilt bit for bit from its unpacked matrix |
| GlyphPack.PackUnpack | font_utils/font2bin.py:66-79 | packing the unpacked matrix of a padding-clear glyph gives back its bytes |
| GlyphSheet.CutInside | font_utils/font2bin.py:133 | inside the sheet, the numpy cut is the `h x w` window at `(x, y)`, pixel for pixel |
| GlyphSheet.SlotInRow | font_utils/font2bin.py:131-133 | on an aligned sheet, no slot runs past the right edge |
| GlyphSheet.FlattenLength | font_utils/font2bin.py:134-136 | `n` glyphs of one size written in turn take `n * size` bytes |
| GlyphSheet.FlattenBlock | font_utils/font2bin.py:134-136 | glyph `i` of the store sits at `[i*size, (i+1)*size)` |
| GlyphSheet.Slots | font_utils/font2bin.py:121-136 | every charmap slot, `None` included, contributes one packed glyph |
| GlyphSheet.SlotRow | font_utils/font2bin.py:132 | slot `i < n` lies in one of the first `ceil(n / per_row)` glyph rows |
| GlyphSheet.CoversSlot | font_utils/font2bin.py:132-133 | each slot of a sheet tall enough lies within its rows |
| GlyphSheet.SlotGlyphLength | font_utils/font2bin.py:131-134 | a slot inside the sheet packs to exactly one glyph size |
| GlyphSheet.SlotGlyph | font_utils/font2bin.py:131-134 | slot `i` is the `width x height` window at (`cell*(i % per_row)`, `height*(i // per_row)`) |
| GlyphSheet.SlotsUniform | font_utils/font2bin.py:121-136 | on a covering sheet, every slot's bytes are one glyph size |
| GlyphSheet.BlockGlyph | graphics.c:309 | in a store of equal blocks, block `i` is the glyph the firmware addresses for code `i + ascii_offset` |
| GlyphSheet.StoreSucc | font_utils/font2bin.py:134-136 | converting one more slot appends that slot's packed glyph |
| GlyphSheet.SlotPixel | font_utils/font2bin.py:131-134 | the bit test on a slot's packed glyph reads the sheet pixel under it |
| GlyphSheet.StoreGlyph | font_utils/font2bin.py:121-136 | in a font whose store was cut from a covering sheet, the glyph of code `i + ascii_offset` is slot `i` packed |
| GlyphSheet.SlotGlyphPixel | font_utils/font2bin.py:121-136 | such a glyph tests at (u, v) like the sheet at the slot corner plus (u, v) |
| GlyphSheet.StorePixel | font_utils/font2bin.py:121-136 | end to end: the renderers' pixel test on a converted font reads the sheet pixel of the slot |
| FontConvert.MissingKeys | font_utils/font2bin.py:34-38 | exactly the mandatory keys the descriptor lacks |
| FontConvert.Missing | font_utils/font2bin.py:35-38 | exactly the listed keys absent from the descriptor |
| FontConvert.JoinPath | font_utils/font2bin.py:41 | `os.path.join` with an absolute path gives that path |
| FontConvert.WidthAbove127 | font_utils/font2bin.py:47 | `width > 127` on an integer is the comparison; on a non-number it raises |
| FontConvert.AddDefaults | font_utils/font2bin.py:51-62 | adds `name`, `ascii_offset` = 32 and `monospace` = False where absent, with one warning each, and keeps every given key |
| FontConvert.ParseFontDescriptor | font_utils/font2bin.py:34-64 | each outcome as an iff, in the source's order: missing mandatory keys, exactly when one is absent; a TypeError, exactly when `glyphs` is no string or, past the file check, `width > 127` cannot be compared; a missing glyph file; for width > 127, the KeyError on `font['witdh']` exactly when that key is absent and the printed error exactly when it is present; success exactly when the width is at most 127, giving the descriptor with `glyphs_file` and the defaults, one warning per default |
| FontConvert.NameToken | font_utils/font2bin.py:125-129 | slot `i` maps to a character iff `31 < i + offset < 127`, and its code is `i + offset` either way |
| FontConvert.FontMapLookup | font_utils/font2bin.py:121-129 | a name is mapped iff some slot holds it, and it maps to the code of the last such slot |
| FontConvert.FontMapSucc | font_utils/font2bin.py:124-129 | a named slot adds or overwrites its name; a `None` slot changes nothing |
| FontConvert.MapSlot | font_utils/font2bin.py:124-129 | one round of the map update extends the map to the next slot |
| FontConvert.SlotBytes | font_utils/font2bin.py:131-134 | the bytes of slot `i` are its window of the sheet, packed |
| FontConvert.GlyphWidth | font_utils/font2bin.py:105 | `8 * math.ceil(w / 8)` is the padded cell for a non-negative width, 0 exactly for widths -7..0, and not positive for a negative width |
| FontConvert.FloorDiv | font_utils/font2bin.py:107 | Python's `//` rounds down: the remainder `a - q*b` lies in `[0, b)` for a positive `b` and in `(b, 0]` for a negative one |
| FontConvert.FloorAligned | font_utils/font2bin.py:107-108 | `(s // g) * g == s` exactly when `g` divides `s`, for either sign of `g` |
| FontConvert.Convert | font_utils/font2bin.py:105-136 | on the descriptor's integer fields, each outcome as an iff in the script's order: the ZeroDivisionError of `// glyph_width` iff the width is in -7..0; the alignment error iff the cell does not divide the sheet width; the `bytes` ValueError iff, past those, the width is negative or the height or offset is outside 0..255; the ZeroDivisionError of `% glyphs_per_row` iff a non-empty charmap meets a sheet narrower than one cell; success iff none of these |
| FontConvert.ConvertFont | font_utils/font2bin.py:105-136 | the checks and the slot loop give exactly `Convert`'s outcome on any integer fields: its error, or the file and the map |
| FontConvert.ConvertThenDecode | font_utils/font2bin.py:115-136 | the previewer decodes the written file into a font with the given header fields and the slots' store |
| InkWidth.ColumnInkAny | graphics.c:327-329 | column `u` has ink iff some row's pixel at `u` is set |
| InkWidth.RightEdgeUnique | graphics.c:331-339 | the right ink edge is unique |
| InkWidth.LastInk | graphics.c:331-339 | scanning from the right gives the right ink edge |
| InkWidth.InkWidthSpec | graphics.c:320-354 | ink width: no set pixel at or right of it, one in the column just left, 0 exactly for a blank glyph |
| InkWidth.LastColumnInk | font_utils/parse_string.py:149-164 | a set pixel in the last padded column makes the width `8 * ceil(width/8)` |
| InkWidth.PaddedInkWidth | font_utils/font2bin.py:72 | a glyph written with clear padding is no wider than the font |
| InkWidth.ColumnPixel | graphics.c:300 | bit `k` of byte `j` of row `v` is pixel `8j + 7 - k` |
| InkWidth.ColOrBit | graphics.c:327-329 | bit `k` of the OR of column byte `j` is set iff pixel `8j + 7 - k` has ink in some row |
| InkWidth.ByteBlank | graphics.c:333-338 | a zero column byte holds no ink in its eight columns |
| InkWidth.ByteEdge | graphics.c:333-338 | the lowest set bit `t` of the right-most nonzero column byte `j` puts the edge at `8j + 8 - t` |
| InkWidth.RightmostBitC | graphics.c:315-318 | `_rightmost_bit`: 8 exactly for 0, otherwise the lowest set bit |
| InkWidth.CGlyphWidth | graphics.c:342-354 | `_glyph_width`'s result is a `uint8_t`: the ink width modulo 256 for wide fonts, the one-byte-row scan otherwise |
| InkWidth.NarrowInk | graphics.c:346-353 | for a one-byte-wide glyph, `8 - _rightmost_bit(OR of rows)` is the ink width |
| InkWidth.RemainderOf | graphics.c:328 | `b % wb` picks out the column byte |
| InkWidth.WholeRows | graphics.c:327 | the OR loop covers exactly `height` rows |
| InkWidth.OrStep | graphics.c:328 | one step of `glyph_bits[b % wb] \|= glyph[b]` adds row `b / wb` to column byte `b % wb` |
| InkWidth.OrColumns | graphics.c:324-329 | the array holds the OR of every row's byte `j` in each slot `j` |
| InkWidth.GlyphWidthMultibytes | graphics.c:320-340 | `_glyph_width_multibytes` returns the ink width, as a `uint8_t` |
| InkWidth.GlyphWidthC | graphics.c:342-354 | `_glyph_width` returns the firmware's width of the glyph |
| InkWidth.ByteBin | font_utils/parse_string.py:140 | `bin(b)[2:].zfill(8)` has eight characters |
| InkWidth.Binary | font_utils/parse_string.py:139-140 | `binary` has 8 characters per byte |
| InkWidth.BinaryAt | font_utils/parse_string.py:139-140 | character `j` of `binary` is `'1'` iff bit `7 - j % 8` of byte `j / 8` is set |
| InkWidth.RStrip | font_utils/parse_string.py:144 | `rstrip` keeps a prefix whose last character is not stripped, and drops only stripped characters |
| InkWidth.RightmostBitSpec | font_utils/parse_string.py:142-147 | `rightmost_bit` is 0 iff the line is blank; otherwise the right-most set bit is at `8*len - r` |
| InkWidth.Edge1Max | font_utils/parse_string.py:156-164 | the loop's edge over all rows is the ink width, at least 1 |
| InkWidth.RowSliceIs | font_utils/parse_string.py:158 | the previewer's row slice of a whole glyph is row `n`'s bytes |
| InkWidth.RowBit | font_utils/parse_string.py:158-161 | bit `u` of a row slice is the decoders' pixel test |
| InkWidth.RowRightmost | font_utils/parse_string.py:161 | `rightmost_bit` of row `n`, in pixels: 0 for a blank row, else the right-most set pixel is `8*wb - r` |
| InkWidth.EdgeStep | font_utils/parse_string.py:162-163 | one `min_bits` update keeps the loop invariant |
| InkWidth.GlyphWidthPy | font_utils/parse_string.py:149-164 | `glyph_width` is at least 1, and for a whole glyph it is the ink width, or 1 when the glyph is blank |
| InkWidth.PyRowStep | font_utils/parse_string.py:157-163 | one row of the loop keeps its invariant |
| InkWidth.PreviewerMatchesFirmware | graphics.c:320-354 | for an ink width below 256 the firmware returns the ink width; the previewer returns the same, except 1 instead of 0 for a blank glyph |
| Preprocess.SpecialCharsShape | font_utils/parse_string.py:27-82 | every table entry is one glyph name, or a single letter followed by a mark |
| Preprocess.ExpandComponents | font_utils/parse_string.py:91-103 | the inner loop yields each component's token, 0x1B between them, and one warning per missing component |
| Preprocess.PreprocessString | font_utils/parse_string.py:84-113 | the loop returns the concatenated expansions and warnings of the characters, for every input |
| Preprocess.ExpandCases | font_utils/parse_string.py:87-111 | a charmap key gives its value; `\n`/`\b` give 10/8; anything else unmapped and not special gives `' '` and one warning |
| Preprocess.ComponentLayout | font_utils/parse_string.py:92-103 | `n` components give `2n - 1` tokens: component tokens at even positions, 0x1B at odd ones, none after the last |
| Preprocess.ComponentWarningsMissing | font_utils/parse_string.py:93-99 | no warning iff every component is in the charmap; each warning names a missing component |
| Preprocess.SpecialExpansion | font_utils/parse_string.py:90-103 | an accented character with `n` components yields `2n - 1` tokens: components in table order with 0x1B between |
| Preprocess.ExpandNonEmpty | font_utils/parse_string.py:86-111 | every character yields at least one token |
| Preprocess.PreprocessLength | font_utils/parse_string.py:84-113 | the output has at least as many tokens as the input has characters |
| Preprocess.PreprocessConcat | font_utils/parse_string.py:86-113 | characters are handled independently: output and warnings of `s + t` are those of `s` followed by those of `t` |
| PyRender.AxisIndex | font_utils/parse_string.py:137 | numpy indexing: an accepted index lands in range and a non-negative one is itself |
| PyRender.RowPaintedStep | font_utils/parse_string.py:135-137 | one more column of a row paints exactly that pixel when its bit is set and numpy accepts the indices |
| PyRender.PaintedStep | font_utils/parse_string.py:134-137 | one more row adds exactly that row's painted pixels |
| PyRender.StampRow | font_utils/parse_string.py:135-137 | one row of `draw_char` completes iff no cell raises; then it sets 255 exactly on that row's painted pixels; it never writes any other value |
| PyRender.DrawChar | font_utils/parse_string.py:128-137 | `draw_char` completes iff no cell raises; then `img[y+v, x+u] = 255` exactly for the set bits, nothing else changes |
| PyRender.TruncatedGlyphRaises | font_utils/parse_string.py:132-137 | a glyph the store cuts short makes `draw_char` raise IndexError |
| PyRender.TruncatedSlice | font_utils/parse_string.py:132 | a glyph cut short is a non-empty glyph whose slice is shorter than the glyph size |
| PyRender.LastCell | font_utils/parse_string.py:136 | the last pixel of a glyph reads its last byte |
| PyRender.ErrorSticks | font_utils/parse_string.py:174-199 | once a prefix raises, the whole string raises with the same error |
| PyRender.DrawString | font_utils/parse_string.py:166-199 | `draw_string` follows the reference layout: the loop body applied token by token, stopping at the first IndexError |
| PyRender.DrawCode | font_utils/parse_string.py:175-199 | one loop iteration measures the code and extends the layout by it, or raises |
| PyRender.StepCode | font_utils/parse_string.py:178-199 | the branches of the iteration: 0x1B, `\n`, codes below the offset, and drawable codes (centred by `last//2` in combining mode) |
| PyRender.RunSnoc | font_utils/parse_string.py:174-199 | one more token extends the reference layout by one step |
| PyRender.ThenRows | font_utils/parse_string.py:182-199 | one step keeps earlier draws, moves down `height + 1` only on `\n`, and draws on the current row |
| PyRender.LineCursor | font_utils/parse_string.py:182-185 | after a string, `cy = (height + 1) * number of newlines` |
| PyRender.LineRows | font_utils/parse_string.py:185-198 | every glyph is drawn at the top of a line (`y % (height+1) == 0`), between row 0 and the cursor's line |
| PyRender.ThenCells | font_utils/parse_string.py:167-199 | a monospace step moves the cursor by whole cells and draws at the cursor |
| PyRender.MonospaceGrid | font_utils/parse_string.py:167-199 | in a monospace font the cursor and every glyph sit on multiples of the width, and `last` is 0 or the width |
| PyRender.CombinedPair | font_utils/parse_string.py:178-199 | base, 0x1B, mark: the base is drawn at `cx`, the mark at `cx + w//2`, and the cursor ends where the base left it |
| CRender.CStr | graphics.c:368 | the loop reads the bytes before the first NUL |
| CRender.CharWidth | graphics.c:387 | `char_width` is a `uint8_t` |
| CRender.RunSnoc | graphics.c:368-405 | one more byte extends the reference layout by one step |
| CRender.DrawGlyph | graphics.c:384-403 | the `default` branch measures the byte and extends the layout by it |
| CRender.PlaceGlyph | graphics.c:389-402 | places the glyph at `cx`, or at `cx + (last - w + 1)/2` (C division) for a mark; draws only when `w > 0`; `last` is `w`, or `width/4` when `w = 0`, kept for a mark; then advances |
| CRender.DrawByte | graphics.c:369-404 | the `switch` on one byte is the reference step |
| CRender.GDrawString | graphics.c:356-407 | NULL gives `ESP_ERR_INVALID_ARG`; otherwise the `g_draw_char` calls of the reference layout, in order |
| CRender.StepBounds | graphics.c:363-403 | each step keeps the cursor in `g_coord_t` range and `last` a byte, moves `cy` only on `\n`, and appends a draw exactly for a glyph byte with `w > 0` |
| CRender.NextRow | graphics.c:374-378 | a newline moves line `n` to line `n + 1`, modulo 2^16 |
| CRender.RunInvariant | graphics.c:356-407 | after a string, the cursor is in range, `cy` is `(height+1) * newlines` as `int16_t`, and the draws are the visible glyph bytes in order |
| CRender.CombinedPair | graphics.c:370-403 | base, 0x1B, mark: the cursor ends where the base left it, and the mark is centred with `(last - w + 1)/2` in C division |
| CRender.MarkStep | graphics.c:389-402 | in combining mode a proportional font centres the glyph, keeps `last` and clears combining |
| CRender.WrapStep | graphics.c:369-403 | without spaces, a monospace firmware step is the previewer's step with coordinates wrapped to 16 bits |
| CRender.MonospaceAgrees | graphics.c:356-407 | for a monospace font and a string without spaces, the firmware's layout is the previewer's layout wrapped to 16 bits |
| Regions.SpanSize | region.h:19-21 | the span `a ..= b` holds exactly the integers between, `b - a + 1` of them |
| Regions.SizeCases | region.h:19-25 | `hi - lo + 1` as `size_t`: the span count, 0 for `hi = lo - 1`, a wrapped huge value below that |
| Regions.WidthCases | region.h:19-21 | for ordered corners the width counts the columns and lies in 1..65536 (1 for `x0 == x1`); it is 0 for `x1 == x0 - 1` and wraps modulo 2^32 below that |
| Regions.HeightCases | region.h:23-25 | the same for the height and the rows |
| Raster.RowColDiv | graphics.c:83 | a buffer index's row and column are its quotient and remainder by the width |
| Raster.CellOf | graphics.c:83 | index `r*w + c` is the cell at row `r`, column `c`, and no other index is |
| Raster.PaintNothing | graphics.c:98 | painting no cells leaves the buffer as it is |
| Raster.PaintRowStep | graphics.c:107-108 | one more column of the first-row loop sets exactly cell `r*w + c` |
| Raster.PaintColStep | graphics.c:167-168 | one more row of the vertical loop sets exactly cell `r*w + c` |
| Raster.BlockCell | graphics.c:116-119 | a block one row taller adds exactly the copied run, and each copied cell comes from the first row |
| Raster.PaintBlockStep | graphics.c:116-119 | copying the first row's run into row `r` paints the rectangle down to row `r` |
| Raster.CopyRowStep | graphics.c:116-119 | one pass of the `memcpy` loop, with `buf += vdb_width`, stays inside the buffer and paints the next row |
| Raster.Copied | graphics.c:117 | the copy keeps the buffer's length |
| Raster.CopiedAt | graphics.c:117 | after the copy, cell `i` of the destination run is the matching source cell; all other cells are unchanged |
| Raster.Memcpy | graphics.c:117 | `memcpy` of non-overlapping cell runs |
| Raster.WindowSize | region.h:19-25 | a VDB region's width and height are the plain differences, between 1 and 2^15 |
| Raster.PixelCell | graphics.c:83 | a pixel inside the region lives at buffer row `y - y0`, column `x - x0` |
| Raster.OffsetInjective | graphics.c:83 | distinct pixels of the region occupy distinct cells |
| Raster.PixelInCells | graphics.c:83 | a pixel is in a cell rectangle iff its relative column and row are |
| Raster.RectFilled | graphics.c:98-119 | a filled rectangle paints its clamped cells, none when it is rejected |
| Raster.FillRegionFits | graphics.c:91-95 | when nothing wraps, the 16-bit corners computed are those of the clamped region |
| Raster.PaintPixel | graphics.c:83 | painting cells changes a pixel iff its column and row are in them |
| Raster.PixelExact | graphics.c:79-85 | `g_draw_pixel` paints the one pixel it is given, and only inside the region |
| Raster.HCellsExact | graphics.c:133-142 | a one-pixel hline paints row `y` from `x` to `x + width - 1`, clipped to the region, and nothing else |
| Raster.VCellsExact | graphics.c:159-168 | a one-pixel vline paints column `x` from `y` to `y + height - 1`, clipped to the region, and nothing else |
| Raster.FillExact | graphics.c:91-119 | a filled rectangle (with the corrected test) paints exactly its pixels inside the region, bounds inclusive |
| Raster.HLineExact | graphics.c:130-154 | `g_draw_hline`: nothing for thickness 0, one row for 1, rows `y - t/2 ..= y + t/2` otherwise |
| Raster.VLineExact | graphics.c:156-180 | `g_draw_vline`: the same by columns |
| Raster.OutlineExact | graphics.c:120-125 | a thickness-1 rectangle that is not rejected paints exactly its one-pixel border |
| Raster.EdgeRectDropped | graphics.c:98 | the as-written test drops a rectangle whose clamped right edge is relative column 0, though that pixel lies in it |
| Raster.PaintPointsAppend | graphics.c:195 | drawing `a` and then `b` is drawing `a + b` |
| Raster.BresStart | graphics.c:192 | the initial `e_xy = (dx > dy ? dx : -dy) / 2` satisfies the loop invariant |
| Raster.BresStep | graphics.c:194-201 | one iteration keeps the invariant, moves by one king step and brings the end point closer |
| Raster.BresArith | graphics.c:198-200 | the step arithmetic keeps `err` within its bounds and always moves |
| Raster.BresNoOvershoot | graphics.c:196-200 | the loop never steps past the end point's column or row |
| Raster.BresEnd | graphics.c:196 | at the end point the loop has made `dx` steps across and `dy` down |
| Raster.TraceGrow | graphics.c:194-201 | drawing the current pixel and stepping extends the trace |
| Raster.TraceDone | graphics.c:194-201 | drawing the end point completes a trace from the first point to the last by king steps |
| Raster.Advance | graphics.c:198-200 | the two conditional updates of one iteration, with the invariant and the shrinking measure |
| Raster.ColumnByte | graphics.c:300 | column `u < w` of row `v < h` reads inside the `wb * h` bitmap bytes |
| Raster.RowInkStep | graphics.c:297-302 | one more column draws its pixel exactly when the firmware's bit test passes |
| Raster.RowInkMembers | graphics.c:297-302 | row `v` draws exactly its set columns, each at `(x+u, y+v)` as `g_coord_t` |
| Raster.BitmapInkMembers | graphics.c:293-306 | the bitmap draws exactly the pixels of its set bits |
| Raster.DrawsPackedImage | graphics.c:293-306 | blitting a packed image draws `(x+u, y+v)` iff pixel `(u, v)` of the image is truthy |
| Raster.InkAt | graphics.c:300-301 | where nothing wraps, `(x+u, y+v)` is drawn iff bit `(v, u)` is set |
| Raster.InkWitness | graphics.c:293-306 | each drawn point comes from a set bit |
| Raster.Vdb.DrawPixel | graphics.c:79-85 | sets the pixel's cell when it is inside the region; nothing else changes |
| Raster.Vdb.HLine | graphics.c:130-154 | `g_draw_hline` leaves the buffer painted by its cells for the given thickness |
| Raster.Vdb.HRun | graphics.c:133-142 | the thickness-1 loop paints the clipped run of row `y` |
| Raster.Vdb.VLine | graphics.c:156-180 | `g_draw_vline` leaves the buffer painted by its cells for the given thickness |
| Raster.Vdb.VRun | graphics.c:159-168 | the thickness-1 loop paints the clipped run of column `x` |
| Raster.Vdb.DrawRect | graphics.c:87-128 | `g_draw_rect` (corrected test): nothing when rejected, the clamped cells when filled, else the four edges |
| Raster.Vdb.DrawOutline | graphics.c:120-125 | the four edge calls, in order |
| Raster.Vdb.FillBlock | graphics.c:102-119 | first row filled, then copied down: exactly the clamped rectangle is painted |
| Raster.Vdb.CopyRows | graphics.c:110-119 | the `memcpy` loop turns a painted first row into the painted rectangle |
| Raster.Vdb.DrawLine | graphics.c:182-204 | equal x: a vline; equal y: an hline; otherwise a Bresenham trace from (x0,y0) to (x1,y1), each pixel drawn in turn |
| Raster.Vdb.Bresenham | graphics.c:188-201 | the loop terminates; the trace starts at (x0,y0), ends at (x1,y1), moves by king steps, and the buffer is painted by it |
| Raster.Vdb.DrawBitmapMono | graphics.c:293-306 | `g_draw_bitmap_mono` draws each pixel of a set bit, row by row, and nothing else |
| Raster.Vdb.DrawBitmapRow | graphics.c:297-303 | one row of the blitter |
| Raster.Vdb.DrawChar | graphics.c:308-313 | `g_draw_char` blits the glyph addressed for the code |
| Ebg.Rgb565 | img_utils/ebg.py:26-27 | the top 5 bits of red, 6 of green and 5 of blue land in bits 15-11, 10-5 and 4-0 of a 16-bit word |
| Ebg.Rgb565ToRgb | img_utils/ebg.py:29-31 | unpacking puts the fields back in the top bits of each channel, with the low bits clear |
| Ebg.UnpackPack | img_utils/ebg.py:26-31 | `rgb565_to_rgb(rgb_to_rgb565(r,g,b)) == (r&0xF8, g&0xFC, b&0xF8)` |
| Ebg.PackUnpack | img_utils/ebg.py:26-31 | `rgb_to_rgb565(*rgb565_to_rgb(c)) == c` for every 16-bit `c` |
| Ebg.FlagFields | img_utils/ebg.py:218-229 | the flag fields are disjoint bit ranges above two reserved bits, and their values are distinct and fit their fields |
| Ebg.SaveFlags | img_utils/ebg.py:289-294 | the flags written are RGB565, indexed and byte-sized indices, and TRANSPARENT iff a transparent index is set |
| Ebg.Le16 | img_utils/ebg.py:296 | `"<H"` is two bytes |
| Ebg.Word | img_utils/ebg.py:246 | two bytes make a 16-bit value |
| Ebg.LeWord | img_utils/ebg.py:246 | a little-endian word reads back as the value written |
| Ebg.Be16 | img_utils/ebg.py:307 | `"!H"` is two bytes |
| Ebg.BeWord | img_utils/ebg.py:252 | a big-endian word reads back as the word written |
| Ebg.Header | img_utils/ebg.py:296-302 | the header after the signature is 8 bytes |
| Ebg.IndexBytes | img_utils/ebg.py:311-312 | one byte per index |
| Ebg.Save | img_utils/ebg.py:271-312 | `save` writes the signature, the header, each colour, then each frame's indices, or raises |
| Ebg.WritePalette | img_utils/ebg.py:305-307 | each colour as a big-endian RGB565 word |
| Ebg.WriteFrames | img_utils/ebg.py:310-312 | every frame's indices in turn; fails iff some index is not a byte |
| Ebg.WriteFrame | img_utils/ebg.py:311-312 | one frame's indices; fails iff one is not a byte |
| Ebg.FrameBytesSnoc | img_utils/ebg.py:310-312 | one more frame appends its bytes |
| Ebg.PaletteBytesLength | img_utils/ebg.py:305-307 | two bytes per colour |
| Ebg.PaletteBytesAt | img_utils/ebg.py:305-307 | colour `i` is the word at bytes `2i`, `2i + 1` |
| Ebg.FrameBytesLength | img_utils/ebg.py:310-312 | as many bytes as indices |
| Ebg.FrameBytesAt | img_utils/ebg.py:310-312 | with frames of one size, frame `j` is block `j` |
| Ebg.EncodeLength | img_utils/ebg.py:287-312 | the file is `12 + 2*len(palette) + Σ len(frame)` bytes |
| Ebg.EncodeHeader | img_utils/ebg.py:288-302 | `'E','B','G',1`, then u16 width and height (little-endian), flags, `len(palette) - 1`, transparent index or 0, frame count |
| Ebg.HeaderFields | img_utils/ebg.py:296-302 | the eight header bytes, field by field |
| Ebg.ReadAt | img_utils/ebg.py:263 | `f.read(n)` gives at most `n` bytes, and exactly the slice when the file is long enough |
| Ebg.Colors | img_utils/ebg.py:251-252 | `n` colours are read |
| Ebg.Ints | img_utils/ebg.py:265-267 | one integer per byte |
| Ebg.Frames | img_utils/ebg.py:262-267 | `frame_count` frames are read |
| Ebg.Load | img_utils/ebg.py:238-269 | `load` returns the reference decoding, or its error |
| Ebg.LoadBody | img_utils/ebg.py:245-269 | the rest of `load` after the signature checks |
| Ebg.LoadPalette | img_utils/ebg.py:248-259 | the flag tests and the palette loop |
| Ebg.ReadPalette | img_utils/ebg.py:250-252 | succeeds iff `k + 1` words are present, then gives the colours |
| Ebg.ReadFrames | img_utils/ebg.py:261-267 | `frame_count` reads of `width * height` bytes |
| Ebg.ReadFrom | img_utils/ebg.py:263 | reading from the clamped position reads what reading at the nominal one does, and moves on by what was read |
| Ebg.FramesSnoc | img_utils/ebg.py:262-267 | one more frame |
| Ebg.ReadFrame | img_utils/ebg.py:264-267 | each byte of a frame as an index |
| Ebg.IntsOfIndexBytes | img_utils/ebg.py:266 | a frame's bytes read back as its indices |
| Ebg.EncodeParts | img_utils/ebg.py:304-312 | the file is the 12 header bytes, the palette bytes, then the frame bytes |
| Ebg.ColorsOfSave | img_utils/ebg.py:249-252 | the palette written reads back masked |
| Ebg.FrameOfSave | img_utils/ebg.py:261-267 | frame `j` written reads back unchanged when every frame has `size` indices |
| Ebg.FrameInFile | img_utils/ebg.py:261-267 | in a file holding the frame bytes from `base` on, frame `j` reads back unchanged |
| Ebg.FramesOfSave | img_utils/ebg.py:261-267 | all frames written read back unchanged |
| Ebg.DecodeIndexed | img_utils/ebg.py:241-269 | an indexed, byte-index file decodes field by field: size, transparency, `k + 1` colours, `frame_count` frames of `width * height` |
| Ebg.DecodeAccepts | img_utils/ebg.py:241-259 | `load` rejects a bad signature as invalid, and succeeds iff signature, version 1, header, INDEXED with byte indices and the whole palette are there |
| Ebg.LoadSave | img_utils/ebg.py:238-312 | `load(save(e))` is `e` with colours masked, when each frame has `width * height` indices |
| Ebg.DecodeSaved | img_utils/ebg.py:238-312 | the saved header decodes to the image's size, palette size, transparency and frame count |
| PyStr.Lower | img_utils/img2ebg.py:43 | `lower` maps each character on its own and keeps the length |
| PyStr.StripLeftSpec | img_utils/img2ebg.py:19 | `lstrip` removes exactly the longest prefix of stripped characters |
| PyStr.StripRightSpec | img_utils/img2ebg.py:25 | `rstrip` removes exactly the longest suffix of stripped characters |
| PyStr.StripNone | img_utils/img2ebg.py:25 | stripping leaves a string alone when neither end is stripped |
| PyStr.Split | img_utils/img2ebg.py:25-26 | `split` gives at least one piece |
| PyStr.SplitJoin | img_utils/img2ebg.py:25-26 | joining the pieces of a split gives the string back, and no piece holds the separator |
| PyStr.DecimalString | img_utils/img2ebg.py:43 | `str(n)` is a non-empty string of digits |
| PyStr.DecimalValue | img_utils/img2ebg.py:43 | the digits of `str(n)` are worth `n` |
| PyStr.NumericParses | img_utils/img2ebg.py:32 | `int` of a digit string is its value |
| PyStr.HexParses | img_utils/img2ebg.py:37 | `int(s, 16)` of hexadecimal digits without a prefix is their value |
| PyStr.HexPrefixParses | img_utils/img2ebg.py:16-19 | `int('0x' + s, 16)` of hexadecimal digits drops the prefix and is their value |
| PyStr.HexRejects | img_utils/img2ebg.py:37 | `int(s, 16)` of letters and digits fails once one of them is not hexadecimal |
| PyStr.ParseDecimal | img_utils/img2ebg.py:43 | `int(str(n)) == n` |
| PyStr.SmallDigits | img_utils/img2ebg.py:30-32 | `k` digits are worth less than `10^k` |
| Img2Ebg.NonEmpty | img_utils/img2ebg.py:27 | the `len(d2) > 0` filter keeps only non-empty strings |
| Img2Ebg.ParseAll | img_utils/img2ebg.py:23-28 | one integer per token |
| Img2Ebg.ColorRejects | img_utils/img2ebg.py:15-40 | ArgumentTypeError iff the value has no `#`/`0x` prefix, no `,` or space, and is not alphanumeric |
| Img2Ebg.ColorGray | img_utils/img2ebg.py:30-32 | a number of at most three digits is the gray triple `[v, v, v]`, `v < 1000` |
| Img2Ebg.GrayBound | img_utils/img2ebg.py:30 | at most three digits are worth less than 1000 |
| Img2Ebg.GrayBranch | img_utils/img2ebg.py:30-32 | such a number reaches the gray branch |
| Img2Ebg.SplitPieces | img_utils/img2ebg.py:25-27 | the non-empty pieces of a split hold no separator and concatenate to the string without separators |
| Img2Ebg.SplitConcat | img_utils/img2ebg.py:25-27 | the non-empty pieces concatenate to the string without separators |
| Img2Ebg.SpaceTokensPieces | img_utils/img2ebg.py:25-27 | space tokens are non-empty and space-free, and concatenate to the pieces without spaces |
| Img2Ebg.TokensOf | img_utils/img2ebg.py:21-28 | the tokens are non-empty, hold no `,` or space, and concatenate to the stripped value without them |
| Img2Ebg.ParseAllEach | img_utils/img2ebg.py:23-28 | parsing succeeds iff every token is an integer, giving their values in order |
| Img2Ebg.ColorList | img_utils/img2ebg.py:21-28 | a value with `,` or space is the list of its tokens' integers, or a ValueError if one is not an integer |
| Img2Ebg.ColorHash | img_utils/img2ebg.py:16-19 | `#` plus hex digits is `rgb565_to_rgb` of their value |
| Img2Ebg.ColorHex0x | img_utils/img2ebg.py:16-19 | `0x` plus hex digits is `rgb565_to_rgb` of their value, the prefix dropped by `int(..., 16)` |
| Img2Ebg.ColorAlnum | img_utils/img2ebg.py:34-37 | other alphanumerics parse iff all are hex digits, giving `rgb565_to_rgb` of their value |
| Img2Ebg.HexValueOf | img_utils/img2ebg.py:37 | `int(value, 16)` succeeds exactly on hex digits |
| Img2Ebg.HexValueOk | img_utils/img2ebg.py:37 | hex digits give the colour of the word they spell |
| Img2Ebg.AlnumBranch | img_utils/img2ebg.py:34-37 | letters and digits that are not a short number reach the last branch |
| Img2Ebg.ColorGrayExample | img_utils/img2ebg.py:30-32 | `color("7") == [7, 7, 7]` |
| Img2Ebg.TextRun | img_utils/img2ebg.py:44 | the leading non-digit run is within the string |
| Img2Ebg.DigitRun | img_utils/img2ebg.py:44 | the leading digit run is within the string |
| Img2Ebg.TextRunSpec | img_utils/img2ebg.py:44 | the text run stops at the first digit |
| Img2Ebg.DigitRunSpec | img_utils/img2ebg.py:44 | the digit run stops at the first non-digit |
| Img2Ebg.ReSplit | img_utils/img2ebg.py:44 | `re.split` gives at least one piece |
| Img2Ebg.ReSplitConcat | img_utils/img2ebg.py:44 | the pieces of `re.split('([0-9]+)', s)` concatenate back to `s` |
| Img2Ebg.ReSplitOdd | img_utils/img2ebg.py:44 | there is an odd number of pieces |
| Img2Ebg.ReSplitKinds | img_utils/img2ebg.py:44 | even pieces hold no digit; odd pieces are digit runs |
| Img2Ebg.Key | img_utils/img2ebg.py:43-44 | one key element per piece |
| Img2Ebg.KeyAlternates | img_utils/img2ebg.py:43-44 | keys alternate text and integer, starting and ending with text |
| Img2Ebg.KeysComparable | img_utils/img2ebg.py:43-44 | two keys agree in kind at every shared position, so for names whose digits are ASCII Python's comparison never raises TypeError |
| Img2Ebg.LexStrictTotal | img_utils/img2ebg.py:45 | lexicographic order over a strict total order is a strict total order |
| Img2Ebg.LexAsym | img_utils/img2ebg.py:45 | lexicographic order is asymmetric |
| Img2Ebg.LexTrans | img_utils/img2ebg.py:45 | lexicographic order is transitive |
| Img2Ebg.LexTotal | img_utils/img2ebg.py:45 | lexicographic order is total |
| Img2Ebg.PieceStrictTotal | img_utils/img2ebg.py:43-45 | comparing key elements is a strict total order |
| Img2Ebg.KeyStrictTotal | img_utils/img2ebg.py:43-45 | comparing keys is a strict total order |
| Img2Ebg.KeyOrder | img_utils/img2ebg.py:45 | key order is asymmetric, and when `a` is below `c` every key `b` is above `a` or below `c` |
| Img2Ebg.SplitTextNumber | img_utils/img2ebg.py:44 | digit-free text plus a number splits into text, number, empty text |
| Img2Ebg.TextRunBefore | img_utils/img2ebg.py:44 | the text run of text plus digits is the text |
| Img2Ebg.DigitRunAll | img_utils/img2ebg.py:44 | a digit string is its own digit run |
| Img2Ebg.KeyOfTextNumber | img_utils/img2ebg.py:43-44 | the key of `p + str(m)` is `[p.lower(), m, '']` |
| Img2Ebg.NaturalNumbers | img_utils/img2ebg.py:43-45 | `p + str(m)` sorts before `p + str(n)` iff `m < n` |
| Img2Ebg.PlainOrder | img_utils/img2ebg.py:45 | as plain strings `'f10' < 'f2'` |
| Img2Ebg.NaturalOrder | img_utils/img2ebg.py:43-45 | by the key, `'f2'` sorts before `'f10'` |
| Img2Ebg.InsertPermutes | img_utils/img2ebg.py:45 | inserting adds the name and keeps every other |
| Img2Ebg.SortByPermutes | img_utils/img2ebg.py:45 | sorting keeps every name, as often as before |
| Img2Ebg.InsertSorted | img_utils/img2ebg.py:45 | inserting into a sorted sequence keeps it sorted |
| Img2Ebg.InsertBelow | img_utils/img2ebg.py:45 | inserting before the last name keeps that name above all others |
| Img2Ebg.SortBySorted | img_utils/img2ebg.py:45 | sorting by a key gives ascending key order |
| Img2Ebg.InsertStable | img_utils/img2ebg.py:45 | inserting places the name after every name with the same key |
| Img2Ebg.InsertStableBelow | img_utils/img2ebg.py:45 | the same when the name goes before the last one |
| Img2Ebg.SortByStable | img_utils/img2ebg.py:45 | names with equal keys keep their input order |
| Img2Ebg.SortedAlphanumericSpec | img_utils/img2ebg.py:42-45 | for names whose digits are ASCII, `sorted_alphanumeric` returns a permutation, in key order, stable |
| Img2Ebg.SortsFrames | img_utils/img2ebg.py:42-45 | `sorted_alphanumeric(['f10', 'f2']) == ['f2', 'f10']` |

## Left out

- File and console I/O: the `__main__` blocks, `argparse`, `open`/`read`/`write`, `cv2.imread`/`imshow`/`imwrite`, JSON loading and dumping, and the printed messages. Files are byte sequences, the JSON descriptor is a map, and warnings are returned lists.
- `parse_font_descriptor`'s file access: `os.path.isfile` is the parameter `isFile`, and the font file stem is passed in. The "not a valid file or directory" and JSON-error returns (font2bin.py:12-32) are not modelled.
- `char_repr` and the quoted C-string printing of `parse_string.py`: they depend on Python's `repr`.
- The `ESP_OK` return values of the raster primitives and the display and DMA code of `graphics.c` (`g_init`, `g_vdb_flush`, `g_refresh_region`). The VDB is one region and one buffer; the double-buffer swap is not modelled.
- `g_draw_circle` and the polygon fill: the circle is not modelled, and the polygon uses float `g_point_t` coordinates.
- `CRender.GDrawString`: the `g_draw_char` calls are a trace of placements. The glyph reads they make are modelled separately by `Raster.Vdb.DrawChar`.
- `CRender.GDrawString`: the loop index `i` is a 16-bit `g_size_t`, and a string of 65536 bytes or more would wrap it. The model reads the whole string, up to its NUL.
- C `char` is taken as unsigned, so bytes 0x80 and above reach the glyph path. A signed `char` would compare them as negative against `ascii_offset`.
- `Raster.Vdb.HLine`, `Raster.Vdb.VLine`, `Raster.Vdb.DrawRect` and `Raster.Vdb.DrawLine` require that the 16-bit intermediates they compute do not wrap (`HLineFits`, `VLineFits`, `RectFits`, `OutlineFits`). The wrapped results are not modelled.
- `Raster.Vdb.Bresenham` requires `|x1 - x0|` and `|y1 - y0|` below 2^15.
- `Raster.Vdb.DrawPixel` and the other VDB methods require a VDB region of fewer than 2^15 columns and rows (`Window`).
- `Raster.Vdb.DrawBitmapMono` requires width and height below 2^15, together with a bitmap holding `ceil(width/8) * height` bytes. The firmware does not check the bitmap length.
- `Raster.Vdb.DrawChar` requires the glyph to be inside the store; the firmware reads whatever memory follows.
- `Raster.Vdb.DrawRect` uses the corrected out-of-bounds test (see Findings). The as-written test is modelled by `Raster.RejectedAsWritten`.
- `InkWidth.GlyphWidthPy`: for a glyph the store cuts short, only the bounds on the result are stated. That value is never used, because `draw_char` then raises.
- `InkWidth.GlyphWidthMultibytes` requires the whole glyph in the store (`HasGlyph`), and `InkWidth.GlyphWidthC` requires the bytes it reads to be there (`CReadable`). The firmware reads past the end of the store.
- `PyRender.DrawChar`: on an IndexError the pixels written before the failing cell stay written. The model states only that no pixel receives anything but 255.
- `PyRender.DrawString`: the image indices come from the code; the image's allocated size (parse_string.py:280-282) and its channel dimension are not modelled.
- `Preprocess.PreprocessString`: the charmap is a map from glyph names of any length (`'degree'`, `'lowercase_acute'`) to tokens. A character of the input is looked up as the one-character name `[ch]`, and the components of `SPECIAL_CHARS` by their full names. Characters outside the table are compared as code points.
- `FontConvert.ParseFontDescriptor`: JSON floats and nested objects are not values of the model, so `width > 127` on a float is not modelled. The TypeError covers every other non-numeric width.
- `FontConvert.Convert`: width, height and offset are Python integers. A JSON boolean takes part as 0 or 1, since Python's `bool` is an `int`, and that conversion is left to the caller. A height or offset of another JSON type (a string, `null`, a list), which `bytes` refuses with a TypeError, is not modelled.
- `FontConvert.ConvertFont`: the output directory and file names belong to the file layer and are not modelled. They are built from `font['name']`, with spaces replaced by `_` in the two file names (font_utils/font2bin.py:102, 114, 138); glyph names enter the map unchanged.
- `FontConvert.ConvertFont`: the partial files an error leaves behind are not modelled. On the `bytes` ValueError (`HeaderByteRange`) the `.bmf` is already open and stays empty; on the ZeroDivisionError of `% glyphs_per_row` (`NoGlyphsPerRow`) it already holds the 3 header bytes. The model returns only the error.
- `Ebg.Save`: the bytes already written before an error are not modelled, and neither is the partial file left behind.
- `Ebg.Save`: the palette entries `save` packs are numpy `uint8` scalars (img_utils/ebg.py:111-125, 306-307). `Ebg.Rgb565` and `Ebg.WritePalette` pack them as unbounded integers, which is what NumPy 1.x's value-based promotion to a wide integer gives. Under NumPy 2's promotion rules (NEP 50) `(r & 0xF8) << 8` stays 8-bit and wraps, losing the red field and the top green bits; that behaviour is not modelled.
- `Ebg.Load`: the signature and version `assert`s are modelled as the errors they raise. Under `python -O` they would be skipped, and that is not modelled.
- `Ebg.Load`: palettes are RGB triples. The numpy `uint8` arrays, the `Palette` object's other colour modes, and `EBG.trasparent` are not modelled.
- The k-means palette, quantisation, colour-space conversions, `save_img`, GIF writing and JSON palettes of `ebg.py`: these are foreign library calls.
- `Img2Ebg.Color`: non-ASCII characters are not classified by Python's Unicode rules (`isnumeric`, `isalnum`).
- `Img2Ebg.SortedAlphanumeric`: `lower` maps only A-Z.
- `Img2Ebg.SortedAlphanumericSpec`: holds for names whose digits are ASCII only. `re.split('([0-9]+)')` splits on ASCII digit runs, but `text.isdigit()` and `int(text)` also accept other Unicode digits. A name like `'٣'` gets the key `[3]`, and comparing it with `['a']` raises TypeError. A name like `'²'` passes `isdigit()`, and then `int('²')` raises ValueError. The model classifies digits as ASCII only, so it sorts such lists instead of raising.
- `Img2Ebg.KeysComparable`: proved for the model's ASCII `isdigit`. With Unicode digits a text piece can turn into an integer, and the two keys no longer agree in kind (see the line above).
- `Img2Ebg.SortedAlphanumeric`: Python's sort algorithm is modelled as a stable insertion sort. The result is the same, because a stable sort by a strict total order is unique.
- `get_frames` of `img2ebg.py` and the rest of its `__main__`: filesystem and video capture.
- `img.c`, `bin2c.py`, `generate_pattern.py`, `ebg2img.py` and the example programs are not part of this model.

## Findings

| source | as written | input that shows it | evidently intended | confidence | as-written member | corrected member |
|---|---|---|---|---|---|---|
| graphics.c:98 | `fill_region.x1 <= 0 \|\| fill_region.y1 <= 0` drops a rectangle whose clamped right or bottom edge is relative column or row 0 | VDB (10,10)-(20,20), rectangle (0,0)-(10,15): the clamped region is column 0 and rows 0-5, and pixel (10,10) lies in it, yet nothing is drawn | `< 0`: only a region entirely left of or above the VDB is off it | not executed | Raster.EdgeRectDropped | Raster.FillExact |
