/**
 * The EBG ("embedded bitmap graphics") image container of img_utils/ebg.py:
 * RGB565 colour packing (`Utils.rgb_to_rgb565`, `Utils.rgb565_to_rgb`), the
 * flag byte, and the byte layout that `EBG.save` writes and `EBG.load`
 * reads, with the file modelled as a byte sequence.
 */
module Ebg {
  import opened Bits
  import opened Wrappers

  /** One palette colour, 8 bits per channel. */
  datatype Rgb = Rgb(r: byte, g: byte, b: byte)

  /**
   * `rgb_to_rgb565`: the top five bits of red, six of green and five of
   * blue, packed into one 16-bit word. Python integers do not wrap, so the
   * shifts are computed 32 bits wide; the conversion to 16 bits is checked
   * to lose nothing, which is the bound `< 65536` of the packed value.
   */
  function Rgb565(c: Rgb): (w: bv16)
    ensures w >> 11 == (c.r >> 3) as bv16
    ensures (w >> 5) & 0x3F == (c.g >> 2) as bv16
    ensures w & 0x1F == (c.b >> 3) as bv16
  {
    var v: bv32 := ((c.r as bv32 & 0xF8) << 8) | ((c.g as bv32 & 0xFC) << 3) | ((c.b as bv32 & 0xF8) >> 3);
    v as bv16
  }

  /**
   * `rgb565_to_rgb`: each field of a 16-bit word moved back to the top of
   * an 8-bit channel, so the bits that packing dropped come back as zero.
   */
  function Rgb565ToRgb(w: bv16): (c: Rgb)
    ensures c.r & 0x07 == 0 && c.g & 0x03 == 0 && c.b & 0x07 == 0
    ensures (c.r >> 3) as bv16 == w >> 11
    ensures (c.g >> 2) as bv16 == (w >> 5) & 0x3F
    ensures (c.b >> 3) as bv16 == w & 0x1F
  {
    Rgb(((w & 0xF800) >> 8) as byte, ((w & 0x07E0) >> 3) as byte, ((w & 0x1F) << 3) as byte)
  }

  /**
   * The 16 low bits of a Python integer in two's complement: all that
   * `rgb565_to_rgb`'s masks read of an integer of any size or sign.
   */
  function Low16(v: int): bv16
  {
    (v % 0x1_0000) as bv16
  }

  /** The colour that survives a trip through RGB565: the dropped low bits are cleared. */
  function Masked(c: Rgb): Rgb
  {
    Rgb(c.r & 0xF8, c.g & 0xFC, c.b & 0xF8)
  }

  /** Unpacking a packed colour gives the colour with its dropped bits cleared. */
  lemma UnpackPack(c: Rgb)
    ensures Rgb565ToRgb(Rgb565(c)) == Masked(c)
  {
  }

  /** Packing an unpacked 16-bit word gives the word back. */
  lemma PackUnpack(w: bv16)
    ensures Rgb565(Rgb565ToRgb(w)) == w
  {
  }

  // The flag byte (`EBG.FLAGS_*`).
  const FlagsTransparent: byte := 0x80
  const FlagsColormode: byte := 0x70
  const ColormodeMono: byte := 0x00
  const ColormodeGray: byte := 0x10
  const ColormodeRgb565: byte := 0x20
  const ColormodeRgb888: byte := 0x30
  const ColormodeRgba5658: byte := 0x40
  const ColormodeRgba8888: byte := 0x50
  const FlagsIndexed: byte := 0x08
  const FlagsIndexsize: byte := 0x04
  const IndexsizeBit: byte := 0x00
  const IndexsizeByte: byte := 0x04

  /**
   * The flag fields occupy disjoint bits above two reserved ones, and every
   * colour mode and index size is a distinct value inside its own field.
   */
  lemma FlagFields()
    ensures FlagsTransparent & FlagsColormode == 0 && FlagsTransparent & FlagsIndexed == 0
    ensures FlagsTransparent & FlagsIndexsize == 0 && FlagsColormode & FlagsIndexed == 0
    ensures FlagsColormode & FlagsIndexsize == 0 && FlagsIndexed & FlagsIndexsize == 0
    ensures (FlagsTransparent | FlagsColormode | FlagsIndexed | FlagsIndexsize) & 0x03 == 0
    ensures forall m :: m in [ColormodeMono, ColormodeGray, ColormodeRgb565, ColormodeRgb888, ColormodeRgba5658, ColormodeRgba8888]
                 ==> m & FlagsColormode == m
    ensures |{ColormodeMono, ColormodeGray, ColormodeRgb565, ColormodeRgb888, ColormodeRgba5658, ColormodeRgba8888}| == 6
    ensures IndexsizeBit & FlagsIndexsize == IndexsizeBit && IndexsizeByte & FlagsIndexsize == IndexsizeByte
    ensures IndexsizeBit != IndexsizeByte
  {
  }

  /**
   * The flags `save` writes: RGB565 colours, indexed with one byte per
   * index, and the transparency bit exactly when the palette has a
   * transparent index.
   */
  function SaveFlags(transparent: bool): (f: byte)
    ensures f & FlagsColormode == ColormodeRgb565
    ensures f & FlagsIndexed == FlagsIndexed
    ensures f & FlagsIndexsize == IndexsizeByte
    ensures f & FlagsTransparent != 0 <==> transparent
    ensures f & 0x03 == 0
  {
    var f := 0 | ColormodeRgb565 | FlagsIndexed | IndexsizeByte;
    if transparent then f | FlagsTransparent else f
  }

  /** A palette: its colours and, optionally, the index of the transparent one. */
  datatype Palette = Palette(colors: seq<Rgb>, transparent: Option<int>)

  /** An `EBG` object: frame size, the frames' palette indices and the palette. */
  datatype Image = Image(width: int, height: int, frames: seq<seq<int>>, palette: Option<Palette>)

  /** Why `save` fails. */
  datatype SaveError =
    | NoPalette    // `self.palette.transparent` with no palette: AttributeError
    | HeaderRange  // a header field out of range of its `struct` format
    | IndexRange   // a palette index that is not a byte

  /** Why `load` fails. */
  datatype LoadError =
    | InvalidFile     // the first three bytes are not "EBG"
    | NoVersion       // the file is exactly "EBG": indexing its fourth byte fails
    | InvalidVersion  // the version byte is not 1
    | ShortRead       // a header or a palette colour read past the end of the file
    | NotImplemented  // not indexed with byte-sized indices

  /** `'E', 'B', 'G'` followed by version 1. */
  const Signature: seq<byte> := [0x45, 0x42, 0x47, 0x01]

  predicate U16(v: int)
  {
    0 <= v < 0x1_0000
  }

  predicate U8(v: int)
  {
    0 <= v < 0x100
  }

  /** `struct.pack("<H", v)`: the low byte, then the high byte. */
  function Le16(v: int): (s: seq<byte>)
    requires U16(v)
    ensures |s| == 2
  {
    [(v % 0x100) as byte, (v / 0x100) as byte]
  }

  /** The value of two bytes, first the high one, as a Python integer. */
  function Word(hi: byte, lo: byte): (v: nat)
    ensures U16(v)
  {
    hi as nat * 0x100 + lo as nat
  }

  /** A little-endian word reads back as the integer written. */
  lemma LeWord(v: int)
    requires U16(v)
    ensures Word(Le16(v)[1], Le16(v)[0]) == v
  {
    var q, m := v / 0x100, v % 0x100;
    assert v == q * 0x100 + m;
    ByteOfNat(q);
    ByteOfNat(m);
  }

  /** `struct.pack("!H", w)`: the high byte, then the low byte. */
  function Be16(w: bv16): (s: seq<byte>)
    ensures |s| == 2
  {
    [(w >> 8) as byte, (w & 0xFF) as byte]
  }

  /** Two bytes, first the high one, as a 16-bit word. */
  function Word16(hi: byte, lo: byte): bv16
  {
    (hi as bv16 << 8) | lo as bv16
  }

  /** A big-endian word reads back as the word written. */
  lemma BeWord(w: bv16)
    ensures Word16(Be16(w)[0], Be16(w)[1]) == w
  {
  }

  /** Every field `save` packs fits its `struct` format ("<HHBBBB"). */
  predicate HeaderFits(e: Image)
    requires e.palette.Some?
  {
    var p := e.palette.value;
    U16(e.width) && U16(e.height) && U8(|p.colors| - 1)
    && (p.transparent.None? || U8(p.transparent.value)) && U8(|e.frames|)
  }

  /** Every palette index of every frame is a byte ("!B"). */
  predicate IndicesFit(frames: seq<seq<int>>)
  {
    forall j, k :: 0 <= j < |frames| && 0 <= k < |frames[j]| ==> U8(frames[j][k])
  }

  /** The eight header bytes after the signature. */
  function Header(e: Image): (s: seq<byte>)
    requires e.palette.Some? && HeaderFits(e)
    ensures |s| == 8
  {
    var p := e.palette.value;
    Le16(e.width) + Le16(e.height)
    + [SaveFlags(p.transparent.Some?), (|p.colors| - 1) as byte,
       if p.transparent.None? then 0 else p.transparent.value as byte, |e.frames| as byte]
  }

  /** The palette colours as big-endian RGB565 words. */
  function PaletteBytes(cs: seq<Rgb>): (s: seq<byte>)
  {
    if |cs| == 0 then [] else PaletteBytes(cs[..|cs| - 1]) + Be16(Rgb565(cs[|cs| - 1]))
  }

  /** One frame's indices, one byte each. */
  function IndexBytes(f: seq<int>): (s: seq<byte>)
    requires forall k :: 0 <= k < |f| ==> U8(f[k])
    ensures |s| == |f|
  {
    seq(|f|, k requires 0 <= k < |f| && U8(f[k]) => f[k] as byte)
  }

  /** All frames' indices, frame after frame. */
  function FrameBytes(frames: seq<seq<int>>): (s: seq<byte>)
    requires IndicesFit(frames)
  {
    if |frames| == 0 then [] else FrameBytes(frames[..|frames| - 1]) + IndexBytes(frames[|frames| - 1])
  }

  /** The number of indices in all frames. */
  function TotalSize(frames: seq<seq<int>>): nat
  {
    if |frames| == 0 then 0 else TotalSize(frames[..|frames| - 1]) + |frames[|frames| - 1]|
  }

  /** The file `save` writes, or the error it raises. */
  function Encode(e: Image): Result<seq<byte>, SaveError>
  {
    if e.palette.None? then Err(NoPalette)
    else if !HeaderFits(e) then Err(HeaderRange)
    else if !IndicesFit(e.frames) then Err(IndexRange)
    else Ok(Signature + Header(e) + PaletteBytes(e.palette.value.colors) + FrameBytes(e.frames))
  }

  /** `EBG.save`: the signature, the header, each palette colour, then each frame's indices. */
  method Save(e: Image) returns (r: Result<seq<byte>, SaveError>)
    ensures r == Encode(e)
  {
    var out := Signature;
    if e.palette.None? {
      return Err(NoPalette);
    }
    if !HeaderFits(e) {
      return Err(HeaderRange);
    }
    out := out + Header(e);
    var colors := WritePalette(e.palette.value.colors);
    out := out + colors;
    var frames := WriteFrames(e.frames);
    if frames.None? {
      return Err(IndexRange);
    }
    return Ok(out + frames.value);
  }

  /** The palette loop of `save`: each colour as a big-endian RGB565 word. */
  method WritePalette(colors: seq<Rgb>) returns (out: seq<byte>)
    ensures out == PaletteBytes(colors)
  {
    out := [];
    var i := 0;
    while i < |colors|
      invariant 0 <= i <= |colors|
      invariant out == PaletteBytes(colors[..i])
    {
      assert colors[..i + 1][..i] == colors[..i];
      out := out + Be16(Rgb565(colors[i]));
      i := i + 1;
    }
    assert colors[..i] == colors;
  }

  /** The frame loop of `save`: the indices of each frame in turn, or none if an index is not a byte. */
  method WriteFrames(frames: seq<seq<int>>) returns (out: Option<seq<byte>>)
    ensures out.Some? <==> IndicesFit(frames)
    ensures out.Some? ==> out.value == FrameBytes(frames)
  {
    var bytes: seq<byte> := [];
    var j := 0;
    while j < |frames|
      invariant 0 <= j <= |frames|
      invariant IndicesFit(frames[..j])
      invariant bytes == FrameBytes(frames[..j])
    {
      var written := WriteFrame(frames[j]);
      if written.None? {
        var k :| 0 <= k < |frames[j]| && !U8(frames[j][k]);
        return None;
      }
      FrameBytesSnoc(frames, j);
      bytes := bytes + written.value;
      j := j + 1;
    }
    assert frames[..j] == frames;
    return Some(bytes);
  }

  /** The inner loop of `save`: one byte per index of a frame, or none if an index is not a byte. */
  method WriteFrame(frame: seq<int>) returns (written: Option<seq<byte>>)
    ensures written.Some? <==> forall k :: 0 <= k < |frame| ==> U8(frame[k])
    ensures written.Some? ==> written.value == IndexBytes(frame)
  {
    var out: seq<byte> := [];
    var k := 0;
    while k < |frame|
      invariant 0 <= k <= |frame|
      invariant forall m :: 0 <= m < k ==> U8(frame[m])
      invariant |out| == k && forall m :: 0 <= m < k ==> out[m] == frame[m] as byte
    {
      if !U8(frame[k]) {
        return None;
      }
      out := out + [frame[k] as byte];
      k := k + 1;
    }
    return Some(out);
  }

  /** Appending frame `j` to the frames before it appends its bytes to theirs. */
  lemma FrameBytesSnoc(frames: seq<seq<int>>, j: nat)
    requires j < |frames| && IndicesFit(frames[..j])
    requires forall k :: 0 <= k < |frames[j]| ==> U8(frames[j][k])
    ensures IndicesFit(frames[..j + 1])
    ensures FrameBytes(frames[..j + 1]) == FrameBytes(frames[..j]) + IndexBytes(frames[j])
  {
    var next := frames[..j + 1];
    assert next[..j] == frames[..j];
    forall a, k | 0 <= a < |next| && 0 <= k < |next[a]|
      ensures U8(next[a][k])
    {
      if a < j {
        assert next[a] == frames[..j][a];
      }
    }
  }

  /** The palette takes two bytes per colour. */
  lemma {:induction false} PaletteBytesLength(cs: seq<Rgb>)
    ensures |PaletteBytes(cs)| == 2 * |cs|
    decreases |cs|
  {
    if |cs| > 0 {
      PaletteBytesLength(cs[..|cs| - 1]);
    }
  }

  /** Colour `i` of the palette is the word at bytes `2i` and `2i + 1`. */
  lemma {:induction false} PaletteBytesAt(cs: seq<Rgb>, i: nat)
    requires i < |cs|
    ensures |PaletteBytes(cs)| == 2 * |cs|
    ensures Word16(PaletteBytes(cs)[2 * i], PaletteBytes(cs)[2 * i + 1]) == Rgb565(cs[i])
    decreases |cs|
  {
    PaletteBytesLength(cs);
    var n := |cs| - 1;
    PaletteBytesLength(cs[..n]);
    BeWord(Rgb565(cs[n]));
    if i < n {
      PaletteBytesAt(cs[..n], i);
    }
  }

  /** The frames take as many bytes as they have indices. */
  lemma {:induction false} FrameBytesLength(frames: seq<seq<int>>)
    requires IndicesFit(frames)
    ensures |FrameBytes(frames)| == TotalSize(frames)
    decreases |frames|
  {
    if |frames| > 0 {
      FrameBytesLength(frames[..|frames| - 1]);
    }
  }

  /** When every frame has `size` indices, there are `size` per frame in all. */
  lemma {:induction false} TotalSizeUniform(frames: seq<seq<int>>, size: nat)
    requires forall m :: 0 <= m < |frames| ==> |frames[m]| == size
    ensures TotalSize(frames) == |frames| * size
    decreases |frames|
  {
    if |frames| > 0 {
      var n := |frames| - 1;
      assert forall m :: 0 <= m < n ==> frames[..n][m] == frames[m];
      TotalSizeUniform(frames[..n], size);
      MulSucc(n, size);
    }
  }

  /** When every frame has `size` indices, frame `j` is the `j`-th block of `size` bytes. */
  lemma {:induction false} FrameBytesAt(frames: seq<seq<int>>, size: nat, j: nat)
    requires IndicesFit(frames)
    requires forall m :: 0 <= m < |frames| ==> |frames[m]| == size
    requires j < |frames|
    ensures 0 <= j * size && j * size + size <= |FrameBytes(frames)|
    ensures FrameBytes(frames)[j * size..j * size + size] == IndexBytes(frames[j])
    decreases |frames|
  {
    var n := |frames| - 1;
    var init := frames[..n];
    assert forall m :: 0 <= m < n ==> init[m] == frames[m];
    assert IndicesFit(init);
    var pre, last := FrameBytes(init), IndexBytes(frames[n]);
    assert FrameBytes(frames) == pre + last;
    MulMono(0, j, size);
    if j < n {
      FrameBytesAt(init, size, j);
      SliceOfPrefix(pre, last, j * size, j * size + size);
    } else {
      FrameBytesLength(init);
      TotalSizeUniform(init, size);
      assert |pre| == j * size && |last| == size;
      SliceOfSuffix(pre, last);
    }
  }

  /** A slice inside the first part of a concatenation is a slice of that part. */
  lemma SliceOfPrefix(a: seq<byte>, b: seq<byte>, lo: nat, hi: nat)
    requires lo <= hi <= |a|
    ensures (a + b)[lo..hi] == a[lo..hi]
  {
  }

  /** The second part of a concatenation is the slice after the first. */
  lemma SliceOfSuffix(a: seq<byte>, b: seq<byte>)
    ensures (a + b)[|a|..|a| + |b|] == b
  {
  }

  /** `save` writes `12 + 2 * len(palette) + Σ len(frame)` bytes. */
  lemma EncodeLength(e: Image)
    requires Encode(e).Ok?
    ensures |Encode(e).value| == 12 + 2 * |e.palette.value.colors| + TotalSize(e.frames)
  {
    PaletteBytesLength(e.palette.value.colors);
    FrameBytesLength(e.frames);
  }

  /**
   * The header `save` writes: the signature, the little-endian width and
   * height, the flags, the palette size minus one, the transparent index
   * or 0, and the frame count.
   */
  lemma EncodeHeader(e: Image)
    requires Encode(e).Ok?
    ensures |Encode(e).value| >= 12
    ensures Encode(e).value[..4] == Signature
    ensures Word(Encode(e).value[5], Encode(e).value[4]) == e.width
    ensures Word(Encode(e).value[7], Encode(e).value[6]) == e.height
    ensures Encode(e).value[8] == SaveFlags(e.palette.value.transparent.Some?)
    ensures Encode(e).value[9] as int == |e.palette.value.colors| - 1
    ensures Encode(e).value[10] as int == if e.palette.value.transparent.Some? then e.palette.value.transparent.value else 0
    ensures Encode(e).value[11] as int == |e.frames|
  {
    var file := Encode(e).value;
    var h := Header(e);
    assert file[..12] == Signature + h;
    assert forall i :: 0 <= i < 8 ==> file[4 + i] == h[i];
    HeaderFields(e);
  }

  /** The eight header bytes, field by field. */
  lemma HeaderFields(e: Image)
    requires e.palette.Some? && HeaderFits(e)
    ensures Word(Header(e)[1], Header(e)[0]) == e.width
    ensures Word(Header(e)[3], Header(e)[2]) == e.height
    ensures Header(e)[4] == SaveFlags(e.palette.value.transparent.Some?)
    ensures Header(e)[5] as int == |e.palette.value.colors| - 1
    ensures Header(e)[6] as int == if e.palette.value.transparent.Some? then e.palette.value.transparent.value else 0
    ensures Header(e)[7] as int == |e.frames|
  {
    var p := e.palette.value;
    LeWord(e.width);
    LeWord(e.height);
    ByteOfNat(|p.colors| - 1);
    ByteOfNat(|e.frames|);
    if p.transparent.Some? {
      ByteOfNat(p.transparent.value);
    }
  }

  // `load`.

  /** `f.read(n)` at position `pos`: up to `n` bytes, fewer at the end of the file. */
  function ReadAt(file: seq<byte>, pos: nat, n: nat): (s: seq<byte>)
    ensures |s| <= n
    ensures pos + n <= |file| ==> s == file[pos..pos + n]
  {
    var a := if pos < |file| then pos else |file|;
    var b := if pos + n < |file| then pos + n else |file|;
    file[a..b]
  }

  /** The `n` palette colours stored from byte `pos` on. */
  function Colors(file: seq<byte>, pos: nat, n: nat): (cs: seq<Rgb>)
    requires pos + 2 * n <= |file|
    ensures |cs| == n
  {
    seq(n, i requires 0 <= i < n => Rgb565ToRgb(Word16(file[pos + 2 * i], file[pos + 2 * i + 1])))
  }

  /** Bytes as Python integers. */
  function Ints(s: seq<byte>): (f: seq<int>)
    ensures |f| == |s|
  {
    seq(|s|, k requires 0 <= k < |s| => s[k] as int)
  }

  /** `count` frames of `size` bytes from `pos` on, cut short at the end of the file. */
  function Frames(file: seq<byte>, pos: nat, count: nat, size: nat): (fs: seq<seq<int>>)
    ensures |fs| == count
  {
    seq(count, j requires 0 <= j < count => Ints(ReadAt(file, pos + j * size, size)))
  }

  /** What `load` returns for a file's bytes, or the error it raises. */
  function Decode(file: seq<byte>): Result<Image, LoadError>
  {
    if |file| < 3 || file[..3] != Signature[..3] then Err(InvalidFile)
    else if |file| < 4 then Err(NoVersion)
    else if file[3] != 0x01 then Err(InvalidVersion)
    else if |file| < 12 then Err(ShortRead)
    else DecodeBody(file)
  }

  /** What `load` makes of a file once its signature, version and header are there. */
  function DecodeBody(file: seq<byte>): Result<Image, LoadError>
    requires 12 <= |file|
  {
    match DecodePalette(file)
    case Err(e) => Err(e)
    case Ok(palette) =>
      var width, height, k, count := Word(file[5], file[4]), Word(file[7], file[6]), file[9] as nat, file[11] as nat;
      MulMono(0, width, height);
      Ok(Image(width, height, Frames(file, 12 + 2 * (k + 1), count, width * height), Some(palette)))
  }

  /**
   * The palette `load` reads: a short read when the colours are cut off, an
   * error unless the image is indexed with byte indices.
   */
  function DecodePalette(file: seq<byte>): Result<Palette, LoadError>
    requires 12 <= |file|
  {
    var flags, k, t := file[8], file[9] as nat, file[10] as nat;
    if flags & FlagsIndexed != 0 && |file| < 12 + 2 * (k + 1) then Err(ShortRead)
    else if flags & FlagsIndexed == 0 || flags & IndexsizeByte == 0 then Err(NotImplemented)
    else Ok(Palette(Colors(file, 12, k + 1), if flags & FlagsTransparent != 0 then Some(t) else None))
  }

  /** The smaller of two naturals. */
  function MinNat(a: nat, b: nat): nat
  {
    if a < b then a else b
  }

  /**
   * `EBG.load`: check the signature and version, unpack the header, read
   * the palette colours, then read `frame_count` frames of
   * `width * height` bytes each.
   */
  method Load(file: seq<byte>) returns (r: Result<Image, LoadError>)
    ensures r == Decode(file)
  {
    var signature := ReadAt(file, 0, 4);
    if |signature| < 3 || signature[..3] != Signature[..3] {
      return Err(InvalidFile);
    }
    if |signature| < 4 {
      return Err(NoVersion);
    }
    if signature[3] != 0x01 {
      return Err(InvalidVersion);
    }
    var header := ReadAt(file, 4, 8);
    if |header| < 8 {
      return Err(ShortRead);
    }
    r := LoadBody(file, header);
  }

  /** The rest of `load`, from the unpacked header on. */
  method LoadBody(file: seq<byte>, header: seq<byte>) returns (r: Result<Image, LoadError>)
    requires 12 <= |file| && header == file[4..12]
    ensures r == DecodeBody(file)
  {
    assert header[0] == file[4] && header[1] == file[5] && header[2] == file[6] && header[3] == file[7];
    assert header[5] == file[9] && header[7] == file[11];
    var width, height := Word(header[1], header[0]), Word(header[3], header[2]);
    var k, count := header[5] as nat, header[7] as nat;
    var palette := LoadPalette(file, header);
    if palette.Err? {
      return Err(palette.error);
    }
    MulMono(0, width, height);
    var frames := ReadFrames(file, 12 + 2 * (k + 1), count, width * height);
    return Ok(Image(width, height, frames, Some(palette.value)));
  }

  /** The flag tests and the palette loop of `load`. */
  method LoadPalette(file: seq<byte>, header: seq<byte>) returns (r: Result<Palette, LoadError>)
    requires 12 <= |file| && header == file[4..12]
    ensures r == DecodePalette(file)
  {
    assert header[4] == file[8] && header[5] == file[9] && header[6] == file[10];
    var flags, k, t := header[4], header[5] as nat, header[6] as nat;
    var colors: seq<Rgb> := [];
    if flags & FlagsIndexed != 0 {
      var read := ReadPalette(file, k + 1);
      if read.None? {
        return Err(ShortRead);
      }
      colors := read.value;
    }
    if flags & FlagsIndexed == 0 || flags & IndexsizeByte == 0 {
      return Err(NotImplemented);
    }
    return Ok(Palette(colors, if flags & FlagsTransparent != 0 then Some(t) else None));
  }

  /** The palette loop of `load`: `n` big-endian words from byte 12 on, or a short read. */
  method ReadPalette(file: seq<byte>, n: nat) returns (colors: Option<seq<Rgb>>)
    requires 12 <= |file|
    ensures colors.Some? <==> 12 + 2 * n <= |file|
    ensures colors.Some? ==> colors.value == Colors(file, 12, n)
  {
    var out: seq<Rgb> := [];
    var pos := 12;
    var i := 0;
    while i < n
      invariant 0 <= i <= n
      invariant pos == 12 + 2 * i <= |file|
      invariant out == Colors(file, 12, i)
    {
      var word := ReadAt(file, pos, 2);
      if |word| < 2 {
        return None;
      }
      out := out + [Rgb565ToRgb(Word16(word[0], word[1]))];
      pos := pos + 2;
      i := i + 1;
    }
    return Some(out);
  }

  /** The frame loop of `load`: `count` reads of `size` bytes from `base` on. */
  method ReadFrames(file: seq<byte>, base: nat, count: nat, size: nat) returns (frames: seq<seq<int>>)
    ensures frames == Frames(file, base, count, size)
  {
    frames := [];
    var pos := MinNat(base, |file|);
    ghost var start := base;
    var j := 0;
    while j < count
      invariant 0 <= j <= count
      invariant start == base + j * size
      invariant pos == MinNat(start, |file|)
      invariant frames == Frames(file, base, j, size)
    {
      var bytes := ReadAt(file, pos, size);
      ReadFrom(file, start, size, pos);
      var frame := ReadFrame(bytes);
      FramesSnoc(file, base, j, size);
      frames := frames + [frame];
      pos := pos + |bytes|;
      MulSucc(j, size);
      start := start + size;
      j := j + 1;
    }
  }

  /** Reading at the clamped position reads what reading at `start` does, and moves the position `size` on. */
  lemma ReadFrom(file: seq<byte>, start: nat, size: nat, pos: nat)
    requires pos == MinNat(start, |file|)
    ensures ReadAt(file, pos, size) == ReadAt(file, start, size)
    ensures pos + |ReadAt(file, pos, size)| == MinNat(start + size, |file|)
  {
  }

  /** One more frame. */
  lemma FramesSnoc(file: seq<byte>, base: nat, j: nat, size: nat)
    ensures Frames(file, base, j + 1, size) == Frames(file, base, j, size) + [Ints(ReadAt(file, base + j * size, size))]
  {
    var a, b := Frames(file, base, j + 1, size), Frames(file, base, j, size);
    assert forall m :: 0 <= m < j ==> a[m] == b[m];
  }

  /** The inner loop of `load`: each byte of a frame as an index. */
  method ReadFrame(bytes: seq<byte>) returns (frame: seq<int>)
    ensures frame == Ints(bytes)
  {
    frame := [];
    var i := 0;
    while i < |bytes|
      invariant 0 <= i <= |bytes|
      invariant |frame| == i && forall m :: 0 <= m < i ==> frame[m] == bytes[m] as int
    {
      frame := frame + [bytes[i] as int];
      i := i + 1;
    }
  }

  /** What `load` gives back for an image that `save` wrote: the frames as saved, the colours masked. */
  function Reloaded(e: Image): Image
    requires e.palette.Some?
  {
    var p := e.palette.value;
    Image(e.width, e.height, e.frames,
          Some(Palette(seq(|p.colors|, i requires 0 <= i < |p.colors| => Masked(p.colors[i])), p.transparent)))
  }

  /** The bytes of a frame read back as its indices. */
  lemma IntsOfIndexBytes(f: seq<int>)
    requires forall k :: 0 <= k < |f| ==> U8(f[k])
    ensures Ints(IndexBytes(f)) == f
  {
    forall k | 0 <= k < |f|
      ensures Ints(IndexBytes(f))[k] == f[k]
    {
      ByteOfNat(f[k]);
    }
  }

  /** A read inside the file past `base` is a slice of what follows `base`. */
  lemma ReadInside(file: seq<byte>, base: nat, a: nat, n: nat)
    requires base + a + n <= |file|
    ensures ReadAt(file, base + a, n) == file[base..][a..a + n]
  {
  }

  /** The file `save` writes is the 12 header bytes, the palette bytes, then the frame bytes. */
  lemma EncodeParts(e: Image)
    requires Encode(e).Ok?
    ensures 12 + 2 * |e.palette.value.colors| <= |Encode(e).value|
    ensures Encode(e).value[12..12 + 2 * |e.palette.value.colors|] == PaletteBytes(e.palette.value.colors)
    ensures Encode(e).value[12 + 2 * |e.palette.value.colors|..] == FrameBytes(e.frames)
  {
    var head, pb, fb := Signature + Header(e), PaletteBytes(e.palette.value.colors), FrameBytes(e.frames);
    PaletteBytesLength(e.palette.value.colors);
    assert |head| == 12;
    assert Encode(e).value == (head + pb) + fb;
    SliceOfSuffix(head, pb);
    SliceOfPrefix(head + pb, fb, 12, 12 + |pb|);
  }

  /** The palette that `save` wrote reads back masked. */
  lemma ColorsOfSave(e: Image)
    requires Encode(e).Ok?
    ensures 12 + 2 * |e.palette.value.colors| <= |Encode(e).value|
    ensures Colors(Encode(e).value, 12, |e.palette.value.colors|) == Reloaded(e).palette.value.colors
  {
    var file := Encode(e).value;
    var p := e.palette.value;
    var n := |p.colors|;
    var pb := PaletteBytes(p.colors);
    EncodeParts(e);
    var cs := Colors(file, 12, n);
    forall i | 0 <= i < n
      ensures cs[i] == Masked(p.colors[i])
    {
      PaletteBytesAt(p.colors, i);
      assert file[12 + 2 * i] == pb[2 * i] && file[12 + 2 * i + 1] == pb[2 * i + 1];
      UnpackPack(p.colors[i]);
    }
  }

  /** Frame `j` that `save` wrote reads back unchanged when each frame holds `size` indices. */
  lemma FrameOfSave(e: Image, size: nat, j: nat)
    requires Encode(e).Ok?
    requires forall m :: 0 <= m < |e.frames| ==> |e.frames[m]| == size
    requires j < |e.frames|
    ensures Ints(ReadAt(Encode(e).value, 12 + 2 * |e.palette.value.colors| + j * size, size)) == e.frames[j]
  {
    EncodeParts(e);
    FrameInFile(Encode(e).value, 12 + 2 * |e.palette.value.colors|, e.frames, size, j);
  }

  /** In a file holding the frame bytes from `base` on, frame `j` reads back unchanged. */
  lemma FrameInFile(file: seq<byte>, base: nat, frames: seq<seq<int>>, size: nat, j: nat)
    requires IndicesFit(frames)
    requires base <= |file| && file[base..] == FrameBytes(frames)
    requires forall m :: 0 <= m < |frames| ==> |frames[m]| == size
    requires j < |frames|
    ensures base + j * size + size <= |file|
    ensures Ints(ReadAt(file, base + j * size, size)) == frames[j]
  {
    FrameBytesAt(frames, size, j);
    ReadInside(file, base, j * size, size);
    IntsOfIndexBytes(frames[j]);
  }

  /** The frames that `save` wrote read back unchanged when each holds `size` indices. */
  lemma FramesOfSave(e: Image, size: nat)
    requires Encode(e).Ok?
    requires forall m :: 0 <= m < |e.frames| ==> |e.frames[m]| == size
    ensures Frames(Encode(e).value, 12 + 2 * |e.palette.value.colors|, |e.frames|, size) == e.frames
  {
    var fs := Frames(Encode(e).value, 12 + 2 * |e.palette.value.colors|, |e.frames|, size);
    forall j | 0 <= j < |e.frames|
      ensures fs[j] == e.frames[j]
    {
      FrameOfSave(e, size, j);
    }
  }

  /** A file with the signature, an indexed byte-index header and a whole palette decodes field by field. */
  lemma DecodeIndexed(file: seq<byte>)
    requires 12 <= |file| && file[..4] == Signature
    requires file[8] & FlagsIndexed != 0 && file[8] & IndexsizeByte != 0
    requires 12 + 2 * (file[9] as nat + 1) <= |file|
    ensures Decode(file).Ok?
    ensures Decode(file).value.width == Word(file[5], file[4])
    ensures Decode(file).value.height == Word(file[7], file[6])
    ensures Decode(file).value.palette.Some?
    ensures Decode(file).value.palette.value.colors == Colors(file, 12, file[9] as nat + 1)
    ensures Decode(file).value.palette.value.transparent
            == if file[8] & FlagsTransparent != 0 then Some(file[10] as int) else None
    ensures Word(file[5], file[4]) * Word(file[7], file[6]) >= 0
    ensures Decode(file).value.frames
            == Frames(file, 12 + 2 * (file[9] as nat + 1), file[11] as nat, Word(file[5], file[4]) * Word(file[7], file[6]))
  {
    assert file[..3] == Signature[..3];
    MulMono(0, Word(file[5], file[4]), Word(file[7], file[6]));
  }

  /**
   * The files `load` accepts: the signature with version 1, a whole header,
   * an indexed image with byte indices and every palette colour present.
   * Any other first three bytes make an invalid file.
   */
  lemma DecodeAccepts(file: seq<byte>)
    ensures Decode(file) == Err(InvalidFile) <==> |file| < 3 || file[..3] != Signature[..3]
    ensures Decode(file).Ok? <==>
      && 12 <= |file| && file[..4] == Signature
      && file[8] & FlagsIndexed != 0 && file[8] & IndexsizeByte != 0
      && 12 + 2 * (file[9] as nat + 1) <= |file|
  {
    if 4 <= |file| {
      assert file[..4] == file[..3] + [file[3]];
      assert Signature == Signature[..3] + [Signature[3]];
    }
  }

  /**
   * Loading what `save` wrote gives back the width, the height, the frames
   * and the transparent index, and the palette with each colour masked to
   * RGB565, provided every frame holds `width * height` indices.
   */
  lemma LoadSave(e: Image)
    requires Encode(e).Ok?
    requires forall m :: 0 <= m < |e.frames| ==> |e.frames[m]| == e.width * e.height
    ensures Decode(Encode(e).value) == Ok(Reloaded(e))
  {
    var w: nat, h: nat := e.width, e.height;
    DecodeSaved(e, w, h);
    ColorsOfSave(e);
    FramesOfSave(e, w * h);
  }

  /** The header that `save` wrote decodes to the image's size, palette size, transparency and frame count. */
  lemma DecodeSaved(e: Image, w: nat, h: nat)
    requires Encode(e).Ok? && w == e.width && h == e.height
    ensures w * h >= 0
    ensures 12 + 2 * |e.palette.value.colors| <= |Encode(e).value|
    ensures Decode(Encode(e).value)
            == Ok(Image(w, h, Frames(Encode(e).value, 12 + 2 * |e.palette.value.colors|, |e.frames|, w * h),
                        Some(Palette(Colors(Encode(e).value, 12, |e.palette.value.colors|), e.palette.value.transparent))))
  {
    var file := Encode(e).value;
    var p := e.palette.value;
    EncodeHeader(e);
    EncodeLength(e);
    PaletteBytesLength(p.colors);
    var flags := file[8];
    assert flags & FlagsIndexed != 0 && flags & IndexsizeByte != 0;
    assert file[9] as nat + 1 == |p.colors|;
    DecodeIndexed(file);
  }
}
