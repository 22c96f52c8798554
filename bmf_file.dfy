/**
 * The BMF font file: a 3-byte header (width with bit 7 meaning "variable
 * width", height, ascii_offset) followed by the glyph store. The converter
 * writes the header (font2bin.py); the previewer reads it back
 * (parse_string.py) into a `Font`.
 */
module BmfFile {
  import opened Wrappers
  import opened Bits
  import opened BitmapFont

  /** `bytes([...])` rejects a value outside 0..255 with a ValueError. */
  datatype HeaderError = ByteOutOfRange

  /** The variable-width flag in byte 0. */
  const VariableWidth: byte := 0x80

  /** Byte 0 of the header: `width | (0 if monospace else 0x80)`. */
  function WidthByte(width: nat, monospace: bool): (b: byte)
    requires width <= 127
    ensures b & VariableWidth == 0 <==> monospace
    ensures (b & 0x7F) as int == width
  {
    var w := width as byte;
    ByteOfNat(width);
    Low7(w);
    w | (if monospace then 0 else VariableWidth)
  }

  /**
   * `bytes([width | (0 if monospace else 0x80), height, ascii_offset])`, for a
   * width the descriptor check has already limited to at most 127.
   */
  function EncodeHeader(width: nat, height: nat, asciiOffset: nat, monospace: bool): (r: Result<seq<byte>, HeaderError>)
    requires width <= 127
    ensures r.Ok? <==> height < 256 && asciiOffset < 256
    ensures r.Ok? ==> |r.value| == 3 && r.value[0] == WidthByte(width, monospace)
    ensures r.Ok? ==> r.value[1] as int == height && r.value[2] as int == asciiOffset
  {
    if height > 255 || asciiOffset > 255 then Err(ByteOutOfRange)
    else
      var h, a := height as byte, asciiOffset as byte;
      ByteOfNat(height);
      ByteOfNat(asciiOffset);
      Ok([WidthByte(width, monospace), h, a])
  }

  /** `f.read(3)` unpacked into three names fails when the file is shorter. */
  datatype DecodeError = ShortHeader

  /**
   * The previewer's header decode: `Font(not (w & 0x80), w & 0x7F, h, offset, rest)`.
   * Nothing checks that the rest is a whole number of glyphs.
   */
  function DecodeBmf(file: seq<byte>): (r: Result<Font, DecodeError>)
    ensures r.Ok? <==> |file| >= 3
    ensures r.Ok? ==> r.value.width < 128 && ByteFields(r.value) && r.value.glyphs == file[3..]
  {
    if |file| < 3 then Err(ShortHeader)
    else
      var w := file[0];
      Ok(Font(w & VariableWidth == 0, (w & 0x7F) as nat, file[1] as nat, file[2] as nat, file[3..]))
  }

  /** Decoding an encoded header gives back every field, for widths below 128. */
  lemma HeaderRoundTrip(width: nat, height: nat, asciiOffset: nat, monospace: bool, store: seq<byte>)
    requires width <= 127 && height < 256 && asciiOffset < 256
    ensures EncodeHeader(width, height, asciiOffset, monospace).Ok?
    ensures DecodeBmf(EncodeHeader(width, height, asciiOffset, monospace).value + store)
         == Ok(Font(monospace, width, height, asciiOffset, store))
  {
    var file := EncodeHeader(width, height, asciiOffset, monospace).value + store;
    assert file[3..] == store;
  }
}
