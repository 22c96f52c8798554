/**
 * The font converter (font2bin.py): checking a JSON font descriptor and
 * filling in its defaults, then cutting every charmap slot out of the glyph
 * sheet, packing it and writing the BMF file and the glyph-name map.
 */
module FontConvert {
  import opened Wrappers
  import opened Bits
  import PyOps
  import opened GlyphPack
  import opened BitmapFont
  import opened BmfFile
  import opened Tokens
  import opened GlyphSheet

  // ---------------------------------------------------------------------------
  // The descriptor

  /** A JSON value of the descriptor (floats and nested objects are not modelled). */
  datatype Value = Int(i: int) | Bool(b: bool) | Str(s: string) | Null | List(items: seq<Value>)

  /** The loaded JSON object. */
  type Descriptor = map<string, Value>

  /** `('glyphs', 'width', 'height', 'charmap')`. */
  const MandatoryKeys: seq<string> := ["glyphs", "width", "height", "charmap"]

  /** `[k for ... if not key_exists[i]]`: the mandatory keys absent from `d`, in order. */
  function MissingKeys(d: Descriptor): (r: seq<string>)
    ensures forall k :: k in r <==> k in MandatoryKeys && k !in d
  {
    Missing(d, MandatoryKeys)
  }

  function Missing(d: Descriptor, keys: seq<string>): (r: seq<string>)
    ensures forall k :: k in r <==> k in keys && k !in d
  {
    if keys == [] then []
    else (if keys[0] in d then [] else [keys[0]]) + Missing(d, keys[1..])
  }

  /** `os.path.join(dir, p)` for two POSIX paths. */
  function JoinPath(dir: string, p: string): (r: string)
    ensures |p| > 0 && p[0] == '/' ==> r == p
  {
    if |p| > 0 && p[0] == '/' then p
    else if dir == [] || dir[|dir| - 1] == '/' then dir + p
    else dir + "/" + p
  }

  /** Why a descriptor is refused: the four error prints, and the two exceptions the checks can raise. */
  datatype DescriptorError =
    | MissingInfo(keys: seq<string>)
    | GlyphsFileNotFound(path: string)
    | TooWide
    | RaisedKeyError(key: string)
    | RaisedTypeError

  /** The warnings printed for each default filled in. */
  datatype DescriptorWarning = NoName(used: string) | NoAsciiOffset | NoMonospace

  /** How `font['width'] > 127` evaluates: `None` when Python raises a TypeError. */
  function WidthAbove127(v: Value): (r: Option<bool>)
    ensures v.Int? ==> r == Some(v.i > 127)
    ensures !v.Int? && !v.Bool? ==> r == None
  {
    match v
    case Int(i) => Some(i > 127)
    case Bool(_) => Some(false)
    case _ => None
  }

  /** The optional keys a descriptor gets when it leaves them out, with one warning each. */
  method AddDefaults(font: Descriptor, stem: string) returns (d: Descriptor, warnings: seq<DescriptorWarning>)
    ensures d.Keys == font.Keys + {"name", "ascii_offset", "monospace"}
    ensures forall k :: k in font ==> d[k] == font[k]
    ensures "name" !in font ==> d["name"] == Str(stem)
    ensures "ascii_offset" !in font ==> d["ascii_offset"] == Int(32)
    ensures "monospace" !in font ==> d["monospace"] == Bool(false)
    ensures warnings == (if "name" in font then [] else [NoName(stem)])
                      + (if "ascii_offset" in font then [] else [NoAsciiOffset])
                      + (if "monospace" in font then [] else [NoMonospace])
  {
    d, warnings := font, [];
    if "name" !in d {
      d := d["name" := Str(stem)];
      warnings := warnings + [NoName(stem)];
    }
    if "ascii_offset" !in d {
      d := d["ascii_offset" := Int(32)];
      warnings := warnings + [NoAsciiOffset];
    }
    if "monospace" !in d {
      d := d["monospace" := Bool(false)];
      warnings := warnings + [NoMonospace];
    }
  }

  /**
   * `parse_font_descriptor` after the JSON object `font` has been loaded from
   * the file whose directory is `fontDir` and whose name without extension is
   * `stem`; `isFile` answers `os.path.isfile`.
   */
  method ParseFontDescriptor(font: Descriptor, fontDir: string, stem: string, isFile: string -> bool)
    returns (r: Result<(Descriptor, seq<DescriptorWarning>), DescriptorError>)
    ensures MissingKeys(font) != [] ==> r == Err(MissingInfo(MissingKeys(font)))
    ensures MissingKeys(font) == [] && !font["glyphs"].Str? ==> r == Err(RaisedTypeError)
    ensures MissingKeys(font) == [] && font["glyphs"].Str? && !isFile(JoinPath(fontDir, font["glyphs"].s))
        ==> r == Err(GlyphsFileNotFound(JoinPath(fontDir, font["glyphs"].s)))
    ensures r.Err? && r.error.TooWide? <==>
        MissingKeys(font) == [] && font["glyphs"].Str? && isFile(JoinPath(fontDir, font["glyphs"].s))
        && WidthAbove127(font["width"]) == Some(true) && "witdh" in font
    ensures r.Err? && r.error.RaisedKeyError? ==> r.error.key == "witdh" && "witdh" !in font
    ensures r == Err(RaisedKeyError("witdh")) <==>
        MissingKeys(font) == [] && font["glyphs"].Str? && isFile(JoinPath(fontDir, font["glyphs"].s))
        && WidthAbove127(font["width"]) == Some(true) && "witdh" !in font
    ensures r == Err(RaisedTypeError) <==>
        MissingKeys(font) == [] && (!font["glyphs"].Str?
          || (isFile(JoinPath(fontDir, font["glyphs"].s)) && WidthAbove127(font["width"]) == None))
    ensures r.Err? && r.error.MissingInfo? <==> MissingKeys(font) != []
    ensures r.Err? && r.error.GlyphsFileNotFound? <==>
        MissingKeys(font) == [] && font["glyphs"].Str? && !isFile(JoinPath(fontDir, font["glyphs"].s))
    ensures r.Ok? <==>
        MissingKeys(font) == [] && font["glyphs"].Str? && isFile(JoinPath(fontDir, font["glyphs"].s))
        && WidthAbove127(font["width"]) == Some(false)
    ensures r.Ok? ==>
      var (d, warnings) := r.value;
      && d.Keys == font.Keys + {"glyphs_file", "name", "ascii_offset", "monospace"}
      && (forall k :: k in font && k != "glyphs_file" ==> d[k] == font[k])
      && d["glyphs_file"] == Str(JoinPath(fontDir, font["glyphs"].s))
      && ("name" !in font ==> d["name"] == Str(stem))
      && ("ascii_offset" !in font ==> d["ascii_offset"] == Int(32))
      && ("monospace" !in font ==> d["monospace"] == Bool(false))
      && warnings == (if "name" in font then [] else [NoName(stem)])
                   + (if "ascii_offset" in font then [] else [NoAsciiOffset])
                   + (if "monospace" in font then [] else [NoMonospace])
  {
    var missing := MissingKeys(font);
    if missing != [] {
      return Err(MissingInfo(missing));
    }
    var d := font;
    if !d["glyphs"].Str? {
      return Err(RaisedTypeError);
    }
    d := d["glyphs_file" := Str(JoinPath(fontDir, d["glyphs"].s))];
    if !isFile(d["glyphs_file"].s) {
      return Err(GlyphsFileNotFound(d["glyphs_file"].s));
    }
    var tooWide := WidthAbove127(d["width"]);
    if tooWide == None {
      return Err(RaisedTypeError);
    }
    if tooWide.value {
      // The error message formats `font['witdh']`.
      if "witdh" in d {
        return Err(TooWide);
      }
      return Err(RaisedKeyError("witdh"));
    }
    var warnings;
    d, warnings := AddDefaults(d, stem);
    return Ok((d, warnings));
  }

  // ---------------------------------------------------------------------------
  // The glyph-name map

  /** The value stored for slot `i`: `chr(i + offset)` when printable, else the integer. */
  function NameToken(i: nat, asciiOffset: nat): (t: Token)
    ensures Ord(t) == i + asciiOffset
    ensures t.Char? <==> 31 < i + asciiOffset < 127
  {
    var code := i + asciiOffset;
    if 31 < code < 127 then Char(code as char) else Code(code)
  }

  /** `font_map` after the slots of `charmap`: `None` slots are skipped, later slots overwrite. */
  function FontMapOf(charmap: seq<Option<string>>, asciiOffset: nat): map<string, Token>
  {
    if charmap == [] then map[]
    else
      var m := FontMapOf(charmap[..|charmap| - 1], asciiOffset);
      match charmap[|charmap| - 1]
      case None => m
      case Some(name) => m[name := NameToken(|charmap| - 1, asciiOffset)]
  }

  /** Slot `i` holds `name` and no later slot does. */
  predicate LastSlot(charmap: seq<Option<string>>, name: string, i: int)
  {
    0 <= i < |charmap| && charmap[i] == Some(name)
    && forall j :: i < j < |charmap| ==> charmap[j] != Some(name)
  }

  /**
   * A name is mapped exactly when some slot holds it, and it maps to the code
   * of the last slot holding it, so looking the code up addresses that slot.
   */
  lemma {:induction false} FontMapLookup(charmap: seq<Option<string>>, asciiOffset: nat, name: string)
    ensures name in FontMapOf(charmap, asciiOffset) <==> Some(name) in charmap
    ensures name in FontMapOf(charmap, asciiOffset) ==>
      exists i :: LastSlot(charmap, name, i) && FontMapOf(charmap, asciiOffset)[name] == NameToken(i, asciiOffset)
  {
    if charmap != [] {
      var n := |charmap|;
      var init := charmap[..n - 1];
      assert charmap == init + [charmap[n - 1]];
      FontMapLookup(init, asciiOffset, name);
      if charmap[n - 1] == Some(name) {
        assert LastSlot(charmap, name, n - 1);
      } else if name in FontMapOf(charmap, asciiOffset) {
        var i :| LastSlot(init, name, i) && FontMapOf(init, asciiOffset)[name] == NameToken(i, asciiOffset);
        assert LastSlot(charmap, name, i);
      }
    }
  }

  /** One more slot: a named slot adds or overwrites its name, a `None` slot changes nothing. */
  lemma FontMapSucc(charmap: seq<Option<string>>, asciiOffset: nat, i: nat)
    requires i < |charmap|
    ensures FontMapOf(charmap[..i + 1], asciiOffset)
         == match charmap[i]
            case None => FontMapOf(charmap[..i], asciiOffset)
            case Some(name) => FontMapOf(charmap[..i], asciiOffset)[name := NameToken(i, asciiOffset)]
  {
    assert charmap[..i + 1][..i] == charmap[..i];
  }

  lemma ConcatAssoc<T>(a: seq<T>, b: seq<T>, c: seq<T>)
    ensures (a + b) + c == a + (b + c)
  {
  }

  // ---------------------------------------------------------------------------
  // The conversion

  /** How the script stops: the two ZeroDivisionErrors, the alignment error and the ValueError of `bytes`. */
  datatype ConvertError = ZeroCellWidth | Misaligned | HeaderByteRange | NoGlyphsPerRow

  /** `8 * math.ceil(w / 8)` for any integer width: Python rounds a negative quotient up, towards zero. */
  function GlyphWidth(w: int): (g: int)
    ensures w >= 0 ==> g == Cell(w)
    ensures g == 0 <==> -8 < w <= 0
    ensures w < 0 ==> g <= 0
  {
    if w >= 0 then Cell(w) else -8 * ((-w) / 8)
  }

  /** Python's `a // b`: the quotient rounded down, so the remainder has the sign of `b`. */
  function FloorDiv(a: int, b: int): (q: int)
    requires b != 0
    ensures b > 0 ==> q * b <= a < q * b + b
    ensures b < 0 ==> q * b + b < a <= q * b
  {
    if b > 0 then a / b else (-a) / (-b)
  }

  /** The alignment test `glyphs_per_row * glyph_width != width` fails exactly when `g` does not divide the width. */
  lemma FloorAligned(s: nat, g: int)
    requires g != 0
    ensures FloorDiv(s, g) * g == s <==> s % g == 0
    ensures g > 0 ==> FloorDiv(s, g) == s / g
  {
    if g > 0 {
      WholeCells(s, g);
    } else {
      FloorAlignedNeg(s, -g);
    }
  }

  /** The same for a negative glyph width `-m`. */
  lemma FloorAlignedNeg(s: nat, m: int)
    requires m > 0
    ensures FloorDiv(s, -m) * -m == s <==> s % m == 0
    ensures s % -m == s % m
  {
    var n: int := -(s as int);
    var q, r := n / m, n % m;
    assert n == q * m + r && 0 <= r < m;
    assert FloorDiv(s, -m) == q;
    assert q * -m == s + r;
    if r == 0 {
      assert s == (-q) * m;
      DivUnique(s, m, -q);
    }
    if s % m == 0 {
      var k := s / m;
      assert s == k * m;
      assert n == (-k) * m;
      DivUnique(n, m, -k);
    }
  }

  /** The Euclidean quotient and remainder are the only pair with a remainder in range. */
  lemma DivRem(a: int, b: int, k: int, r: int)
    requires b > 0 && a == k * b + r && 0 <= r < b
    ensures a / b == k && a % b == r
  {
    var q, r' := a / b, a % b;
    assert a == q * b + r' && 0 <= r' < b;
    assert (k - q) * b == r' - r;
    if k - q > 0 {
      MulMono(1, k - q, b);
    } else if q - k > 0 {
      MulMono(1, q - k, b);
    }
  }

  /** A remainder of 0 pins the Euclidean quotient. */
  lemma DivUnique(a: int, b: int, k: int)
    requires b > 0 && a == k * b
    ensures a / b == k && a % b == 0
  {
    DivRem(a, b, k, 0);
  }

  /**
   * The BMF file and glyph-name map the script writes, or why it stops,
   * for the descriptor's fields as Python integers: `parse_font_descriptor`
   * passes any width up to 127, negative ones included, and checks neither
   * the height nor the ASCII offset.
   */
  function Convert(width: int, height: int, asciiOffset: int, monospace: bool,
                   charmap: seq<Option<string>>, sheet: seq<seq<int>>, sheetWidth: nat)
    : (r: Result<(seq<byte>, map<string, Token>), ConvertError>)
    requires width <= 127
    ensures r == Err(ZeroCellWidth) <==> -8 < width <= 0
    ensures r == Err(Misaligned) <==> !(-8 < width <= 0) && sheetWidth % GlyphWidth(width) != 0
    ensures r == Err(HeaderByteRange) <==>
      && !(-8 < width <= 0) && sheetWidth % GlyphWidth(width) == 0
      && !(0 <= width && 0 <= height < 256 && 0 <= asciiOffset < 256)
    ensures r == Err(NoGlyphsPerRow) <==>
      && 0 < width && sheetWidth % Cell(width) == 0 && 0 <= height < 256 && 0 <= asciiOffset < 256
      && charmap != [] && sheetWidth < Cell(width)
    ensures r.Ok? <==>
      && width > 0 && sheetWidth % Cell(width) == 0 && 0 <= height < 256 && 0 <= asciiOffset < 256
      && (charmap == [] || sheetWidth >= Cell(width))
  {
    var cell := GlyphWidth(width);
    if cell == 0 then Err(ZeroCellWidth)
    else
      var perRow := FloorDiv(sheetWidth, cell);
      FloorAligned(sheetWidth, cell);
      if perRow * cell != sheetWidth then Err(Misaligned)
      // `bytes` refuses a negative value, and `width | 0x80` of a negative width is negative.
      else if width < 0 || height < 0 || asciiOffset < 0 then Err(HeaderByteRange)
      else
        WholeCells(sheetWidth, cell);
        var header := EncodeHeader(width, height, asciiOffset, monospace);
        if header.Err? then Err(HeaderByteRange)
        else if perRow == 0 && |charmap| > 0 then Err(NoGlyphsPerRow)
        else Ok((header.value + StoreOf(sheet, width, height, perRow, |charmap|), FontMapOf(charmap, asciiOffset)))
  }

  /** One round of the name-map update: a named slot maps its name to its code. */
  method MapSlot(fontMap: map<string, Token>, charmap: seq<Option<string>>, asciiOffset: nat, glyphIndex: nat)
    returns (m: map<string, Token>)
    requires glyphIndex < |charmap| && fontMap == FontMapOf(charmap[..glyphIndex], asciiOffset)
    ensures m == FontMapOf(charmap[..glyphIndex + 1], asciiOffset)
  {
    FontMapSucc(charmap, asciiOffset, glyphIndex);
    m := fontMap;
    match charmap[glyphIndex] {
      case None =>
      case Some(glyphName) =>
        var asciiIndex := glyphIndex + asciiOffset;
        if asciiIndex > 31 && asciiIndex < 127 {
          m := m[glyphName := Char(asciiIndex as char)];
        } else {
          m := m[glyphName := Code(asciiIndex)];
        }
    }
  }

  /** The bytes of slot `i`: its corner, the numpy cut and `glyph2bytes`. */
  method SlotBytes(sheet: seq<seq<int>>, width: nat, height: nat, glyphsPerRow: nat, glyphIndex: nat)
    returns (glyphBytes: seq<byte>)
    requires glyphsPerRow > 0
    ensures glyphBytes == PackGlyph(SlotImage(sheet, width, height, glyphsPerRow, glyphIndex))
  {
    var x := SlotX(glyphIndex, 8 * WidthBytes(width), glyphsPerRow);
    var y := SlotY(glyphIndex, height, glyphsPerRow);
    var glyphImg := Cut(sheet, y, height, x, width);
    glyphBytes := Glyph2Bytes(glyphImg);
  }

  /**
   * The `__main__` conversion from the glyph-sheet width onwards, with the
   * descriptor fields already read out as integers; the two output files are
   * returned instead of written.
   */
  method ConvertFont(width: int, height: int, asciiOffset: int, monospace: bool,
                     charmap: seq<Option<string>>, sheet: seq<seq<int>>, sheetWidth: nat)
    returns (r: Result<(seq<byte>, map<string, Token>), ConvertError>)
    requires width <= 127
    ensures r == Convert(width, height, asciiOffset, monospace, charmap, sheet, sheetWidth)
  {
    var glyphWidth := GlyphWidth(width);
    if glyphWidth == 0 {
      return Err(ZeroCellWidth);
    }
    var glyphsPerRow := FloorDiv(sheetWidth, glyphWidth);
    FloorAligned(sheetWidth, glyphWidth);
    if glyphsPerRow * glyphWidth != sheetWidth {
      return Err(Misaligned);
    }
    if width < 0 || height < 0 || asciiOffset < 0 {
      return Err(HeaderByteRange);
    }
    var header := EncodeHeader(width, height, asciiOffset, monospace);
    if header.Err? {
      return Err(HeaderByteRange);
    }
    var fontMap: map<string, Token> := map[];
    var file := header.value;
    var glyphIndex := 0;
    while glyphIndex < |charmap|
      invariant 0 <= glyphIndex <= |charmap|
      invariant glyphsPerRow > 0 || glyphIndex == 0
      invariant fontMap == FontMapOf(charmap[..glyphIndex], asciiOffset)
      invariant file == header.value + StoreOf(sheet, width, height, glyphsPerRow, glyphIndex)
    {
      fontMap := MapSlot(fontMap, charmap, asciiOffset, glyphIndex);
      if glyphsPerRow == 0 {
        return Err(NoGlyphsPerRow);
      }
      var glyphBytes := SlotBytes(sheet, width, height, glyphsPerRow, glyphIndex);
      StoreSucc(sheet, width, height, glyphsPerRow, glyphIndex);
      ConcatAssoc(header.value, StoreOf(sheet, width, height, glyphsPerRow, glyphIndex), glyphBytes);
      file := file + glyphBytes;
      glyphIndex := glyphIndex + 1;
    }
    assert charmap[..glyphIndex] == charmap;
    return Ok((file, fontMap));
  }

  /** The previewer decodes the written file into the font with the written header and store. */
  lemma ConvertThenDecode(width: nat, height: nat, asciiOffset: nat, monospace: bool,
                          charmap: seq<Option<string>>, sheet: seq<seq<int>>, sheetWidth: nat)
    requires width <= 127
    requires Convert(width, height, asciiOffset, monospace, charmap, sheet, sheetWidth).Ok?
    ensures DecodeBmf(Convert(width, height, asciiOffset, monospace, charmap, sheet, sheetWidth).value.0)
         == Ok(Font(monospace, width, height, asciiOffset,
                    StoreOf(sheet, width, height, sheetWidth / Cell(width), |charmap|)))
  {
    HeaderRoundTrip(width, height, asciiOffset, monospace, StoreOf(sheet, width, height, sheetWidth / Cell(width), |charmap|));
  }
}
