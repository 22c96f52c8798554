/**
 * The firmware's `g_draw_string` (graphics.c): the same cursor machine as the
 * previewer's `draw_string`, with 16-bit `g_coord_t` cursor arithmetic, a
 * NUL-terminated byte string, an undrawn advance for the space byte, a
 * centring rule written with C's truncating division, and no drawing of
 * zero-width glyphs. The `g_draw_char` calls are collected as placements.
 */
module CRender {
  import opened Wrappers
  import opened Bits
  import opened BitmapFont
  import InkWidth
  import opened Tokens
  import PyRender

  type Placement = PyRender.Placement

  const Escape := 0x1B
  const Newline := 10
  const Space := 32

  /** `g_draw_string` returns `ESP_ERR_INVALID_ARG` for a NULL string. */
  datatype DrawError = InvalidArg

  /** The cursor variables: `cx`, `cy` (`g_coord_t`), `last_char_width` (`uint8_t`), `combining_mode`. */
  datatype Cursor = Cursor(cx: int, cy: int, last: nat, combining: bool)

  const Start: Cursor := Cursor(0, 0, 0, false)

  /** The cursor and the `g_draw_char` calls made so far, as (byte, x, y). */
  datatype Layout = Layout(cursor: Cursor, draws: seq<Placement>)

  /** The bytes `g_draw_string` reads: up to the first NUL, or the whole sequence when it has none. */
  function CStr(s: seq<byte>): (t: seq<byte>)
    ensures |t| <= |s| && t == s[..|t|]
    ensures forall j :: 0 <= j < |t| ==> t[j] != 0
    ensures |t| == |s| || s[|t|] == 0
  {
    if s == [] || s[0] == 0 then []
    else [s[0]] + CStr(s[1..])
  }

  /** `char_gap`: no gap between the cells of a monospace font, one column otherwise. */
  function CharGap(f: Font): nat
  {
    if f.monospace then 0 else 1
  }

  /** `empty_gap`: the advance of a space and of a zero-width glyph, `width / 4`. */
  function EmptyGap(f: Font): nat
  {
    f.width / 4
  }

  /** Bytes that reach the `default` branch past the `ascii_offset` test. */
  predicate Glyph(f: Font, c: int)
  {
    c != Escape && c != Newline && c != Space && c >= f.asciiOffset
  }

  /** `_glyph_width` can read the bytes of every glyph byte it is called on (proportional fonts only). */
  predicate Measurable(f: Font, t: seq<byte>)
    requires ByteFields(f)
  {
    forall j :: 0 <= j < |t| && Glyph(f, t[j] as int) && !f.monospace ==> InkWidth.CReadable(f, t[j] as int)
  }

  /** `char_width`: the cell width of a monospace font, otherwise `_glyph_width(c)`. */
  function CharWidth(f: Font, c: int): (w: nat)
    requires ByteFields(f) && (f.monospace || InkWidth.CReadable(f, c))
    ensures w < 256
  {
    if f.monospace then f.width else InkWidth.CGlyphWidth(f, c)
  }

  /** One pass of the loop body for byte `c` whose `char_width` would be `w`, drawing relative to (x, y). */
  function Step(f: Font, x: int, y: int, l: Layout, c: int, w: nat): Layout
  {
    var k := l.cursor;
    if c == Escape then Layout(Cursor(Int16(k.cx - (k.last + CharGap(f))), k.cy, k.last, true), l.draws)
    else if c == Newline then Layout(Cursor(0, Int16(k.cy + f.height + 1), 0, k.combining), l.draws)
    else if c == Space then
      Layout(Cursor(Int16(k.cx + EmptyGap(f) + CharGap(f)), k.cy, EmptyGap(f), false), l.draws)
    else if c < f.asciiOffset then l
    else GlyphStep(f, x, y, l, c, w)
  }

  /** The `default` branch for a byte at or past `ascii_offset`. */
  function GlyphStep(f: Font, x: int, y: int, l: Layout, c: int, w: nat): Layout
  {
    var k := l.cursor;
    var last := GlyphLast(f, k, w);
    var draws := if w > 0 then l.draws + [PyRender.Placement(c, Int16(x + GlyphX(f, k, w)), Int16(y + k.cy))] else l.draws;
    Layout(Cursor(Int16(k.cx + last + CharGap(f)), k.cy, last, false), draws)
  }

  /** `_cx`: a mark in a proportional font is centred on the previous glyph, `(last - w + 1) / 2` in C. */
  function GlyphX(f: Font, k: Cursor, w: nat): int
  {
    if k.combining && !f.monospace then Int16(k.cx + CDiv(k.last - w + 1, 2)) else k.cx
  }

  /** `last_char_width` after the glyph: kept for a mark, otherwise `w`, with `empty_gap` for a blank glyph. */
  function GlyphLast(f: Font, k: Cursor, w: nat): nat
  {
    if k.combining && !f.monospace then k.last else if w == 0 then EmptyGap(f) else w
  }

  /** The width the loop computes for byte `c`; bytes outside the `default` drawing path do not need one. */
  function WidthOf(f: Font, c: int): nat
    requires ByteFields(f) && (Glyph(f, c) && !f.monospace ==> InkWidth.CReadable(f, c))
  {
    if Glyph(f, c) then CharWidth(f, c) else 0
  }

  /** The reference layout: the loop body applied to each byte in order. */
  function Run(f: Font, x: int, y: int, t: seq<byte>): Layout
    requires ByteFields(f) && Measurable(f, t)
  {
    if t == [] then Layout(Start, [])
    else
      var c := t[|t| - 1] as int;
      Step(f, x, y, Run(f, x, y, t[..|t| - 1]), c, WidthOf(f, c))
  }

  /** One more byte extends the reference layout by one step. */
  lemma RunSnoc(f: Font, x: int, y: int, t: seq<byte>, i: nat)
    requires ByteFields(f) && i < |t| && Measurable(f, t)
    ensures Measurable(f, t[..i]) && Measurable(f, t[..i + 1])
    ensures Run(f, x, y, t[..i + 1]) == Step(f, x, y, Run(f, x, y, t[..i]), t[i] as int, WidthOf(f, t[i] as int))
  {
    assert t[..i + 1][..i] == t[..i];
  }

  /**
   * The `default` case for a byte at or past `ascii_offset`: measure it, draw
   * it unless it is blank (centred on the previous glyph in combining mode)
   * and advance the cursor.
   */
  method DrawGlyph(f: Font, x: int, y: int, c: int, cx: int, cy: int, last: nat, combining: bool, draws: seq<Placement>)
    returns (cx': int, last': nat, draws': seq<Placement>)
    requires ByteFields(f) && (f.monospace || InkWidth.CReadable(f, c))
    ensures Layout(Cursor(cx', cy, last', false), draws')
         == GlyphStep(f, x, y, Layout(Cursor(cx, cy, last, combining), draws), c, CharWidth(f, c))
  {
    var charWidth;
    if f.monospace {
      charWidth := f.width;
    } else {
      charWidth := InkWidth.GlyphWidthC(f, c);
    }
    cx', last', draws' := PlaceGlyph(f, x, y, c, charWidth, cx, cy, last, combining, draws);
  }

  /** The rest of the `default` case once `char_width` is `charWidth`. */
  method PlaceGlyph(f: Font, x: int, y: int, c: int, charWidth: nat, cx: int, cy: int, last: nat, combining: bool, draws: seq<Placement>)
    returns (cx': int, last': nat, draws': seq<Placement>)
    ensures Layout(Cursor(cx', cy, last', false), draws')
         == GlyphStep(f, x, y, Layout(Cursor(cx, cy, last, combining), draws), c, charWidth)
  {
    var x' := cx;
    last' := last;
    if combining && !f.monospace {
      x' := Int16(x' + CDiv(last' - charWidth + 1, 2));
    } else {
      last' := charWidth;
      if last' == 0 {
        last' := EmptyGap(f);
      }
    }
    draws' := draws;
    if charWidth > 0 {
      draws' := draws' + [PyRender.Placement(c, Int16(x + x'), Int16(y + cy))];
    }
    cx' := Int16(cx + last' + CharGap(f));
  }

  /** The `switch` on one byte of the string: the cursor variables after it and the draws so far. */
  method DrawByte(f: Font, x: int, y: int, c: int, cx: int, cy: int, last: nat, combining: bool, draws: seq<Placement>)
    returns (cx': int, cy': int, last': nat, combining': bool, draws': seq<Placement>)
    requires ByteFields(f) && (Glyph(f, c) && !f.monospace ==> InkWidth.CReadable(f, c))
    ensures Layout(Cursor(cx', cy', last', combining'), draws')
         == Step(f, x, y, Layout(Cursor(cx, cy, last, combining), draws), c, WidthOf(f, c))
  {
    var charGap := if f.monospace then 0 else 1;
    var emptyGap := f.width / 4;
    cx', cy', last', combining', draws' := cx, cy, last, combining, draws;
    if c == Escape {
      cx' := Int16(cx' - (last' + charGap));
      combining' := true;
    } else if c == Newline {
      last' := 0;
      cx' := 0;
      cy' := Int16(cy' + f.height + 1);
    } else if c == Space {
      combining' := false;
      last' := emptyGap;
      cx' := Int16(cx' + last' + charGap);
    } else if c < f.asciiOffset {
    } else {
      cx', last', draws' := DrawGlyph(f, x, y, c, cx', cy', last', combining', draws');
      combining' := false;
    }
  }

  /** `g_draw_string(x, y, string, color)`: the `g_draw_char` calls it makes, in order. */
  method GDrawString(x: int, y: int, str: Option<seq<byte>>, f: Font) returns (r: Result<Layout, DrawError>)
    requires ByteFields(f)
    requires str.Some? ==> Measurable(f, CStr(str.value))
    ensures str.None? ==> r == Err(InvalidArg)
    ensures str.Some? ==> r == Ok(Run(f, x, y, CStr(str.value)))
  {
    if str.None? {
      return Err(InvalidArg);
    }
    var s := str.value;
    ghost var t := CStr(s);
    var lastCharWidth: nat := 0;
    var combiningMode := false;
    var cx, cy := 0, 0;
    var draws: seq<Placement> := [];
    ghost var lay := Layout(Start, []);
    var i := 0;
    while i < |s| && s[i] != 0
      invariant i <= |t|
      invariant Run(f, x, y, t[..i]) == lay
      invariant lay == Layout(Cursor(cx, cy, lastCharWidth, combiningMode), draws)
      decreases |s| - i
    {
      assert t[i] == s[i];
      RunSnoc(f, x, y, t, i);
      cx, cy, lastCharWidth, combiningMode, draws := DrawByte(f, x, y, s[i] as int, cx, cy, lastCharWidth, combiningMode, draws);
      lay := Step(f, x, y, lay, s[i] as int, WidthOf(f, s[i] as int));
      i := i + 1;
    }
    assert i == |t|;
    assert t[..i] == t;
    r := Ok(Layout(Cursor(cx, cy, lastCharWidth, combiningMode), draws));
  }

  // ----- properties of the layout -----

  /** Every step keeps the cursor in `g_coord_t` range and `last_char_width` a `uint8_t`, and only appends draws. */
  lemma StepBounds(f: Font, x: int, y: int, l: Layout, c: int, w: nat)
    requires ByteFields(f) && w < 256 && l.cursor.last < 256
    requires -0x8000 <= l.cursor.cx < 0x8000 && -0x8000 <= l.cursor.cy < 0x8000
    ensures var l' := Step(f, x, y, l, c, w);
      && -0x8000 <= l'.cursor.cx < 0x8000 && -0x8000 <= l'.cursor.cy < 0x8000 && l'.cursor.last < 256
      && l'.cursor.cy == (if c == Newline then Int16(l.cursor.cy + f.height + 1) else l.cursor.cy)
      && |l.draws| <= |l'.draws| <= |l.draws| + 1 && l'.draws[..|l.draws|] == l.draws
      && (|l'.draws| > |l.draws| <==> Glyph(f, c) && w > 0)
      && (|l'.draws| > |l.draws| ==> l'.draws[|l.draws|].c == c && l'.draws[|l.draws|].y == Int16(y + l.cursor.cy))
  {
  }

  /** A newline moves a cursor on row `n` of `height + 1`-pixel lines to row `n + 1`, modulo 2^16. */
  lemma NextRow(cy: int, h: nat, n: nat)
    requires cy == Int16((h + 1) * n)
    ensures Int16(cy + h + 1) == Int16((h + 1) * (n + 1))
  {
    Int16Add((h + 1) * n, h + 1);
    MulSucc(h + 1, n);
  }

  /** The bytes `g_draw_char` is called with: glyph bytes whose `char_width` is not zero, in string order. */
  function DrawnBytes(f: Font, t: seq<byte>): seq<int>
    requires ByteFields(f) && Measurable(f, t)
  {
    if t == [] then []
    else
      var c := t[|t| - 1] as int;
      DrawnBytes(f, t[..|t| - 1]) + if Glyph(f, c) && WidthOf(f, c) > 0 then [c] else []
  }

  /** Number of newline bytes. */
  function NewlineCount(t: seq<byte>): nat
  {
    if t == [] then 0 else NewlineCount(t[..|t| - 1]) + if t[|t| - 1] as int == Newline then 1 else 0
  }

  /**
   * Over a whole string: the cursor stays in range, `cy` is `height + 1` per
   * newline (modulo 2^16), and exactly the drawn bytes are drawn, in order.
   * Spaces, 0x1B, newlines, bytes below `ascii_offset` and blank glyphs draw nothing.
   */
  lemma {:induction false} RunInvariant(f: Font, x: int, y: int, t: seq<byte>)
    requires ByteFields(f) && Measurable(f, t)
    ensures var l := Run(f, x, y, t);
      && -0x8000 <= l.cursor.cx < 0x8000 && -0x8000 <= l.cursor.cy < 0x8000 && l.cursor.last < 256
      && l.cursor.cy == Int16((f.height + 1) * NewlineCount(t))
      && |l.draws| == |DrawnBytes(f, t)|
      && forall j :: 0 <= j < |l.draws| ==> l.draws[j].c == DrawnBytes(f, t)[j]
  {
    if t != [] {
      var t0 := t[..|t| - 1];
      assert Measurable(f, t0) by {
        forall j | 0 <= j < |t0| ensures t0[j] == t[j] { }
      }
      RunInvariant(f, x, y, t0);
      var l := Run(f, x, y, t0);
      var c := t[|t| - 1] as int;
      var w := WidthOf(f, c);
      StepBounds(f, x, y, l, c, w);
      var l' := Step(f, x, y, l, c, w);
      if c == Newline {
        NextRow(l.cursor.cy, f.height, NewlineCount(t0));
      }
      var d, d' := DrawnBytes(f, t0), DrawnBytes(f, t);
      forall j | 0 <= j < |l'.draws|
        ensures l'.draws[j].c == d'[j]
      {
        if j < |l.draws| {
          assert l'.draws[j] == l'.draws[..|l.draws|][j];
        }
      }
    }
  }

  /**
   * A base glyph, 0x1B and a mark in a proportional font: the mark is drawn
   * `(last - w + 1) / 2` (truncating) to the right of the base, unless it is
   * blank, and the pair leaves the cursor where the base alone leaves it.
   */
  lemma CombinedPair(f: Font, x: int, y: int, l: Layout, base: int, wBase: nat, mark: int, wMark: nat)
    requires ByteFields(f) && !f.monospace && !l.cursor.combining && -0x8000 <= l.cursor.cx < 0x8000
    requires Glyph(f, base) && Glyph(f, mark)
    ensures var l1 := Step(f, x, y, l, base, wBase);
      var l3 := Step(f, x, y, Step(f, x, y, l1, Escape, 0), mark, wMark);
      var last := if wBase == 0 then EmptyGap(f) else wBase;
      && l3.cursor == l1.cursor
      && l3.draws == l1.draws
           + if wMark > 0 then [PyRender.Placement(mark, Int16(x + Int16(l.cursor.cx + CDiv(last - wMark + 1, 2))), Int16(y + l.cursor.cy))]
             else []
  {
    var k, last := l.cursor, if wBase == 0 then EmptyGap(f) else wBase;
    var l1 := Step(f, x, y, l, base, wBase);
    assert l1.cursor == Cursor(Int16(k.cx + last + 1), k.cy, last, false);
    var l2 := Step(f, x, y, l1, Escape, 0);
    Int16Add(k.cx + last + 1, -(last + 1));
    assert l2 == Layout(Cursor(k.cx, k.cy, last, true), l1.draws);
    MarkStep(f, x, y, l2, mark, wMark);
  }

  /** In combining mode a proportional font centres the glyph and keeps `last_char_width`. */
  lemma MarkStep(f: Font, x: int, y: int, l: Layout, c: int, w: nat)
    requires !f.monospace && l.cursor.combining && Glyph(f, c)
    ensures var k := l.cursor;
      Step(f, x, y, l, c, w)
      == Layout(Cursor(Int16(k.cx + k.last + 1), k.cy, k.last, false),
                l.draws + if w > 0 then [PyRender.Placement(c, Int16(x + Int16(k.cx + CDiv(k.last - w + 1, 2))), Int16(y + k.cy))] else [])
  {
    if w == 0 {
      assert l.draws + [] == l.draws;
    }
  }

  /** The bytes of a C string as the previewer's integer tokens. */
  function Codes(t: seq<byte>): (ts: seq<Token>)
    ensures |ts| == |t| && forall j :: 0 <= j < |t| ==> ts[j] == Code(t[j] as int)
  {
    seq(|t|, j requires 0 <= j < |t| => Code(t[j] as int))
  }

  /** A previewer placement with its coordinates wrapped to `g_coord_t`. */
  function WrapPlacement(p: PyRender.Placement): Placement
  {
    PyRender.Placement(p.c, Int16(p.x), Int16(p.y))
  }

  /** A previewer layout with the cursor and the placements wrapped to `g_coord_t`. */
  function Wrap(l: PyRender.Layout): Layout
    requires l.cursor.last >= 0
  {
    var k := l.cursor;
    Layout(Cursor(Int16(k.cx), Int16(k.cy), k.last, k.combining),
           seq(|l.draws|, j requires 0 <= j < |l.draws| => WrapPlacement(l.draws[j])))
  }

  /** One monospace step on wrapped coordinates is the wrapped previewer step. */
  lemma WrapStep(f: Font, p: PyRender.Layout, c: int)
    requires ByteFields(f) && f.monospace && f.width > 0 && c != Space
    requires p.cursor.last >= 0 && PyRender.Then(f, p, c, f.width).Ok?
    ensures PyRender.Step(f, p, c, f.width).cursor.last >= 0
    ensures Step(f, 0, 0, Wrap(p), c, WidthOf(f, c)) == Wrap(PyRender.Step(f, p, c, f.width))
  {
    var k := p.cursor;
    var p' := PyRender.Step(f, p, c, f.width);
    if c == Escape {
      Int16Add(k.cx, -k.last);
    } else if c == Newline {
      Int16Add(k.cy, f.height + 1);
    } else if c >= f.asciiOffset {
      Int16Add(k.cx, f.width);
      assert p'.draws == p.draws + [PyRender.Placement(c, k.cx, k.cy)];
      assert Wrap(p').draws == Wrap(p).draws + [WrapPlacement(PyRender.Placement(c, k.cx, k.cy))];
    }
  }

  /**
   * For a monospace font with a nonzero width and a string without spaces,
   * the firmware at (0, 0) makes the previewer's placements, modulo 16-bit
   * wrap-around, whenever the previewer draws the string without raising.
   */
  lemma {:induction false} MonospaceAgrees(f: Font, t: seq<byte>)
    requires ByteFields(f) && f.monospace && f.width > 0
    requires forall j :: 0 <= j < |t| ==> t[j] as int != Space
    requires PyRender.Run(f, Codes(t)).Ok?
    ensures Measurable(f, t)
    ensures PyRender.Run(f, Codes(t)).value.cursor.last >= 0
    ensures Run(f, 0, 0, t) == Wrap(PyRender.Run(f, Codes(t)).value)
  {
    if t != [] {
      var t0 := t[..|t| - 1];
      var ts := Codes(t);
      assert ts[..|ts| - 1] == Codes(t0);
      var c := t[|t| - 1] as int;
      assert PyRender.Run(f, Codes(t0)).Ok?;
      MonospaceAgrees(f, t0);
      var p := PyRender.Run(f, Codes(t0)).value;
      assert PyRender.Run(f, ts) == PyRender.Then(f, p, c, f.width);
      WrapStep(f, p, c);
      assert Run(f, 0, 0, t) == Step(f, 0, 0, Run(f, 0, 0, t0), c, WidthOf(f, c));
    }
  }
}
