/**
 * The previewer's renderer (parse_string.py): `draw_char` stamps a glyph into
 * a numpy image, and `draw_string` walks a preprocessed string with a cursor
 * (`cx`, `cy`, `last_char_width`, `combining_mode`), placing each drawable
 * glyph. The layout is described by a step function on the cursor; the image
 * of the whole string is the stamps of its placements.
 */
module PyRender {
  import opened Wrappers
  import opened Bits
  import opened Tokens
  import opened GlyphPack
  import opened BitmapFont
  import InkWidth

  // ----- draw_char -----

  /** numpy accepts index `i` on an axis of length `n` when `-n <= i < n`. */
  predicate InAxis(i: int, n: int)
  {
    -n <= i < n
  }

  /** The element a numpy index denotes: negative indices count from the end. */
  function AxisIndex(i: int, n: int): (r: int)
    requires InAxis(i, n)
    ensures 0 <= r < n
    ensures i >= 0 ==> r == i
  {
    if i < 0 then i + n else i
  }

  /** One `draw_char` call: the glyph slice, its row stride and width, the position and the image size. */
  datatype Stamp = Stamp(glyph: seq<byte>, wb: nat, w: nat, x: int, y: int, rows: int, cols: int)

  /**
   * Cell (v, u) raises IndexError: its byte lies past the glyph slice, or its
   * bit is set and the target pixel is outside the image.
   */
  predicate CellRaises(s: Stamp, v: nat, u: nat)
  {
    s.wb * v + u / 8 >= |s.glyph|
    || (GlyphBit(s.glyph, s.wb, v, u) && !(InAxis(s.y + v, s.rows) && InAxis(s.x + u, s.cols)))
  }

  /** No cell of an `h`-row stamp raises. */
  predicate StampFits(s: Stamp, h: nat)
  {
    forall v, u :: 0 <= v < h && 0 <= u < s.w ==> !CellRaises(s, v, u)
  }

  /** Pixel (r, col) of the image is set by one of the first `u` cells of row `v`. */
  ghost predicate RowPainted(s: Stamp, v: nat, u: nat, r: int, col: int)
  {
    exists u': nat ::
      u' < u && PixelSet(s.glyph, s.wb, v, u')
      && InAxis(s.y + v, s.rows) && InAxis(s.x + u', s.cols)
      && AxisIndex(s.y + v, s.rows) == r && AxisIndex(s.x + u', s.cols) == col
  }

  /** Pixel (r, col) of the image is set by a cell of one of the first `n` rows. */
  ghost predicate Painted(s: Stamp, n: nat, r: int, col: int)
  {
    exists v': nat :: v' < n && RowPainted(s, v', s.w, r, col)
  }

  lemma RowPaintedStep(s: Stamp, v: nat, u: nat)
    ensures forall r, col :: RowPainted(s, v, u + 1, r, col) <==>
      RowPainted(s, v, u, r, col)
      || (PixelSet(s.glyph, s.wb, v, u) && InAxis(s.y + v, s.rows) && InAxis(s.x + u, s.cols)
          && AxisIndex(s.y + v, s.rows) == r && AxisIndex(s.x + u, s.cols) == col)
  {
    forall r, col | RowPainted(s, v, u + 1, r, col)
      ensures RowPainted(s, v, u, r, col)
      || (PixelSet(s.glyph, s.wb, v, u) && InAxis(s.y + v, s.rows) && InAxis(s.x + u, s.cols)
          && AxisIndex(s.y + v, s.rows) == r && AxisIndex(s.x + u, s.cols) == col)
    {
      var u': nat :| u' < u + 1 && PixelSet(s.glyph, s.wb, v, u')
        && InAxis(s.y + v, s.rows) && InAxis(s.x + u', s.cols)
        && AxisIndex(s.y + v, s.rows) == r && AxisIndex(s.x + u', s.cols) == col;
      if u' < u {
        assert RowPainted(s, v, u, r, col);
      }
    }
  }

  lemma PaintedStep(s: Stamp, n: nat)
    ensures forall r, col :: Painted(s, n + 1, r, col) <==> Painted(s, n, r, col) || RowPainted(s, n, s.w, r, col)
  {
    forall r, col | Painted(s, n + 1, r, col) && !RowPainted(s, n, s.w, r, col)
      ensures Painted(s, n, r, col)
    {
      var v': nat :| v' < n + 1 && RowPainted(s, v', s.w, r, col);
      assert v' < n;
    }
  }

  /** The inner loop of `draw_char`: row `v` of the stamp. */
  method StampRow(img: array2<int>, s: Stamp, v: nat) returns (ok: bool)
    requires s.rows == img.Length0 && s.cols == img.Length1
    modifies img
    ensures ok <==> forall u :: 0 <= u < s.w ==> !CellRaises(s, v, u)
    ensures ok ==> forall r, col :: 0 <= r < img.Length0 && 0 <= col < img.Length1 ==>
      img[r, col] == if RowPainted(s, v, s.w, r, col) then 255 else old(img[r, col])
    ensures forall r, col :: 0 <= r < img.Length0 && 0 <= col < img.Length1 ==>
      img[r, col] == old(img[r, col]) || img[r, col] == 255
  {
    for u := 0 to s.w
      invariant forall u' :: 0 <= u' < u ==> !CellRaises(s, v, u')
      invariant forall r, col :: 0 <= r < img.Length0 && 0 <= col < img.Length1 ==>
        img[r, col] == if RowPainted(s, v, u, r, col) then 255 else old(img[r, col])
    {
      var k := s.wb * v + u / 8;
      if k >= |s.glyph| {
        assert CellRaises(s, v, u);
        return false;
      }
      RowPaintedStep(s, v, u);
      if BitSet(s.glyph[k], NotAnd7(u)) {
        if !(InAxis(s.y + v, img.Length0) && InAxis(s.x + u, img.Length1)) {
          assert CellRaises(s, v, u);
          return false;
        }
        img[AxisIndex(s.y + v, img.Length0), AxisIndex(s.x + u, img.Length1)] := 255;
      }
    }
    return true;
  }

  /** The stamp `draw_char(img, x, y, c, font)` makes. */
  function StampOf(f: Font, c: int, x: int, y: int, rows: int, cols: int): Stamp
    requires ByteFields(f)
  {
    Stamp(PyGlyphOf(f, c), WidthBytes(f.width), f.width, x, y, rows, cols)
  }

  /**
   * `draw_char`: sets to 255 exactly the pixels of the set bits of the glyph,
   * with numpy's index wrap, and returns false where numpy or the glyph slice
   * raises IndexError.
   */
  method DrawChar(img: array2<int>, x: int, y: int, c: int, f: Font) returns (ok: bool)
    requires ByteFields(f)
    modifies img
    ensures ok <==> StampFits(StampOf(f, c, x, y, img.Length0, img.Length1), f.height)
    ensures ok ==> forall r, col :: 0 <= r < img.Length0 && 0 <= col < img.Length1 ==>
      img[r, col] == if Painted(StampOf(f, c, x, y, img.Length0, img.Length1), f.height, r, col) then 255 else old(img[r, col])
    ensures forall r, col :: 0 <= r < img.Length0 && 0 <= col < img.Length1 ==>
      img[r, col] == old(img[r, col]) || img[r, col] == 255
  {
    var s := StampOf(f, c, x, y, img.Length0, img.Length1);
    for v := 0 to f.height
      invariant forall v', u' :: 0 <= v' < v && 0 <= u' < f.width ==> !CellRaises(s, v', u')
      invariant forall r, col :: 0 <= r < img.Length0 && 0 <= col < img.Length1 ==>
        img[r, col] == if Painted(s, v, r, col) then 255 else old(img[r, col])
    {
      PaintedStep(s, v);
      ok := StampRow(img, s, v);
      if !ok {
        return;
      }
    }
    return true;
  }

  /**
   * A drawable code whose glyph the store cuts short always raises: the last
   * cell of the glyph reads past the slice.
   */
  lemma TruncatedGlyphRaises(f: Font, c: int, x: int, y: int, rows: int, cols: int)
    requires ByteFields(f) && c >= f.asciiOffset && !HasGlyph(f, c)
    ensures !StampFits(StampOf(f, c, x, y, rows, cols), f.height)
  {
    var s := StampOf(f, c, x, y, rows, cols);
    var wb, h := WidthBytes(f.width), f.height;
    TruncatedSlice(f, c);
    assert wb > 0 && h > 0;
    LastCell(f.width, h);
    assert CellRaises(s, h - 1, f.width - 1);
  }

  /** A glyph the store cuts short is a non-empty glyph whose slice is shorter than the glyph size. */
  lemma TruncatedSlice(f: Font, c: int)
    requires ByteFields(f) && c >= f.asciiOffset && !HasGlyph(f, c)
    ensures WidthBytes(f.width) * f.height > 0 && |PyGlyphOf(f, c)| < WidthBytes(f.width) * f.height
  {
    var size, off := SizeOf(f), GlyphOffset(f, c);
    assert size == 0 ==> off == 0;
    assert off >= 0 && off + size > |f.glyphs|;
  }

  /** The byte of the last pixel of a glyph is its last byte. */
  lemma LastCell(w: nat, h: nat)
    requires w > 0 && h > 0
    ensures WidthBytes(w) * (h - 1) + (w - 1) / 8 == WidthBytes(w) * h - 1
  {
    MulSucc(WidthBytes(w), h - 1);
  }

  // ----- draw_string -----

  /** `ord('\x1B')`: the next glyph is combined with the previous one. */
  const Escape: int := 0x1B
  /** `ord('\n')`. */
  const Newline: int := 10

  /** The cursor of `draw_string`. */
  datatype Cursor = Cursor(cx: int, cy: int, last: int, combining: bool)

  const Start: Cursor := Cursor(0, 0, 0, false)

  /** A `draw_char(img, x, y, c, font)` call. */
  datatype Placement = Placement(c: int, x: int, y: int)

  /** `draw_char` raises IndexError on a drawable code whose glyph is cut short. */
  datatype LayoutError = IndexError(c: int)

  /** The cursor and the glyphs placed so far. */
  datatype Layout = Layout(cursor: Cursor, draws: seq<Placement>)

  /** Codes that reach the `else` branch and are drawn. */
  predicate Drawable(f: Font, c: int)
  {
    c != Escape && c != Newline && c >= f.asciiOffset
  }

  /** `x_offset`: the gap after each glyph. */
  function XOffset(f: Font): int
  {
    if f.monospace then 0 else 1
  }

  /**
   * `char_width`: the cell width in a monospace font, otherwise `glyph_width`,
   * which for a whole glyph is its ink width, at least 1. The value for a
   * glyph cut short is never used, since its `draw_char` raises.
   */
  function CharWidth(f: Font, c: int): int
    requires ByteFields(f)
  {
    if f.monospace then f.width else if HasGlyph(f, c) then InkWidth.PyInkWidth(f, c) else 0
  }

  /** One iteration of `draw_string`'s loop, given the `char_width` of the code. */
  function Step(f: Font, l: Layout, c: int, w: int): Layout
  {
    var k := l.cursor;
    if c == Escape then Layout(Cursor(k.cx - (k.last + XOffset(f)), k.cy, k.last, true), l.draws)
    else if c == Newline then Layout(Cursor(0, k.cy + f.height + 1, 0, k.combining), l.draws)
    else if c < f.asciiOffset then l
    else if k.combining && !f.monospace then
      Layout(Cursor(k.cx + k.last + XOffset(f), k.cy, k.last, false), l.draws + [Placement(c, k.cx + k.last / 2, k.cy)])
    else
      Layout(Cursor(k.cx + w + XOffset(f), k.cy, w, false), l.draws + [Placement(c, k.cx, k.cy)])
  }

  /** Extends a layout by one code; `draw_char` raises on a drawable code whose glyph is cut short. */
  function Then(f: Font, l: Layout, c: int, w: int): Result<Layout, LayoutError>
    requires ByteFields(f)
  {
    if Drawable(f, c) && !HasGlyph(f, c) then Err(IndexError(c)) else Ok(Step(f, l, c, w))
  }

  /** The reference layout `draw_string` follows: the steps in order, stopping at the first IndexError. */
  function Run(f: Font, ts: seq<Token>): Result<Layout, LayoutError>
    requires ByteFields(f)
  {
    if ts == [] then Ok(Layout(Start, []))
    else
      match Run(f, ts[..|ts| - 1])
      case Err(e) => Err(e)
      case Ok(l) => var c := Ord(ts[|ts| - 1]); Then(f, l, c, CharWidth(f, c))
  }

  /** Once a prefix raises, the whole string raises with the same error. */
  lemma {:induction false} ErrorSticks(f: Font, ts: seq<Token>, i: nat)
    requires ByteFields(f) && i <= |ts| && Run(f, ts[..i]).Err?
    ensures Run(f, ts) == Run(f, ts[..i])
    decreases |ts| - i
  {
    if i < |ts| {
      assert ts[..i + 1][..i] == ts[..i];
      ErrorSticks(f, ts, i + 1);
    } else {
      assert ts[..i] == ts;
    }
  }

  /** `draw_string`, with the `draw_char` calls collected in order instead of performed. */
  method DrawString(ts: seq<Token>, f: Font) returns (r: Result<Layout, LayoutError>)
    requires ByteFields(f)
    ensures r == Run(f, ts)
  {
    var lastCharWidth := 0;
    var combiningMode := false;
    var cx, cy := 0, 0;
    var draws: seq<Placement> := [];
    for i := 0 to |ts|
      invariant Run(f, ts[..i]) == Ok(Layout(Cursor(cx, cy, lastCharWidth, combiningMode), draws))
    {
      RunSnoc(f, ts, i, Layout(Cursor(cx, cy, lastCharWidth, combiningMode), draws));
      var next := DrawCode(f, Ord(ts[i]), Cursor(cx, cy, lastCharWidth, combiningMode), draws);
      if next.Err? {
        ErrorSticks(f, ts, i + 1);
        return next;
      }
      cx, cy, lastCharWidth, combiningMode := next.value.cursor.cx, next.value.cursor.cy, next.value.cursor.last, next.value.cursor.combining;
      draws := next.value.draws;
    }
    assert ts[..|ts|] == ts;
    r := Ok(Layout(Cursor(cx, cy, lastCharWidth, combiningMode), draws));
  }

  /** The body of `draw_string`'s loop for the code `c`: the cursor and the draws after it, or the IndexError of `draw_char`. */
  method DrawCode(f: Font, c: int, k: Cursor, placed: seq<Placement>) returns (r: Result<Layout, LayoutError>)
    requires ByteFields(f)
    ensures r == Then(f, Layout(k, placed), c, CharWidth(f, c))
  {
    var charWidth;
    if f.monospace {
      charWidth := f.width;
    } else {
      charWidth := InkWidth.GlyphWidthPy(f, c);
    }
    var whole := HasGlyph(f, c);
    assert whole ==> charWidth == CharWidth(f, c);
    r := StepCode(f, c, charWidth, whole, k, placed);
    assert !(Drawable(f, c) && !whole) ==> Step(f, Layout(k, placed), c, charWidth) == Step(f, Layout(k, placed), c, CharWidth(f, c));
  }

  /** The branches of `draw_string`'s loop once `char_width` is `charWidth`; `whole` says whether the glyph is whole. */
  method StepCode(f: Font, c: int, charWidth: int, whole: bool, k: Cursor, placed: seq<Placement>) returns (r: Result<Layout, LayoutError>)
    ensures r == if Drawable(f, c) && !whole then Err(IndexError(c)) else Ok(Step(f, Layout(k, placed), c, charWidth))
  {
    var xOffset := if f.monospace then 0 else 1;
    var cx, cy, lastCharWidth, combiningMode, draws := k.cx, k.cy, k.last, k.combining, placed;
    if c == Escape {
      cx := cx - (lastCharWidth + xOffset);
      combiningMode := true;
    } else if c == Newline {
      lastCharWidth := 0;
      cx := 0;
      cy := cy + f.height + 1;
    } else if c < f.asciiOffset {
    } else {
      var cx' := cx;
      if combiningMode && !f.monospace {
        cx' := cx' + lastCharWidth / 2;
      } else {
        lastCharWidth := charWidth;
      }
      combiningMode := false;
      if !whole {
        return Err(IndexError(c));
      }
      draws := draws + [Placement(c, cx', cy)];
      cx := cx + lastCharWidth + xOffset;
    }
    r := Ok(Layout(Cursor(cx, cy, lastCharWidth, combiningMode), draws));
  }

  /** One more code extends the reference layout by `Then`. */
  lemma RunSnoc(f: Font, ts: seq<Token>, i: nat, l: Layout)
    requires ByteFields(f) && i < |ts| && Run(f, ts[..i]) == Ok(l)
    ensures Run(f, ts[..i + 1]) == Then(f, l, Ord(ts[i]), CharWidth(f, Ord(ts[i])))
  {
    assert ts[..i + 1][..i] == ts[..i];
  }

  // ----- properties of the layout -----

  /** Number of newline tokens. */
  function Newlines(ts: seq<Token>): nat
  {
    if ts == [] then 0 else Newlines(ts[..|ts| - 1]) + if Ord(ts[|ts| - 1]) == Newline then 1 else 0
  }

  /** One step keeps the glyphs placed so far, moves down one line on a newline, and places at the current row. */
  lemma ThenRows(f: Font, l: Layout, c: int, w: int)
    requires ByteFields(f) && Then(f, l, c, w).Ok?
    ensures var l' := Then(f, l, c, w).value;
      && l'.cursor.cy == l.cursor.cy + (if c == Newline then f.height + 1 else 0)
      && |l.draws| <= |l'.draws| && l'.draws[..|l.draws|] == l.draws
      && forall j :: |l.draws| <= j < |l'.draws| ==> l'.draws[j].y == l.cursor.cy
  {
  }

  /** Each line starts `height + 1` rows below the previous one. */
  lemma {:induction false} LineCursor(f: Font, ts: seq<Token>)
    requires ByteFields(f) && Run(f, ts).Ok?
    ensures Run(f, ts).value.cursor.cy == (f.height + 1) * Newlines(ts)
  {
    if ts != [] {
      var ts0 := ts[..|ts| - 1];
      LineCursor(f, ts0);
      var l := Run(f, ts0).value;
      var c := Ord(ts[|ts| - 1]);
      assert Run(f, ts) == Then(f, l, c, CharWidth(f, c));
      ThenRows(f, l, c, CharWidth(f, c));
      MulSucc(f.height + 1, Newlines(ts0));
    }
  }

  /** Every glyph is drawn at the top of its line, and no lower than the cursor's line. */
  lemma {:induction false} LineRows(f: Font, ts: seq<Token>)
    requires ByteFields(f) && Run(f, ts).Ok?
    ensures OnLineTops(Run(f, ts).value.draws, f.height + 1, (f.height + 1) * Newlines(ts))
  {
    if ts != [] {
      var ts0 := ts[..|ts| - 1];
      LineRows(f, ts0);
      LineCursor(f, ts0);
      var l := Run(f, ts0).value;
      var c := Ord(ts[|ts| - 1]);
      assert Run(f, ts) == Then(f, l, c, CharWidth(f, c));
      ThenRows(f, l, c, CharWidth(f, c));
      var l' := Then(f, l, c, CharWidth(f, c)).value;
      assert Newlines(ts0) <= Newlines(ts);
      LinesStep(l.draws, l'.draws, f.height + 1, Newlines(ts0), Newlines(ts), l.cursor.cy);
    }
  }

  /** Every placement is at the top of a line of height `m`, between row 0 and row `top`. */
  predicate OnLineTops(d: seq<Placement>, m: int, top: int)
    requires m > 0
  {
    forall j :: 0 <= j < |d| ==> d[j].y % m == 0 && 0 <= d[j].y <= top
  }

  /**
   * Placements on the first `n0 + 1` line tops, followed by placements at the
   * top of line `n0`, are all on the first `n + 1` line tops when `n0 <= n`.
   */
  lemma LinesStep(d: seq<Placement>, d': seq<Placement>, m: int, n0: nat, n: nat, cy: int)
    requires m > 0 && cy == m * n0 && n0 <= n
    requires |d| <= |d'| && d'[..|d|] == d
    requires OnLineTops(d, m, m * n0)
    requires forall j :: |d| <= j < |d'| ==> d'[j].y == cy
    ensures OnLineTops(d', m, m * n)
  {
    ModOfMultiple(n0, m);
    assert n0 * m == cy;
    MulMono(n0, n, m);
    assert n0 * m <= m * n;
    forall j | 0 <= j < |d|
      ensures d'[j] == d[j]
    {
      assert d'[j] == d'[..|d|][j];
    }
  }

  /** One step of a monospace layout moves the cursor by whole cells and places at the cursor. */
  lemma ThenCells(f: Font, l: Layout, c: int)
    requires ByteFields(f) && f.monospace && Then(f, l, c, f.width).Ok?
    ensures var l' := Then(f, l, c, f.width).value;
      && l'.cursor.cx == (if c == Escape then l.cursor.cx - l.cursor.last
                          else if c == Newline then 0
                          else if c < f.asciiOffset then l.cursor.cx
                          else l.cursor.cx + f.width)
      && l'.cursor.last == (if c == Newline then 0 else if Drawable(f, c) then f.width else l.cursor.last)
      && |l.draws| <= |l'.draws| && l'.draws[..|l.draws|] == l.draws
      && forall j :: |l.draws| <= j < |l'.draws| ==> l'.draws[j].x == l.cursor.cx
  {
  }

  /** Moving by at most one cell keeps a position on the grid of cells `w` wide. */
  lemma GridStep(cx: int, w: int, d: int)
    requires w > 0 && cx % w == 0 && (d == 0 || d == w || d == -w)
    ensures (cx + d) % w == 0
  {
    var q := cx / w;
    assert cx == q * w;
    MulSucc(w, q);
    ModOfMultiple(q - 1, w);
    ModOfMultiple(q + 1, w);
  }

  /** In a monospace font the cursor stays on the cell grid: every glyph starts at a multiple of the width. */
  lemma {:induction false} MonospaceGrid(f: Font, ts: seq<Token>)
    requires ByteFields(f) && f.monospace && f.width > 0 && Run(f, ts).Ok?
    ensures Run(f, ts).value.cursor.cx % f.width == 0
    ensures Run(f, ts).value.cursor.last == 0 || Run(f, ts).value.cursor.last == f.width
    ensures var d := Run(f, ts).value.draws;
      forall j :: 0 <= j < |d| ==> d[j].x % f.width == 0
  {
    if ts != [] {
      var ts0 := ts[..|ts| - 1];
      MonospaceGrid(f, ts0);
      var l := Run(f, ts0).value;
      var c := Ord(ts[|ts| - 1]);
      assert Run(f, ts) == Then(f, l, c, f.width);
      ThenCells(f, l, c);
      var l' := Then(f, l, c, f.width).value;
      var w, cx := f.width, l.cursor.cx;
      if c != Newline {
        GridStep(cx, w, l'.cursor.cx - cx);
      }
      forall j | 0 <= j < |l'.draws|
        ensures l'.draws[j].x % w == 0
      {
        if j < |l.draws| {
          assert l'.draws[j] == l'.draws[..|l.draws|][j];
        }
      }
    }
  }

  /**
   * A base glyph, 0x1B and a mark in a proportional font: the mark is drawn
   * `last // 2` to the right of the base, and the pair advances the cursor
   * exactly as the base alone does.
   */
  lemma CombinedPair(f: Font, l: Layout, base: int, wBase: int, mark: int, wMark: int)
    requires !f.monospace && !l.cursor.combining
    requires base != Escape && base != Newline && base >= f.asciiOffset
    requires mark != Escape && mark != Newline && mark >= f.asciiOffset
    ensures var l1 := Step(f, l, base, wBase);
      var l3 := Step(f, Step(f, l1, Escape, 0), mark, wMark);
      && l1.draws == l.draws + [Placement(base, l.cursor.cx, l.cursor.cy)]
      && l3.draws == l1.draws + [Placement(mark, l.cursor.cx + wBase / 2, l.cursor.cy)]
      && l3.cursor == l1.cursor
  {
  }
}
