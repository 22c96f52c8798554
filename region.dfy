/**
 * `g_region_t` (region.h): an inclusive rectangle of `g_coord_t` corners,
 * and `g_region_width` / `g_region_height`, which return `x1 - x0 + 1` and
 * `y1 - y0 + 1` as the firmware's 32-bit `size_t`.
 */
module Regions {
  import opened Bits

  datatype Region = Region(x0: int, y0: int, x1: int, y1: int)

  /** The `int16_t` range of a `g_coord_t`. */
  predicate InCoord(v: int)
  {
    -0x8000 <= v < 0x8000
  }

  /** Every corner is a `g_coord_t`. */
  predicate Coords(r: Region)
  {
    InCoord(r.x0) && InCoord(r.y0) && InCoord(r.x1) && InCoord(r.y1)
  }

  /** `g_region_width`: `x1 - x0 + 1`, converted to `size_t`. */
  function Width(r: Region): nat
  {
    SizeT(r.x1 - r.x0 + 1)
  }

  /** `g_region_height`: `y1 - y0 + 1`, converted to `size_t`. */
  function Height(r: Region): nat
  {
    SizeT(r.y1 - r.y0 + 1)
  }

  /** The integers from `a` to `b`, both included. */
  function Span(a: int, b: int): set<int>
    decreases b - a
  {
    if b < a then {} else Span(a, b - 1) + {b}
  }

  /** A span holds exactly the integers between its ends, `b - a + 1` of them. */
  lemma {:induction false} SpanSize(a: int, b: int)
    requires a <= b + 1
    ensures forall v :: v in Span(a, b) <==> a <= v <= b
    ensures |Span(a, b)| == b - a + 1
    decreases b - a + 1
  {
    if a <= b {
      SpanSize(a, b - 1);
    }
  }

  /** The length of an inclusive range `lo ..= hi` of `g_coord_t`, as `size_t`, case by case. */
  lemma SizeCases(lo: int, hi: int)
    requires InCoord(lo) && InCoord(hi)
    ensures lo <= hi ==> 1 <= SizeT(hi - lo + 1) <= 0x1_0000 && SizeT(hi - lo + 1) == |Span(lo, hi)|
    ensures hi == lo - 1 ==> SizeT(hi - lo + 1) == 0
    ensures hi < lo - 1 ==> SizeT(hi - lo + 1) == hi - lo + 1 + 0x1_0000_0000
  {
    if lo <= hi {
      SpanSize(lo, hi);
    } else if hi < lo - 1 {
      ModUnique(hi - lo + 1, -1, hi - lo + 1 + 0x1_0000_0000, 0x1_0000_0000);
    }
  }

  /**
   * The width of a region with ordered corners counts its columns, is 1 for
   * a single column and at most 65536; a region with `x1 < x0 - 1`
   * wraps around to a huge `size_t`.
   */
  lemma WidthCases(r: Region)
    requires Coords(r)
    ensures r.x0 <= r.x1 ==> 1 <= Width(r) <= 0x1_0000 && Width(r) == |Span(r.x0, r.x1)|
    ensures r.x0 == r.x1 ==> Width(r) == 1
    ensures r.x1 == r.x0 - 1 ==> Width(r) == 0
    ensures r.x1 < r.x0 - 1 ==> Width(r) == r.x1 - r.x0 + 1 + 0x1_0000_0000
  {
    SizeCases(r.x0, r.x1);
  }

  /** The same for the height and the rows. */
  lemma HeightCases(r: Region)
    requires Coords(r)
    ensures r.y0 <= r.y1 ==> 1 <= Height(r) <= 0x1_0000 && Height(r) == |Span(r.y0, r.y1)|
    ensures r.y0 == r.y1 ==> Height(r) == 1
    ensures r.y1 == r.y0 - 1 ==> Height(r) == 0
    ensures r.y1 < r.y0 - 1 ==> Height(r) == r.y1 - r.y0 + 1 + 0x1_0000_0000
  {
    SizeCases(r.y0, r.y1);
  }
}
