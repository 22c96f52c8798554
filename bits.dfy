/**
 * Byte-level arithmetic shared by the font tools and the firmware:
 * bytes, bit tests, the `ceil(w / 8)` row stride, C truncating division
 * and the `~u & 7` mask index.
 */
module Bits {

  /** One byte of a file or of a glyph store. */
  type byte = bv8

  /** `1 << k` as a byte, spelled out bit by bit. */
  function Mask(k: nat): byte
    requires k < 8
  {
    match k
    case 0 => 0x01
    case 1 => 0x02
    case 2 => 0x04
    case 3 => 0x08
    case 4 => 0x10
    case 5 => 0x20
    case 6 => 0x40
    case 7 => 0x80
  }

  /** The converter's `1 << i` on a byte is the mask of bit `i`. */
  lemma ShiftIsMask(i: nat)
    requires i < 8
    ensures (1 as byte) << i == Mask(i)
    ensures (0 as byte) << i == 0
  {
  }

  /** Bit `k` (0 = least significant) of `b` is set: `b & (1 << k) != 0`. */
  predicate BitSet(b: byte, k: nat)
    requires k < 8
  {
    b & Mask(k) != 0
  }

  /** A natural below 256 survives the round trip through a byte. */
  lemma ByteOfNat(n: nat)
    requires n < 256
    ensures (n as byte) as int == n
  {
    if n < 128 {
      if n < 64 {} else {}
    } else {
      if n < 192 {} else {}
    }
  }

  /** Bit 7 of a byte below 128 is clear; setting it leaves the low seven bits alone. */
  lemma Low7(w: byte)
    requires w as int < 128
    ensures w & 0x80 == 0 && w & 0x7F == w && (w | 0x80) & 0x7F == w && (w | 0x80) & 0x80 != 0
  {
  }

  /** The row stride of a glyph: `ceil(w / 8)` for a non-negative pixel width. */
  function WidthBytes(w: nat): (r: nat)
    ensures 8 * r >= w && 8 * r < w + 8
  {
    (w + 7) / 8
  }

  lemma WidthBytesSmall(w: nat)
    ensures 1 <= w <= 8 ==> WidthBytes(w) == 1
    ensures 9 <= w <= 16 ==> WidthBytes(w) == 2
    ensures w == 0 <==> WidthBytes(w) == 0
  {
  }

  /** Products of bounded naturals are bounded. */
  lemma MulBound(a: nat, b: nat, bigA: nat, bigB: nat)
    requires a <= bigA && b <= bigB
    ensures a * b <= bigA * bigB
  {
    assert a * b <= bigA * b by {
      assert bigA * b - a * b == (bigA - a) * b;
    }
    assert bigA * b <= bigA * bigB by {
      assert bigA * bigB - bigA * b == bigA * (bigB - b);
    }
  }

  /** Multiplication by a natural is monotone. */
  lemma MulMono(x: nat, y: nat, d: nat)
    ensures x <= y ==> x * d <= y * d
  {
    if x <= y {
      MulBound(x, d, y, d);
    }
  }

  /** One more factor adds one more `m`. */
  lemma MulSucc(m: int, n: int)
    ensures m * (n + 1) == m * n + m
    ensures (n - 1) * m == n * m - m && (n + 1) * m == n * m + m
  {
  }

  /** A multiple of `m` leaves no remainder, and dividing gives the factor back. */
  lemma ModOfMultiple(q: int, m: int)
    requires m > 0
    ensures (q * m) % m == 0 && (q * m) / m == q
  {
    var a := q * m;
    var d, r := a / m, a % m;
    assert a == d * m + r && 0 <= r < m;
    var e := q - d;
    assert e * m == r;
    if e >= 1 {
      MulBound(1, m, e, m);
    }
    assert e == 0;
  }

  /** `a * d <= m` gives `a <= m / d`. */
  lemma DivMono(a: nat, d: nat, m: nat)
    requires d > 0 && a * d <= m
    ensures a <= m / d
  {
    var q, r := m / d, m % d;
    assert m == q * d + r && r < d;
    assert m < (q + 1) * d by {
      assert (q + 1) * d == q * d + d;
    }
    MulMono(q + 1, a, d);
  }

  /** `w // c` cells fill a row of `w` pixels exactly when `c` divides `w`, and none fit when `w < c`. */
  lemma WholeCells(w: nat, c: nat)
    requires c > 0
    ensures (w / c) * c == w <==> w % c == 0
    ensures w / c == 0 <==> w < c
  {
    var q, r := w / c, w % c;
    assert w == q * c + r && r < c;
    MulMono(1, q, c);
  }

  /** Row `v` of a glyph with stride `wb` lies inside an `h`-row glyph. */
  lemma RowOffset(wb: nat, v: nat, b: nat, h: nat)
    requires v < h && b < wb
    ensures wb * v + b < wb * h
  {
    assert wb * h - wb * (v + 1) == wb * (h - v - 1);
  }

  /**
   * `~u & 7` on a Python or C integer: `~u` is `-u - 1` in two's complement,
   * and `& 7` keeps its three low bits, which is the Euclidean remainder.
   */
  function NotAnd7(u: int): int
  {
    (-u - 1) % 8
  }

  /** For a non-negative column `u`, `~u & 7` is the MSB-first bit index `7 - u % 8`. */
  lemma NotAnd7IsMsbIndex(u: int)
    requires u >= 0
    ensures NotAnd7(u) == 7 - u % 8
  {
    var q, r := u / 8, u % 8;
    assert u == 8 * q + r;
    assert -u - 1 == 8 * (-q - 1) + (7 - r);
  }

  /** C integer division, which truncates toward zero. */
  function CDiv(a: int, b: int): (q: int)
    requires b != 0
    ensures a >= 0 && b > 0 ==> q == a / b
  {
    if (a >= 0) == (b > 0) then
      (if a >= 0 then a else -a) / (if b > 0 then b else -b)
    else
      -((if a >= 0 then a else -a) / (if b > 0 then b else -b))
  }

  /** Truncating division by two rounds negative halves up, unlike Dafny's `/`. */
  lemma CDivByTwo(a: int)
    ensures CDiv(a, 2) == (if a >= 0 then a / 2 else -((-a) / 2))
    ensures a < 0 && a % 2 != 0 ==> CDiv(a, 2) == a / 2 + 1
  {
  }

  /** Euclidean division is unique: a quotient and a remainder in `0 .. m - 1` are the ones `/` and `%` give. */
  lemma ModUnique(y: int, k: int, s: int, m: int)
    requires m > 0 && y == k * m + s && 0 <= s < m
    ensures y % m == s && y / m == k
  {
    var d, t := y / m, y % m;
    assert y == d * m + t && 0 <= t < m;
    var e := k - d;
    assert e * m == t - s;
    NonzeroMultiple(e, m);
  }

  /** A nonzero multiple of `m` is at least `m` away from zero. */
  lemma NonzeroMultiple(e: int, m: int)
    requires m > 0
    ensures e != 0 ==> e * m >= m || e * m <= -m
  {
    if e >= 1 {
      MulBound(1, m, e, m);
    } else if e <= -1 {
      MulBound(1, m, -e, m);
      assert (-e) * m == -(e * m);
    }
  }

  /** The conversion of an `int` to `int16_t`: the value modulo 2^16, read in two's complement. */
  function Int16(v: int): (r: int)
    ensures -0x8000 <= r < 0x8000
    ensures -0x8000 <= v < 0x8000 ==> r == v
  {
    (v + 0x8000) % 0x1_0000 - 0x8000
  }

  /** Wrapping an intermediate sum to 16 bits does not change the wrapped total. */
  lemma Int16Add(a: int, b: int)
    ensures Int16(Int16(a) + b) == Int16(a + b)
  {
    var m := 0x1_0000;
    var p := a + 0x8000;
    var q, r := p / m, p % m;
    assert p == q * m + r && 0 <= r < m;
    var k, s := (r + b) / m, (r + b) % m;
    assert r + b == k * m + s && 0 <= s < m;
    assert p + b == (q + k) * m + s;
    ModUnique(p + b, q + k, s, m);
  }

  /** The conversion of an `int` to the firmware's 32-bit `size_t`. */
  function SizeT(v: int): (r: nat)
    ensures r < 0x1_0000_0000
    ensures 0 <= v < 0x1_0000_0000 ==> r == v
  {
    v % 0x1_0000_0000
  }

  /** Number of trailing zero bits of a byte; 8 for the zero byte. */
  function Ctz(b: byte): (r: nat)
    ensures r <= 8
    ensures forall k :: 0 <= k < r ==> !BitSet(b, k)
    ensures r < 8 ==> BitSet(b, r)
    ensures r == 8 <==> b == 0
  {
    if BitSet(b, 0) then 0
    else if BitSet(b, 1) then 1
    else if BitSet(b, 2) then 2
    else if BitSet(b, 3) then 3
    else if BitSet(b, 4) then 4
    else if BitSet(b, 5) then 5
    else if BitSet(b, 6) then 6
    else if BitSet(b, 7) then 7
    else
      NoBitsZero(b);
      8
  }

  /** A byte with no bit set is zero. */
  lemma NoBitsZero(b: byte)
    requires forall j :: 0 <= j < 8 ==> !BitSet(b, j)
    ensures b == 0
  {
    assert !BitSet(b, 0) && !BitSet(b, 1) && !BitSet(b, 2) && !BitSet(b, 3);
    assert !BitSet(b, 4) && !BitSet(b, 5) && !BitSet(b, 6) && !BitSet(b, 7);
  }

  /** The mask of bit `j` has bit `j` and no other; the zero byte has none. */
  lemma MaskBit(j: nat, k: nat)
    requires j < 8 && k < 8
    ensures BitSet(Mask(j), k) <==> j == k
    ensures !BitSet(0, k)
  {
    match j
    case 0 =>
    case 1 =>
    case 2 =>
    case 3 =>
    case 4 =>
    case 5 =>
    case 6 =>
    case 7 =>
  }

  /** A bit of an OR is set iff it is set in one of the operands. */
  lemma BitOr(a: byte, b: byte, k: nat)
    requires k < 8
    ensures BitSet(a | b, k) <==> BitSet(a, k) || BitSet(b, k)
  {
  }

  /** Bit `j` when `c` holds, otherwise no bit. */
  function BitIf(c: bool, j: nat): byte
    requires j < 8
  {
    if c then Mask(j) else 0
  }

  /** Setting bit `j` when `c` holds adds exactly that bit. */
  lemma BitOrMaybe(a: byte, c: bool, j: nat, k: nat)
    requires j < 8 && k < 8
    ensures BitSet(a | BitIf(c, j), k) <==> BitSet(a, k) || (c && j == k)
  {
    BitOr(a, BitIf(c, j), k);
    MaskBit(j, k);
  }

  /** Two bytes with the same eight bits are equal. */
  lemma BitsDetermineByte(a: byte, b: byte)
    requires forall k :: 0 <= k < 8 ==> (BitSet(a, k) <==> BitSet(b, k))
    ensures a == b
  {
    assert BitSet(a, 0) == BitSet(b, 0) && BitSet(a, 1) == BitSet(b, 1);
    assert BitSet(a, 2) == BitSet(b, 2) && BitSet(a, 3) == BitSet(b, 3);
    assert BitSet(a, 4) == BitSet(b, 4) && BitSet(a, 5) == BitSet(b, 5);
    assert BitSet(a, 6) == BitSet(b, 6) && BitSet(a, 7) == BitSet(b, 7);
  }
}
