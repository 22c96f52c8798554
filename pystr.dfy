/**
 * The Python string built-ins that img_utils/img2ebg.py relies on, over
 * ASCII text: `str.startswith`, `str.strip(chars)`, `str.split(sep)`,
 * `str.lower`, `str.isnumeric` / `str.isdigit`, `str.isalnum`, and
 * `int(text, base)` for bases 10 and 16.
 */
module PyStr {
  import opened Wrappers

  predicate IsDigit(c: char)
  {
    '0' <= c <= '9'
  }

  predicate IsAlpha(c: char)
  {
    'a' <= c <= 'z' || 'A' <= c <= 'Z'
  }

  /** The ASCII characters Python's `int` skips around a number (`str.isspace`). */
  predicate IsSpace(c: char)
  {
    c == ' ' || 9 <= c as int <= 13 || 28 <= c as int <= 31
  }

  /** `s.startswith(p)`. */
  predicate StartsWith(s: string, p: string)
  {
    |p| <= |s| && s[..|p|] == p
  }

  /** `s.isnumeric()` (and `s.isdigit()`) on ASCII: non-empty and all digits. */
  predicate IsNumeric(s: string)
  {
    |s| > 0 && forall i :: 0 <= i < |s| ==> IsDigit(s[i])
  }

  /** `s.isalnum()` on ASCII: non-empty and all letters or digits. */
  predicate IsAlnum(s: string)
  {
    |s| > 0 && forall i :: 0 <= i < |s| ==> IsAlpha(s[i]) || IsDigit(s[i])
  }

  /** `c.lower()` for one ASCII character. */
  function LowerChar(c: char): char
  {
    if 'A' <= c <= 'Z' then (c as int + 32) as char else c
  }

  /** `s.lower()`: every upper-case letter replaced by its lower-case one, nothing else changed. */
  function Lower(s: string): (r: string)
    ensures |r| == |s|
    ensures forall i :: 0 <= i < |s| ==> r[i] == LowerChar(s[i])
  {
    seq(|s|, i requires 0 <= i < |s| => LowerChar(s[i]))
  }

  /** `s.lstrip(chars)`, the characters to remove given by `drop`. */
  function StripLeft(s: string, drop: char -> bool): (r: string)
    ensures |r| <= |s|
    decreases |s|
  {
    if |s| > 0 && drop(s[0]) then StripLeft(s[1..], drop) else s
  }

  /** `s.rstrip(chars)`. */
  function StripRight(s: string, drop: char -> bool): (r: string)
    ensures |r| <= |s|
    decreases |s|
  {
    if |s| > 0 && drop(s[|s| - 1]) then StripRight(s[..|s| - 1], drop) else s
  }

  /** `s.strip(chars)`: what is left after removing every leading and trailing character in `chars`. */
  function Strip(s: string, drop: char -> bool): string
  {
    StripRight(StripLeft(s, drop), drop)
  }

  /** `lstrip` removes the longest prefix of characters to drop and keeps the rest as it is. */
  lemma {:induction false} StripLeftSpec(s: string, drop: char -> bool)
    ensures StripLeft(s, drop) == s[|s| - |StripLeft(s, drop)|..]
    ensures forall i :: 0 <= i < |s| - |StripLeft(s, drop)| ==> drop(s[i])
    ensures |StripLeft(s, drop)| > 0 ==> !drop(StripLeft(s, drop)[0])
    decreases |s|
  {
    if |s| > 0 && drop(s[0]) {
      StripLeftSpec(s[1..], drop);
      assert forall i :: 1 <= i < |s| ==> s[i] == s[1..][i - 1];
    }
  }

  /** `rstrip` removes the longest suffix of characters to drop and keeps the rest as it is. */
  lemma {:induction false} StripRightSpec(s: string, drop: char -> bool)
    ensures StripRight(s, drop) == s[..|StripRight(s, drop)|]
    ensures forall i :: |StripRight(s, drop)| <= i < |s| ==> drop(s[i])
    ensures |StripRight(s, drop)| > 0 ==> !drop(StripRight(s, drop)[|StripRight(s, drop)| - 1])
    decreases |s|
  {
    if |s| > 0 && drop(s[|s| - 1]) {
      var t := s[..|s| - 1];
      StripRightSpec(t, drop);
      var r := StripRight(t, drop);
      assert StripRight(s, drop) == r;
      assert t[..|r|] == s[..|r|];
      assert forall i :: |r| <= i < |t| ==> s[i] == t[i];
    }
  }

  /** `s.split(sep)` with a one-character separator: the pieces between separators, empty ones included. */
  function Split(s: string, sep: char): (r: seq<string>)
    ensures |r| > 0
    decreases |s|
  {
    if |s| == 0 then [""]
    else
      var rest := Split(s[1..], sep);
      if s[0] == sep then [""] + rest else [[s[0]] + rest[0]] + rest[1..]
  }

  /** The pieces joined back with the separator between them. */
  function Join(pieces: seq<string>, sep: char): string
    requires |pieces| > 0
  {
    if |pieces| == 1 then pieces[0] else pieces[0] + [sep] + Join(pieces[1..], sep)
  }

  /** Joining the pieces of a split gives the string back, and no piece holds the separator. */
  lemma {:induction false} SplitJoin(s: string, sep: char)
    ensures Join(Split(s, sep), sep) == s
    ensures forall i, k :: 0 <= i < |Split(s, sep)| && 0 <= k < |Split(s, sep)[i]| ==> Split(s, sep)[i][k] != sep
    decreases |s|
  {
    if |s| > 0 {
      var rest := Split(s[1..], sep);
      SplitJoin(s[1..], sep);
      if s[0] == sep {
        assert Split(s, sep)[1..] == rest;
      } else {
        var r := Split(s, sep);
        assert r[0] == [s[0]] + rest[0];
        if |rest| > 1 {
          assert rest == [rest[0]] + rest[1..];
          assert Join(rest, sep) == rest[0] + [sep] + Join(rest[1..], sep);
          assert r[1..] == rest[1..];
        }
        forall i, k | 0 <= i < |r| && 0 <= k < |r[i]|
          ensures r[i][k] != sep
        {
          if i == 0 {
            if k > 0 {
              assert r[0][k] == rest[0][k - 1];
            }
          } else {
            assert r[i] == rest[i];
          }
        }
      }
    }
  }

  /** The value of one digit in base 16 (digits `0-9`, `a-f`, `A-F`), 16 or more for anything else. */
  function DigitValue(c: char): nat
  {
    if '0' <= c <= '9' then c as nat - '0' as nat
    else if 'a' <= c <= 'f' then c as nat - 'a' as nat + 10
    else if 'A' <= c <= 'F' then c as nat - 'A' as nat + 10
    else 99
  }

  /** Digits of `base`, with single underscores between them (the grammar `int` accepts after any prefix). */
  predicate Digits(s: string, base: nat)
  {
    |s| > 0 && DigitValue(s[0]) < base && DigitValue(s[|s| - 1]) < base
    && (forall i :: 0 <= i < |s| ==> DigitValue(s[i]) < base || s[i] == '_')
    && (forall i :: 0 <= i < |s| - 1 ==> !(s[i] == '_' && s[i + 1] == '_'))
  }

  /** The value of a digit string, the underscores skipped. */
  function DigitsValue(s: string, base: nat): nat
    decreases |s|
  {
    if |s| == 0 then 0
    else if s[|s| - 1] == '_' then DigitsValue(s[..|s| - 1], base)
    else DigitsValue(s[..|s| - 1], base) * base + DigitValue(s[|s| - 1])
  }

  /** The whitespace `int` skips on both sides of a number. */
  function TrimSpace(s: string): string
  {
    Strip(s, IsSpace)
  }

  /** After the optional `0x` / `0X` of base 16, one underscore may follow. */
  function DropPrefix(u: string, base: nat): string
  {
    if base == 16 && |u| >= 2 && u[0] == '0' && (u[1] == 'x' || u[1] == 'X') then
      var v := u[2..];
      if |v| > 0 && v[0] == '_' then v[1..] else v
    else u
  }

  /**
   * `int(text, base)` for base 10 or 16: surrounding whitespace, an
   * optional sign, for base 16 an optional `0x` prefix, then digits with
   * single underscores between them; anything else is a ValueError (None).
   */
  function ParseInt(text: string, base: nat): (r: Option<int>)
    requires base == 10 || base == 16
  {
    var t := TrimSpace(text);
    var neg := |t| > 0 && t[0] == '-';
    var u := if |t| > 0 && (t[0] == '-' || t[0] == '+') then t[1..] else t;
    var v := DropPrefix(u, base);
    var n: int := DigitsValue(v, base);
    if !Digits(v, base) then None
    else if neg then Some(-n)
    else Some(n)
  }

  /** `str(n)`: the decimal digits of a natural, most significant first. */
  function DecimalString(n: nat): (s: string)
    ensures |s| > 0 && forall i :: 0 <= i < |s| ==> IsDigit(s[i])
  {
    if n < 10 then [('0' as int + n) as char]
    else DecimalString(n / 10) + [('0' as int + n % 10) as char]
  }

  /** The digits of `str(n)` are worth `n`. */
  lemma {:induction false} DecimalValue(n: nat)
    ensures DigitsValue(DecimalString(n), 10) == n
  {
    var s := DecimalString(n);
    if n >= 10 {
      DecimalValue(n / 10);
      assert s[..|s| - 1] == DecimalString(n / 10);
    }
  }

  /** Stripping leaves a string alone when neither end is to be dropped. */
  lemma StripNone(s: string, drop: char -> bool)
    requires |s| > 0 && !drop(s[0]) && !drop(s[|s| - 1])
    ensures Strip(s, drop) == s
  {
    assert StripLeft(s, drop) == s;
  }

  /** A string of decimal digits is a valid `int` and is worth its digits. */
  lemma NumericParses(s: string)
    requires IsNumeric(s)
    ensures ParseInt(s, 10) == Some(DigitsValue(s, 10))
  {
    StripNone(s, IsSpace);
    assert s[0] != '-' && s[0] != '+';
    assert DropPrefix(s, 10) == s;
    assert forall i :: 0 <= i < |s| ==> DigitValue(s[i]) < 10;
    assert Digits(s, 10);
  }

  /** A string of hexadecimal digits without a `0x` prefix is a valid base-16 `int` worth its digits. */
  lemma HexParses(s: string)
    requires |s| > 0 && forall i :: 0 <= i < |s| ==> DigitValue(s[i]) < 16
    requires !(|s| >= 2 && s[0] == '0' && (s[1] == 'x' || s[1] == 'X'))
    ensures ParseInt(s, 16) == Some(DigitsValue(s, 16))
  {
    assert DigitValue(s[0]) < 16 && DigitValue(s[|s| - 1]) < 16;
    StripNone(s, IsSpace);
    assert DropPrefix(s, 16) == s;
    assert Digits(s, 16);
  }

  /** `int("0x" + s, 16)` drops the prefix and is worth the hexadecimal digits after it. */
  lemma HexPrefixParses(s: string)
    requires |s| > 0 && forall i :: 0 <= i < |s| ==> DigitValue(s[i]) < 16
    ensures ParseInt("0x" + s, 16) == Some(DigitsValue(s, 16))
  {
    assert DigitValue(s[0]) < 16 && DigitValue(s[|s| - 1]) < 16;
    HexPrefixDropped(s);
    ParseUnsigned("0x" + s, 16);
    assert Digits(s, 16);
  }

  /** Without a sign, `int` reads the digits after the optional prefix. */
  lemma ParseUnsigned(text: string, base: nat)
    requires base == 10 || base == 16
    requires |TrimSpace(text)| > 0 && TrimSpace(text)[0] != '-' && TrimSpace(text)[0] != '+'
    ensures ParseInt(text, base) == if Digits(DropPrefix(TrimSpace(text), base), base)
                                      then Some(DigitsValue(DropPrefix(TrimSpace(text), base), base)) else None
  {
  }

  /** No whitespace around `"0x" + s` and no sign: `int` sees the prefix and drops it. */
  lemma HexPrefixDropped(s: string)
    requires |s| > 0 && DigitValue(s[0]) < 16 && DigitValue(s[|s| - 1]) < 16
    ensures TrimSpace("0x" + s) == "0x" + s && ("0x" + s)[0] == '0' && DropPrefix("0x" + s, 16) == s
  {
    var v := "0x" + s;
    assert v[0] == '0' && v[1] == 'x' && v[2..] == s;
    assert v[|v| - 1] == s[|s| - 1];
    StripNone(v, IsSpace);
  }

  /** Letters and digits without a `0x` or `0X` prefix are no base-16 `int` once one of them is no hexadecimal digit. */
  lemma HexRejects(s: string)
    requires IsAlnum(s) && !StartsWith(s, "0x") && !StartsWith(s, "0X")
    requires exists i :: 0 <= i < |s| && DigitValue(s[i]) >= 16
    ensures ParseInt(s, 16) == None
  {
    var i :| 0 <= i < |s| && DigitValue(s[i]) >= 16;
    assert IsAlpha(s[0]) || IsDigit(s[0]);
    assert IsAlpha(s[|s| - 1]) || IsDigit(s[|s| - 1]);
    StripNone(s, IsSpace);
    assert s[0] != '-' && s[0] != '+';
    assert |s| >= 2 ==> s[..2] == [s[0], s[1]];
    assert DropPrefix(s, 16) == s;
    assert s[i] != '_';
  }

  /** `int(str(n)) == n`: parsing a natural's decimal form gives it back. */
  lemma ParseDecimal(n: nat)
    ensures ParseInt(DecimalString(n), 10) == Some(n)
  {
    NumericParses(DecimalString(n));
    DecimalValue(n);
  }

  /** A string of `k` decimal digits is worth less than `10^k`. */
  lemma {:induction false} SmallDigits(s: string)
    requires forall i :: 0 <= i < |s| ==> IsDigit(s[i])
    ensures DigitsValue(s, 10) < Pow10(|s|)
    decreases |s|
  {
    if |s| > 0 {
      SmallDigits(s[..|s| - 1]);
    }
  }

  function Pow10(k: nat): nat
  {
    if k == 0 then 1 else 10 * Pow10(k - 1)
  }
}
