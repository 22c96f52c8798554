/**
 * The two pure helpers of img_utils/img2ebg.py: `color`, the argument type
 * of the `-t/--transparent` option, and `sorted_alphanumeric`, the natural
 * order in which the frames of a directory are read.
 */
module Img2Ebg {
  import opened Wrappers
  import opened PyStr
  import opened Ebg

  // `color`.

  /** What `color` returns: an RGB565-decoded triple, or a list of channel values. */
  datatype ColorValue = HexColor(rgb: Rgb) | ListColor(values: seq<int>)

  /** The `int` of a bad token (ValueError), or no branch matching (ArgumentTypeError). */
  datatype ColorError = ValueError | ArgumentTypeError

  predicate IsParen(c: char)
  {
    c == '(' || c == ')'
  }

  predicate IsHash(c: char)
  {
    c == '#'
  }

  /** The non-empty strings among `pieces`, in order. */
  function NonEmpty(pieces: seq<string>): (r: seq<string>)
    ensures forall i :: 0 <= i < |r| ==> |r[i]| > 0
    ensures |r| <= |pieces|
  {
    if |pieces| == 0 then []
    else (if |pieces[0]| > 0 then [pieces[0]] else []) + NonEmpty(pieces[1..])
  }

  /** `for d1 in pieces for d2 in d1.split(' ') if len(d2) > 0`. */
  function SpaceTokens(pieces: seq<string>): seq<string>
  {
    if |pieces| == 0 then [] else NonEmpty(Split(pieces[0], ' ')) + SpaceTokens(pieces[1..])
  }

  /** The tokens of a channel list: outer parentheses stripped, split on `','`, then on `' '`, empty ones dropped. */
  function Tokens(value: string): seq<string>
  {
    SpaceTokens(Split(Strip(value, IsParen), ','))
  }

  /** `int(d)` of every token, or a ValueError if one is not an integer. */
  function ParseAll(tokens: seq<string>, parse: string -> Option<int>): (r: Option<seq<int>>)
    ensures r.Some? ==> |r.value| == |tokens|
  {
    if |tokens| == 0 then Some([])
    else match parse(tokens[0])
      case None => None
      case Some(v) =>
        match ParseAll(tokens[1..], parse)
        case None => None
        case Some(vs) => Some([v] + vs)
  }

  /** `int(d2)`. */
  function Decimal(token: string): Option<int>
  {
    ParseInt(token, 10)
  }

  /** `Utils.rgb565_to_rgb(int(text, 16))`. */
  function HexValue(text: string): Result<ColorValue, ColorError>
  {
    match ParseInt(text, 16)
    case None => Err(ValueError)
    case Some(v) => Ok(HexColor(Rgb565ToRgb(Low16(v))))
  }

  /** `[int(d2) for d1 in ... for d2 in ... if len(d2) > 0]`. */
  function ListValue(value: string): Result<ColorValue, ColorError>
  {
    match ParseAll(Tokens(value), Decimal)
    case None => Err(ValueError)
    case Some(vs) => Ok(ListColor(vs))
  }

  /** `[int(value) for i in range(3)]`. */
  function GrayValue(value: string): Result<ColorValue, ColorError>
  {
    match ParseInt(value, 10)
    case None => Err(ValueError)
    case Some(v) => Ok(ListColor([v, v, v]))
  }

  /**
   * `color(value)`: hexadecimal after `#` or `0x`; a list of integers when
   * there is a comma or a space; a gray triple for a number of at most
   * three digits; hexadecimal for any other letters and digits; an
   * ArgumentTypeError for everything else. The branches are tried in
   * this order.
   */
  function Color(value: string): Result<ColorValue, ColorError>
  {
    if StartsWith(value, "#") || StartsWith(value, "0x") then
      HexValue(Strip(value, IsHash))
    else if ',' in value || ' ' in value then
      ListValue(value)
    else if IsNumeric(value) && |value| <= 3 then
      GrayValue(value)
    else if IsAlnum(value) then
      HexValue(value)
    else
      Err(ArgumentTypeError)
  }

  /**
   * `color` rejects a value as an invalid colour exactly when it has
   * no `#` or `0x` prefix, no comma, no space, and is not made of letters
   * and digits.
   */
  lemma ColorRejects(value: string)
    ensures Color(value) == Err(ArgumentTypeError)
            <==> !StartsWith(value, "#") && !StartsWith(value, "0x") && ',' !in value && ' ' !in value && !IsAlnum(value)
  {
    if IsNumeric(value) && |value| <= 3 {
      assert IsAlnum(value);
    }
  }

  /** A number of at most three digits is the gray triple of its value, which is below 1000. */
  lemma ColorGray(value: string)
    requires IsNumeric(value) && |value| <= 3
    ensures DigitsValue(value, 10) < 1000
    ensures Color(value) == Ok(ListColor([DigitsValue(value, 10), DigitsValue(value, 10), DigitsValue(value, 10)]))
  {
    GrayBranch(value);
    NumericParses(value);
    GrayBound(value);
  }

  /** At most three digits are worth less than 1000. */
  lemma GrayBound(value: string)
    requires IsNumeric(value) && |value| <= 3
    ensures DigitsValue(value, 10) < 1000
  {
    SmallDigits(value);
    assert Pow10(1) == 10 && Pow10(2) == 100 && Pow10(3) == 1000;
  }

  /** A number of at most three digits reaches the gray branch of `color`. */
  lemma GrayBranch(value: string)
    requires IsNumeric(value) && |value| <= 3
    ensures Color(value) == GrayValue(value)
  {
    assert !StartsWith(value, "#") by {
      assert IsDigit(value[0]);
    }
    assert !StartsWith(value, "0x") by {
      if |value| >= 2 {
        assert IsDigit(value[1]);
      }
    }
    assert ',' !in value && ' ' !in value by {
      assert forall i :: 0 <= i < |value| ==> IsDigit(value[i]);
    }
  }

  /** A string with every `sep` taken out. */
  function Without(s: string, sep: char): string
  {
    if |s| == 0 then [] else (if s[0] == sep then [] else [s[0]]) + Without(s[1..], sep)
  }

  /** The strings one after the other. */
  function Concat(pieces: seq<string>): string
  {
    if |pieces| == 0 then [] else pieces[0] + Concat(pieces[1..])
  }

  lemma {:induction false} ConcatAppend(a: seq<string>, b: seq<string>)
    ensures Concat(a + b) == Concat(a) + Concat(b)
    decreases |a|
  {
    if |a| > 0 {
      assert (a + b)[1..] == a[1..] + b;
      ConcatAppend(a[1..], b);
    } else {
      assert a + b == b;
    }
  }

  lemma {:induction false} WithoutAppend(a: string, b: string, sep: char)
    ensures Without(a + b, sep) == Without(a, sep) + Without(b, sep)
    decreases |a|
  {
    if |a| > 0 {
      assert (a + b)[1..] == a[1..] + b;
      WithoutAppend(a[1..], b, sep);
    } else {
      assert a + b == b;
    }
  }

  /** A string without `sep` is left alone. */
  lemma {:induction false} WithoutNone(s: string, sep: char)
    requires forall i :: 0 <= i < |s| ==> s[i] != sep
    ensures Without(s, sep) == s
    decreases |s|
  {
    if |s| > 0 {
      WithoutNone(s[1..], sep);
    }
  }

  /**
   * The non-empty pieces of a split hold no separator, and one after the
   * other they are the string with its separators taken out.
   */
  lemma SplitPieces(s: string, sep: char)
    ensures forall i, k :: 0 <= i < |NonEmpty(Split(s, sep))| && 0 <= k < |NonEmpty(Split(s, sep))[i]|
              ==> NonEmpty(Split(s, sep))[i][k] != sep
    ensures Concat(NonEmpty(Split(s, sep))) == Without(s, sep)
  {
    SplitJoin(s, sep);
    NonEmptyFrom(Split(s, sep));
    SplitConcat(s, sep);
  }

  /** The non-empty pieces of a split, one after the other, are the string without its separators. */
  lemma {:induction false} SplitConcat(s: string, sep: char)
    ensures Concat(NonEmpty(Split(s, sep))) == Without(s, sep)
    decreases |s|
  {
    if |s| > 0 {
      var rest := Split(s[1..], sep);
      SplitConcat(s[1..], sep);
      if s[0] == sep {
        assert Split(s, sep) == [""] + rest;
        NonEmptyCons("", rest);
        assert NonEmpty(Split(s, sep)) == NonEmpty(rest);
        assert Without(s, sep) == Without(s[1..], sep);
      } else {
        SplitConcatStep(s, sep, rest);
      }
    }
  }

  /** The step of `SplitConcat` where the string starts with a character that is kept. */
  lemma SplitConcatStep(s: string, sep: char, rest: seq<string>)
    requires |s| > 0 && s[0] != sep && rest == Split(s[1..], sep)
    requires Concat(NonEmpty(rest)) == Without(s[1..], sep)
    ensures Concat(NonEmpty(Split(s, sep))) == Without(s, sep)
  {
    var head := [s[0]] + rest[0];
    var more := NonEmpty(rest[1..]);
    calc {
      Concat(NonEmpty(Split(s, sep)));
      { assert Split(s, sep) == [head] + rest[1..]; NonEmptyCons(head, rest[1..]); }
      Concat([head] + more);
      { ConcatCons(head, more); }
      head + Concat(more);
      [s[0]] + (rest[0] + Concat(more));
      { assert rest == [rest[0]] + rest[1..]; NonEmptyCons(rest[0], rest[1..]); ConcatMaybe(rest[0], more); }
      [s[0]] + Concat(NonEmpty(rest));
      [s[0]] + Without(s[1..], sep);
      Without(s, sep);
    }
  }

  lemma NonEmptyCons(p: string, ps: seq<string>)
    ensures NonEmpty([p] + ps) == (if |p| > 0 then [p] else []) + NonEmpty(ps)
  {
    assert ([p] + ps)[1..] == ps;
  }

  lemma ConcatCons(p: string, ps: seq<string>)
    ensures Concat([p] + ps) == p + Concat(ps)
  {
    assert ([p] + ps)[1..] == ps;
  }

  /** Dropping an empty piece does not change the concatenation. */
  lemma ConcatMaybe(p: string, ps: seq<string>)
    ensures Concat((if |p| > 0 then [p] else []) + ps) == p + Concat(ps)
  {
    if |p| > 0 {
      ConcatCons(p, ps);
    } else {
      var none: seq<string> := [];
      assert none + ps == ps;
      assert p + Concat(ps) == Concat(ps);
    }
  }

  /** Every string `NonEmpty` keeps is one of the pieces. */
  lemma {:induction false} NonEmptyFrom(pieces: seq<string>)
    ensures forall i :: 0 <= i < |NonEmpty(pieces)| ==> NonEmpty(pieces)[i] in pieces
    decreases |pieces|
  {
    if |pieces| > 0 {
      NonEmptyFrom(pieces[1..]);
    }
  }

  /** Splitting every piece on spaces: the tokens hold no space, and together they are the pieces without spaces. */
  lemma {:induction false} SpaceTokensPieces(pieces: seq<string>)
    ensures forall i, k :: 0 <= i < |SpaceTokens(pieces)| && 0 <= k < |SpaceTokens(pieces)[i]|
              ==> SpaceTokens(pieces)[i][k] != ' '
    ensures forall i :: 0 <= i < |SpaceTokens(pieces)| ==> |SpaceTokens(pieces)[i]| > 0
    ensures Concat(SpaceTokens(pieces)) == Without(Concat(pieces), ' ')
    decreases |pieces|
  {
    if |pieces| > 0 {
      SpaceTokensPieces(pieces[1..]);
      SplitPieces(pieces[0], ' ');
      var first := NonEmpty(Split(pieces[0], ' '));
      ConcatAppend(first, SpaceTokens(pieces[1..]));
      WithoutAppend(pieces[0], Concat(pieces[1..]), ' ');
      var all := SpaceTokens(pieces);
      assert all == first + SpaceTokens(pieces[1..]);
      forall i, k | 0 <= i < |all| && 0 <= k < |all[i]|
        ensures all[i][k] != ' '
      {
        if i >= |first| {
          assert all[i] == SpaceTokens(pieces[1..])[i - |first|];
        }
      }
    }
  }

  /** Joined with commas, pieces without commas lose exactly the commas. */
  lemma {:induction false} JoinWithout(pieces: seq<string>, sep: char)
    requires |pieces| > 0
    requires forall i, k :: 0 <= i < |pieces| && 0 <= k < |pieces[i]| ==> pieces[i][k] != sep
    ensures Without(Join(pieces, sep), sep) == Concat(pieces)
    decreases |pieces|
  {
    WithoutNone(pieces[0], sep);
    if |pieces| > 1 {
      JoinWithout(pieces[1..], sep);
      WithoutAppend(pieces[0] + [sep], Join(pieces[1..], sep), sep);
      WithoutAppend(pieces[0], [sep], sep);
      assert Concat(pieces) == pieces[0] + Concat(pieces[1..]);
    } else {
      assert Concat(pieces) == pieces[0] + Concat(pieces[1..]);
    }
  }

  /**
   * The tokens of a channel list are non-empty, hold no comma and no
   * space, and one after the other they are the value with its outer
   * parentheses stripped and every comma and space taken out.
   */
  lemma TokensOf(value: string)
    ensures forall i :: 0 <= i < |Tokens(value)| ==> |Tokens(value)[i]| > 0
    ensures forall i, k :: 0 <= i < |Tokens(value)| && 0 <= k < |Tokens(value)[i]|
              ==> Tokens(value)[i][k] != ',' && Tokens(value)[i][k] != ' '
    ensures Concat(Tokens(value)) == Without(Without(Strip(value, IsParen), ','), ' ')
  {
    var t := Strip(value, IsParen);
    var pieces := Split(t, ',');
    SplitJoin(t, ',');
    JoinWithout(pieces, ',');
    SpaceTokensPieces(pieces);
    forall i, k | 0 <= i < |Tokens(value)| && 0 <= k < |Tokens(value)[i]|
      ensures Tokens(value)[i][k] != ','
    {
      SpaceTokensFrom(pieces, i, k);
    }
  }

  /** Every character of a space token comes from one of the pieces. */
  lemma {:induction false} SpaceTokensFrom(pieces: seq<string>, i: nat, k: nat)
    requires i < |SpaceTokens(pieces)| && k < |SpaceTokens(pieces)[i]|
    ensures exists a, b :: 0 <= a < |pieces| && 0 <= b < |pieces[a]| && pieces[a][b] == SpaceTokens(pieces)[i][k]
    decreases |pieces|
  {
    var first := NonEmpty(Split(pieces[0], ' '));
    var all := SpaceTokens(pieces);
    assert all == first + SpaceTokens(pieces[1..]);
    if i < |first| {
      NonEmptyFrom(Split(pieces[0], ' '));
      SplitJoin(pieces[0], ' ');
      JoinHas(Split(pieces[0], ' '), ' ', first[i], k);
    } else {
      SpaceTokensFrom(pieces[1..], i - |first|, k);
      var a, b :| 0 <= a < |pieces[1..]| && 0 <= b < |pieces[1..][a]| && pieces[1..][a][b] == all[i][k];
      assert pieces[a + 1][b] == all[i][k];
    }
  }

  /** Every character of a piece is a character of the joined string. */
  lemma {:induction false} JoinHas(pieces: seq<string>, sep: char, p: string, k: nat)
    requires |pieces| > 0 && p in pieces && k < |p|
    ensures exists b :: 0 <= b < |Join(pieces, sep)| && Join(pieces, sep)[b] == p[k]
    decreases |pieces|
  {
    var j := Join(pieces, sep);
    if pieces[0] == p {
      assert j[k] == p[k];
    } else {
      assert p in pieces[1..];
      JoinHas(pieces[1..], sep, p, k);
      var b :| 0 <= b < |Join(pieces[1..], sep)| && Join(pieces[1..], sep)[b] == p[k];
      assert j[|pieces[0]| + 1 + b] == p[k];
    }
  }

  /** `ParseAll` succeeds exactly when every token is an integer, and then gives their values in order. */
  lemma {:induction false} ParseAllEach(tokens: seq<string>, parse: string -> Option<int>)
    ensures ParseAll(tokens, parse).Some? <==> forall i :: 0 <= i < |tokens| ==> parse(tokens[i]).Some?
    ensures ParseAll(tokens, parse).Some? ==> forall i :: 0 <= i < |tokens| ==> parse(tokens[i]) == Some(ParseAll(tokens, parse).value[i])
    decreases |tokens|
  {
    if |tokens| > 0 {
      var rest := tokens[1..];
      ParseAllEach(rest, parse);
      assert forall i :: 1 <= i < |tokens| ==> tokens[i] == rest[i - 1];
    }
  }

  /**
   * A value with a comma or a space (and no `#` or `0x` prefix) is a list
   * exactly when every token is an integer, and the list holds their values.
   */
  lemma ColorList(value: string)
    requires !StartsWith(value, "#") && !StartsWith(value, "0x")
    requires ',' in value || ' ' in value
    ensures Color(value).Ok? <==> forall i :: 0 <= i < |Tokens(value)| ==> Decimal(Tokens(value)[i]).Some?
    ensures Color(value).Ok? ==> Color(value).value.ListColor?
    ensures Color(value).Ok? ==> |Color(value).value.values| == |Tokens(value)|
    ensures Color(value).Ok? ==> forall i :: 0 <= i < |Tokens(value)| ==> Decimal(Tokens(value)[i]) == Some(Color(value).value.values[i])
  {
    ParseAllEach(Tokens(value), Decimal);
  }

  /** A `#` followed by hexadecimal digits is the colour of the RGB565 word they spell. */
  lemma ColorHash(digits: string)
    requires |digits| > 0 && forall i :: 0 <= i < |digits| ==> DigitValue(digits[i]) < 16
    ensures Color("#" + digits) == Ok(HexColor(Rgb565ToRgb(Low16(DigitsValue(digits, 16)))))
  {
    var v := "#" + digits;
    assert v[..1] == "#";
    assert v[1..] == digits;
    assert DigitValue(digits[0]) < 16 && DigitValue(digits[|digits| - 1]) < 16;
    assert StripLeft(digits, IsHash) == digits;
    assert StripLeft(v, IsHash) == digits;
    assert Strip(v, IsHash) == digits;
    HexParses(digits);
  }

  /** `0x` followed by hexadecimal digits is the colour of the RGB565 word they spell: `int` drops the prefix. */
  lemma ColorHex0x(digits: string)
    requires |digits| > 0 && forall i :: 0 <= i < |digits| ==> DigitValue(digits[i]) < 16
    ensures Color("0x" + digits) == Ok(HexColor(Rgb565ToRgb(Low16(DigitsValue(digits, 16)))))
  {
    var v := "0x" + digits;
    assert v[..2] == "0x";
    assert DigitValue(digits[|digits| - 1]) < 16;
    assert v[|v| - 1] == digits[|digits| - 1];
    StripNone(v, IsHash);
    assert Color(v) == HexValue(v);
    HexPrefixParses(digits);
  }

  /**
   * A value of letters and digits (not a short number, no `0x` or `0X`
   * prefix) is a colour exactly when all of it is hexadecimal digits, and
   * then it is the colour of the RGB565 word they spell.
   */
  lemma ColorAlnum(value: string)
    requires !StartsWith(value, "0x") && !StartsWith(value, "0X")
    requires IsAlnum(value) && !(IsNumeric(value) && |value| <= 3)
    ensures Color(value).Ok? <==> forall i :: 0 <= i < |value| ==> DigitValue(value[i]) < 16
    ensures Color(value).Ok? ==> Color(value) == Ok(HexColor(Rgb565ToRgb(Low16(DigitsValue(value, 16)))))
  {
    AlnumBranch(value);
    HexValueOf(value);
  }

  /** `HexValue` succeeds exactly on hexadecimal digits, giving the colour of the word they spell. */
  lemma HexValueOf(value: string)
    requires !StartsWith(value, "0x") && !StartsWith(value, "0X") && IsAlnum(value)
    ensures HexValue(value).Ok? <==> forall i :: 0 <= i < |value| ==> DigitValue(value[i]) < 16
    ensures HexValue(value).Ok? ==> HexValue(value) == Ok(HexColor(Rgb565ToRgb(Low16(DigitsValue(value, 16)))))
  {
    if forall i :: 0 <= i < |value| ==> DigitValue(value[i]) < 16 {
      HexValueOk(value);
    } else {
      HexRejects(value);
      assert HexValue(value) == Err(ValueError);
    }
  }

  lemma HexValueOk(value: string)
    requires |value| > 0 && forall i :: 0 <= i < |value| ==> DigitValue(value[i]) < 16
    ensures HexValue(value) == Ok(HexColor(Rgb565ToRgb(Low16(DigitsValue(value, 16)))))
  {
    assert |value| >= 2 ==> DigitValue(value[1]) < 16;
    HexParses(value);
  }

  /** Letters and digits reach the last branch of `color`. */
  lemma AlnumBranch(value: string)
    requires !StartsWith(value, "0x") && IsAlnum(value) && !(IsNumeric(value) && |value| <= 3)
    ensures Color(value) == HexValue(value)
  {
    assert !StartsWith(value, "#") by {
      assert IsAlpha(value[0]) || IsDigit(value[0]);
    }
    assert ',' !in value && ' ' !in value by {
      assert forall i :: 0 <= i < |value| ==> value[i] != ',' && value[i] != ' ';
    }
  }

  /** A short number is a gray level. */
  lemma ColorGrayExample()
    ensures Color("7") == Ok(ListColor([7, 7, 7]))
  {
    ColorGray("7");
    assert "7"[..0] == "";
  }

  // `sorted_alphanumeric`.

  /** One element of a sort key: a lower-cased text or the integer of a digit run. */
  datatype Piece = Text(text: string) | Num(n: nat)

  /** The length of the leading run of non-digits. */
  function TextRun(s: string): (n: nat)
    ensures n <= |s|
    decreases |s|
  {
    if |s| == 0 || IsDigit(s[0]) then 0 else 1 + TextRun(s[1..])
  }

  /** The length of the leading run of digits. */
  function DigitRun(s: string): (n: nat)
    ensures n <= |s|
    decreases |s|
  {
    if |s| == 0 || !IsDigit(s[0]) then 0 else 1 + DigitRun(s[1..])
  }

  /** `TextRun` stops at the first digit. */
  lemma {:induction false} TextRunSpec(s: string)
    ensures forall i :: 0 <= i < TextRun(s) ==> !IsDigit(s[i])
    ensures TextRun(s) < |s| ==> IsDigit(s[TextRun(s)])
    decreases |s|
  {
    if |s| > 0 && !IsDigit(s[0]) {
      TextRunSpec(s[1..]);
      assert forall i :: 1 <= i < |s| ==> s[i] == s[1..][i - 1];
    }
  }

  /** `DigitRun` stops at the first non-digit. */
  lemma {:induction false} DigitRunSpec(s: string)
    ensures forall i :: 0 <= i < DigitRun(s) ==> IsDigit(s[i])
    ensures DigitRun(s) < |s| ==> !IsDigit(s[DigitRun(s)])
    decreases |s|
  {
    if |s| > 0 && IsDigit(s[0]) {
      DigitRunSpec(s[1..]);
      assert forall i :: 1 <= i < |s| ==> s[i] == s[1..][i - 1];
    }
  }

  /**
   * `re.split('([0-9]+)', s)`: the text between digit runs and, because
   * the group captures, the runs themselves.
   */
  function ReSplit(s: string): (r: seq<string>)
    ensures |r| > 0
    decreases |s|
  {
    var t := TextRun(s);
    if t == |s| then [s]
    else
      var d := t + DigitRun(s[t..]);
      [s[..t], s[t..d]] + ReSplit(s[d..])
  }

  /** The pieces of `ReSplit` give the string back one after the other. */
  lemma {:induction false} ReSplitConcat(s: string)
    ensures Concat(ReSplit(s)) == s
    decreases |s|
  {
    var t := TextRun(s);
    if t < |s| {
      var d := t + DigitRun(s[t..]);
      ReSplitStep(s, t, d);
      ConcatPairs(s[..t], s[t..d], ReSplit(s[d..]));
      ReSplitConcat(s[d..]);
      SliceThree(s, t, d);
    }
  }

  /** One step of `ReSplit`: a text, a digit run, and the split of the rest. */
  lemma ReSplitStep(s: string, t: nat, d: nat)
    requires t == TextRun(s) < |s| && d == t + DigitRun(s[t..])
    ensures ReSplit(s) == [s[..t], s[t..d]] + ReSplit(s[d..])
  {
  }

  lemma ConcatPairs(a: string, b: string, rest: seq<string>)
    ensures Concat([a, b] + rest) == a + b + Concat(rest)
  {
    ConcatAppend([a, b], rest);
    ConcatPair(a, b);
  }

  lemma SliceThree(s: string, t: nat, d: nat)
    requires t <= d <= |s|
    ensures s[..t] + s[t..d] + s[d..] == s
  {
  }

  /** `re.split` with one capturing group returns an odd number of pieces. */
  lemma {:induction false} ReSplitOdd(s: string)
    ensures |ReSplit(s)| % 2 == 1
    decreases |s|
  {
    var t := TextRun(s);
    if t < |s| {
      var d := t + DigitRun(s[t..]);
      ReSplitStep(s, t, d);
      ReSplitOdd(s[d..]);
      OddPlusTwo(|ReSplit(s[d..])|);
    }
  }

  lemma OddPlusTwo(n: nat)
    requires n % 2 == 1
    ensures (2 + n) % 2 == 1
  {
  }

  lemma ConcatPair(a: string, b: string)
    ensures Concat([a, b]) == a + b
  {
    assert [a, b][1..] == [b];
    assert [b][1..] == [];
    assert Concat([b]) == b + Concat([]);
    assert b + [] == b;
  }

  /** A piece of text with no digit in it. */
  predicate NoDigits(p: string)
  {
    forall k :: 0 <= k < |p| ==> !IsDigit(p[k])
  }

  /** The even pieces of `ReSplit` hold no digit and the odd ones are runs of digits. */
  lemma {:induction false} ReSplitKinds(s: string)
    ensures forall i :: 0 <= i < |ReSplit(s)| && i % 2 == 0 ==> NoDigits(ReSplit(s)[i])
    ensures forall i :: 0 <= i < |ReSplit(s)| && i % 2 == 1 ==> IsNumeric(ReSplit(s)[i])
    decreases |s|
  {
    var t := TextRun(s);
    TextRunSpec(s);
    if t < |s| {
      var d := t + DigitRun(s[t..]);
      DigitRunSpec(s[t..]);
      var rest := ReSplit(s[d..]);
      ReSplitKinds(s[d..]);
      var r := ReSplit(s);
      assert r == [s[..t], s[t..d]] + rest;
      assert NoDigits(r[0]) && IsNumeric(r[1]);
      forall i | 2 <= i < |r|
        ensures r[i] == rest[i - 2] && (i - 2) % 2 == i % 2
      {
      }
    } else {
      assert NoDigits(ReSplit(s)[0]);
    }
  }

  /** `convert`: a digit string becomes its integer, anything else its lower-case text. */
  function Convert(text: string): Piece
  {
    if IsNumeric(text) then Num(DigitsValue(text, 10)) else Text(Lower(text))
  }

  /** `alphanum_key`: the converted pieces of `re.split('([0-9]+)', s)`. */
  function Key(s: string): (k: seq<Piece>)
    ensures |k| == |ReSplit(s)|
  {
    var ps := ReSplit(s);
    seq(|ps|, i requires 0 <= i < |ps| => Convert(ps[i]))
  }

  /**
   * A key alternates texts and integers, starting and ending with a text,
   * so two keys compared element by element only ever compare a text with
   * a text and an integer with an integer.
   */
  lemma KeyAlternates(s: string)
    ensures |Key(s)| % 2 == 1
    ensures forall i :: 0 <= i < |Key(s)| ==> (Key(s)[i].Num? <==> i % 2 == 1)
  {
    ReSplitOdd(s);
    ReSplitKinds(s);
    var ps := ReSplit(s);
    forall i | 0 <= i < |ps| && i % 2 == 0
      ensures !IsNumeric(ps[i])
    {
      if |ps[i]| > 0 {
        assert !IsDigit(ps[i][0]);
      }
    }
  }

  /** Two keys agree in kind at every position both have. */
  lemma KeysComparable(s: string, u: string, i: nat)
    requires i < |Key(s)| && i < |Key(u)|
    ensures Key(s)[i].Num? == Key(u)[i].Num?
  {
    KeyAlternates(s);
    KeyAlternates(u);
  }

  /**
   * Python's `<` on sequences: decided at the first position where the
   * elements differ, and otherwise the shorter one is smaller.
   */
  function Lex<T(==)>(a: seq<T>, b: seq<T>, less: (T, T) -> bool): bool
    decreases |a|
  {
    if |a| == 0 then |b| > 0
    else if |b| == 0 then false
    else if a[0] != b[0] then less(a[0], b[0])
    else Lex(a[1..], b[1..], less)
  }

  /** `less` is a strict total order. */
  ghost predicate StrictTotal<T(!new)>(less: (T, T) -> bool)
  {
    (forall x, y :: less(x, y) ==> !less(y, x))
    && (forall x, y, z :: less(x, y) && less(y, z) ==> less(x, z))
    && (forall x, y :: x == y || less(x, y) || less(y, x))
  }

  /** The lexicographic order of a strict total order is a strict total order. */
  lemma LexStrictTotal<T(!new)>(less: (T, T) -> bool)
    requires StrictTotal(less)
    ensures StrictTotal((a: seq<T>, b: seq<T>) => Lex(a, b, less))
  {
    forall a: seq<T>, b: seq<T> | Lex(a, b, less)
      ensures !Lex(b, a, less)
    {
      LexAsym(a, b, less);
    }
    forall a: seq<T>, b: seq<T>, c: seq<T> | Lex(a, b, less) && Lex(b, c, less)
      ensures Lex(a, c, less)
    {
      LexTrans(a, b, c, less);
    }
    forall a: seq<T>, b: seq<T>
      ensures a == b || Lex(a, b, less) || Lex(b, a, less)
    {
      LexTotal(a, b, less);
    }
  }

  lemma {:induction false} LexAsym<T(!new)>(a: seq<T>, b: seq<T>, less: (T, T) -> bool)
    requires StrictTotal(less) && Lex(a, b, less)
    ensures !Lex(b, a, less)
    decreases |a|
  {
    if |a| > 0 && |b| > 0 && a[0] == b[0] {
      LexAsym(a[1..], b[1..], less);
    }
  }

  lemma {:induction false} LexTrans<T(!new)>(a: seq<T>, b: seq<T>, c: seq<T>, less: (T, T) -> bool)
    requires StrictTotal(less) && Lex(a, b, less) && Lex(b, c, less)
    ensures Lex(a, c, less)
    decreases |a|
  {
    if |a| > 0 && |c| > 0 && a[0] == b[0] && b[0] == c[0] {
      LexTrans(a[1..], b[1..], c[1..], less);
    }
  }

  lemma {:induction false} LexTotal<T(!new)>(a: seq<T>, b: seq<T>, less: (T, T) -> bool)
    requires StrictTotal(less)
    ensures a == b || Lex(a, b, less) || Lex(b, a, less)
    decreases |a|
  {
    if |a| > 0 && |b| > 0 && a[0] == b[0] {
      LexTotal(a[1..], b[1..], less);
      if a[1..] == b[1..] {
        assert a == [a[0]] + a[1..] && b == [b[0]] + b[1..];
      }
    }
  }

  /** Python's `<` on characters: by code point. */
  function CharLess(x: char, y: char): bool
  {
    x < y
  }

  /** Python's `<` on strings. */
  function StrLess(a: string, b: string): bool
  {
    Lex(a, b, CharLess)
  }

  /**
   * Python's `<` on two key elements: texts as strings, integers as
   * integers. Keys never put a text against an integer (KeyAlternates);
   * ordering texts first only makes this a total order.
   */
  function PieceLess(a: Piece, b: Piece): bool
  {
    match (a, b)
    case (Text(x), Text(y)) => StrLess(x, y)
    case (Num(m), Num(n)) => m < n
    case (Text(_), Num(_)) => true
    case (Num(_), Text(_)) => false
  }

  /** Python's `<` on two keys. */
  function KeyLess(a: seq<Piece>, b: seq<Piece>): bool
  {
    Lex(a, b, PieceLess)
  }

  lemma PieceStrictTotal()
    ensures StrictTotal(PieceLess)
  {
    assert StrictTotal(CharLess);
    LexStrictTotal(CharLess);
    assert forall x: string, y: string :: StrLess(x, y) == ((a: seq<char>, b: seq<char>) => Lex(a, b, CharLess))(x, y);
  }

  /** Comparing keys is a strict total order. */
  lemma KeyStrictTotal()
    ensures StrictTotal(KeyLess)
  {
    PieceStrictTotal();
    LexStrictTotal(PieceLess);
    assert forall x: seq<Piece>, y: seq<Piece> :: KeyLess(x, y) == ((a: seq<Piece>, b: seq<Piece>) => Lex(a, b, PieceLess))(x, y);
  }

  /** Comparing keys is asymmetric, and when `a` is below `c` every `b` is above `a` or below `c`. */
  lemma KeyOrder(a: seq<Piece>, b: seq<Piece>, c: seq<Piece>)
    ensures KeyLess(a, b) ==> !KeyLess(b, a)
    ensures KeyLess(a, c) ==> KeyLess(a, b) || KeyLess(b, c)
  {
    PieceStrictTotal();
    if KeyLess(a, b) {
      LexAsym(a, b, PieceLess);
    }
    if KeyLess(a, c) && !KeyLess(a, b) && !KeyLess(b, c) {
      LexTotal(a, b, PieceLess);
      LexTotal(b, c, PieceLess);
      if Lex(b, a, PieceLess) && Lex(c, b, PieceLess) {
        LexTrans(c, b, a, PieceLess);
        LexAsym(a, c, PieceLess);
      }
    }
  }

  /** Text without digits followed by a run of digits splits into the text, the run and an empty text. */
  lemma SplitTextNumber(p: string, d: string)
    requires forall i :: 0 <= i < |p| ==> !IsDigit(p[i])
    requires IsNumeric(d)
    ensures ReSplit(p + d) == [p, d, ""]
  {
    var s := p + d;
    TextRunBefore(p, d);
    DigitRunAll(d);
    assert s[|p|..] == d;
    ReSplitStep(s, |p|, |p| + |d|);
    assert s[..|p|] == p && s[|p|..|p| + |d|] == d && s[|p| + |d|..] == "";
  }

  /** The leading text of `p + d` is all of `p` when `p` has no digit and `d` starts with one. */
  lemma {:induction false} TextRunBefore(p: string, d: string)
    requires forall i :: 0 <= i < |p| ==> !IsDigit(p[i])
    requires |d| > 0 && IsDigit(d[0])
    ensures TextRun(p + d) == |p|
    decreases |p|
  {
    if |p| > 0 {
      assert (p + d)[1..] == p[1..] + d;
      TextRunBefore(p[1..], d);
    }
  }

  /** A run of digits is its own leading digit run. */
  lemma {:induction false} DigitRunAll(d: string)
    requires forall i :: 0 <= i < |d| ==> IsDigit(d[i])
    ensures DigitRun(d) == |d|
    decreases |d|
  {
    if |d| > 0 {
      DigitRunAll(d[1..]);
    }
  }

  /** The key of a digit-free text followed by the decimal form of `m`. */
  lemma KeyOfTextNumber(p: string, m: nat)
    requires forall i :: 0 <= i < |p| ==> !IsDigit(p[i])
    ensures Key(p + DecimalString(m)) == [Text(Lower(p)), Num(m), Text("")]
  {
    SplitTextNumber(p, DecimalString(m));
    DecimalValue(m);
    assert !IsNumeric(p) by {
      if |p| > 0 {
        assert !IsDigit(p[0]);
      }
    }
  }

  /**
   * Names made of the same text and a number sort by the value of the
   * number, not by its digits as characters.
   */
  lemma NaturalNumbers(p: string, m: nat, n: nat)
    requires forall i :: 0 <= i < |p| ==> !IsDigit(p[i])
    ensures KeyLess(Key(p + DecimalString(m)), Key(p + DecimalString(n))) <==> m < n
  {
    KeyOfTextNumber(p, m);
    KeyOfTextNumber(p, n);
    var a := [Text(Lower(p)), Num(m), Text("")];
    var b := [Text(Lower(p)), Num(n), Text("")];
    assert a[1..] == [Num(m), Text("")] && b[1..] == [Num(n), Text("")];
    assert KeyLess(a, b) == Lex([Num(m), Text("")], [Num(n), Text("")], PieceLess);
    assert [Num(m), Text("")][1..] == [Text("")] && [Num(n), Text("")][1..] == [Text("")];
    assert [Text("")][1..] == [];
    assert !Lex([Text("")], [Text("")], PieceLess);
    if m == n {
      assert !Lex([Num(m), Text("")], [Num(n), Text("")], PieceLess);
    } else {
      assert Lex([Num(m), Text("")], [Num(n), Text("")], PieceLess) == (m < n);
    }
  }

  /** As plain strings `'f10' < 'f2'`. */
  lemma PlainOrder()
    ensures StrLess("f10", "f2")
  {
    assert "f10"[1..] == "10" && "f2"[1..] == "2";
  }

  /** `'f2'` sorts before `'f10'`. */
  lemma NaturalOrder()
    ensures KeyLess(Key("f2"), Key("f10"))
  {
    assert DecimalString(2) == "2";
    assert DecimalString(10) == "10";
    assert "f" + "2" == "f2" && "f" + "10" == "f10";
    NaturalNumbers("f", 2, 10);
  }

  /** `x` is not after `y` by `key`. */
  predicate KeyLe(x: string, y: string, key: string -> seq<Piece>)
  {
    !KeyLess(key(y), key(x))
  }

  /** Sorted by `key`: no name has a smaller key than one before it. */
  predicate SortedBy(r: seq<string>, key: string -> seq<Piece>)
  {
    forall i, j :: 0 <= i < j < |r| ==> KeyLe(r[i], r[j], key)
  }

  /** Insert `x` after every name of `s` whose key is not greater than its own. */
  function Insert(x: string, s: seq<string>, key: string -> seq<Piece>): seq<string>
    decreases |s|
  {
    if |s| == 0 then [x]
    else if KeyLess(key(x), key(s[|s| - 1])) then Insert(x, s[..|s| - 1], key) + [s[|s| - 1]]
    else s + [x]
  }

  /** Inserting adds `x` and keeps every other name. */
  lemma {:induction false} InsertPermutes(x: string, s: seq<string>, key: string -> seq<Piece>)
    ensures multiset(Insert(x, s, key)) == multiset(s) + multiset{x}
    decreases |s|
  {
    if |s| > 0 && KeyLess(key(x), key(s[|s| - 1])) {
      InsertPermutes(x, s[..|s| - 1], key);
      assert s == s[..|s| - 1] + [s[|s| - 1]];
    }
  }

  /** `sorted(data, key=key)`, by insertion, which like Python's sort is stable. */
  function SortBy(data: seq<string>, key: string -> seq<Piece>): seq<string>
    decreases |data|
  {
    if |data| == 0 then []
    else Insert(data[|data| - 1], SortBy(data[..|data| - 1], key), key)
  }

  /** Sorting keeps the names, each as often as before. */
  lemma {:induction false} SortByPermutes(data: seq<string>, key: string -> seq<Piece>)
    ensures multiset(SortBy(data, key)) == multiset(data)
    decreases |data|
  {
    if |data| > 0 {
      var n := |data| - 1;
      SortByPermutes(data[..n], key);
      InsertPermutes(data[n], SortBy(data[..n], key), key);
      assert data == data[..n] + [data[n]];
    }
  }

  /** `sorted_alphanumeric`: the names in natural order. */
  function SortedAlphanumeric(data: seq<string>): seq<string>
  {
    SortBy(data, Key)
  }

  /** Inserting into a sorted sequence keeps it sorted. */
  lemma {:induction false} InsertSorted(x: string, s: seq<string>, key: string -> seq<Piece>)
    requires SortedBy(s, key)
    ensures SortedBy(Insert(x, s, key), key)
    decreases |s|
  {
    if |s| > 0 {
      var n := |s| - 1;
      var last := s[n];
      if KeyLess(key(x), key(last)) {
        var init := s[..n];
        assert SortedBy(init, key) by {
          forall i, j | 0 <= i < j < |init|
            ensures KeyLe(init[i], init[j], key)
          {
            assert init[i] == s[i] && init[j] == s[j];
          }
        }
        InsertSorted(x, init, key);
        InsertBelow(x, init, s, key);
      } else {
        var r := s + [x];
        forall i, j | 0 <= i < j < |r|
          ensures KeyLe(r[i], r[j], key)
        {
          if j == n + 1 && i < n {
            assert KeyLe(s[i], last, key);
            KeyOrder(key(x), key(last), key(s[i]));
          }
        }
      }
    }
  }

  /** When `x` goes before the last name, the last name stays above everything. */
  lemma InsertBelow(x: string, init: seq<string>, s: seq<string>, key: string -> seq<Piece>)
    requires |s| > 0 && init == s[..|s| - 1] && SortedBy(s, key)
    requires KeyLess(key(x), key(s[|s| - 1]))
    requires SortedBy(Insert(x, init, key), key)
    ensures SortedBy(Insert(x, init, key) + [s[|s| - 1]], key)
  {
    var last := s[|s| - 1];
    var ins := Insert(x, init, key);
    InsertPermutes(x, init, key);
    KeyOrder(key(x), key(last), key(last));
    forall i | 0 <= i < |ins|
      ensures KeyLe(ins[i], last, key)
    {
      assert ins[i] in multiset(ins);
      if ins[i] in multiset(init) {
        var m :| 0 <= m < |init| && init[m] == ins[i];
        assert s[m] == ins[i];
      }
    }
    var r := ins + [last];
    forall i, j | 0 <= i < j < |r|
      ensures KeyLe(r[i], r[j], key)
    {
      if j < |ins| {
        assert r[i] == ins[i] && r[j] == ins[j];
      }
    }
  }

  /** Sorting by a key returns the names in ascending key order. */
  lemma {:induction false} SortBySorted(data: seq<string>, key: string -> seq<Piece>)
    ensures SortedBy(SortBy(data, key), key)
    decreases |data|
  {
    if |data| > 0 {
      SortBySorted(data[..|data| - 1], key);
      InsertSorted(data[|data| - 1], SortBy(data[..|data| - 1], key), key);
    }
  }

  /** The names whose key is `k`, in order. */
  function WithKey(s: seq<string>, key: string -> seq<Piece>, k: seq<Piece>): seq<string>
    decreases |s|
  {
    if |s| == 0 then []
    else WithKey(s[..|s| - 1], key, k) + (if key(s[|s| - 1]) == k then [s[|s| - 1]] else [])
  }

  lemma {:induction false} WithKeyAppend(a: seq<string>, b: seq<string>, key: string -> seq<Piece>, k: seq<Piece>)
    ensures WithKey(a + b, key, k) == WithKey(a, key, k) + WithKey(b, key, k)
    decreases |b|
  {
    if |b| > 0 {
      var n := |b| - 1;
      assert (a + b)[..|a + b| - 1] == a + b[..n];
      WithKeyAppend(a, b[..n], key, k);
    } else {
      assert a + b == a;
    }
  }

  /** Inserting `x` adds it after every name with the same key. */
  lemma {:induction false} InsertStable(x: string, s: seq<string>, key: string -> seq<Piece>, k: seq<Piece>)
    ensures WithKey(Insert(x, s, key), key, k) == WithKey(s, key, k) + (if key(x) == k then [x] else [])
    decreases |s|
  {
    if |s| == 0 {
      assert WithKey([x], key, k) == WithKey([], key, k) + (if key(x) == k then [x] else []);
    } else if KeyLess(key(x), key(s[|s| - 1])) {
      InsertStable(x, s[..|s| - 1], key, k);
      InsertStableBelow(x, s, key, k);
    } else {
      WithKeyAppend(s, [x], key, k);
      assert WithKey([x], key, k) == WithKey([], key, k) + (if key(x) == k then [x] else []);
    }
  }

  /** The step of `InsertStable` where `x` goes before the last name. */
  lemma InsertStableBelow(x: string, s: seq<string>, key: string -> seq<Piece>, k: seq<Piece>)
    requires |s| > 0 && KeyLess(key(x), key(s[|s| - 1]))
    requires WithKey(Insert(x, s[..|s| - 1], key), key, k) == WithKey(s[..|s| - 1], key, k) + (if key(x) == k then [x] else [])
    ensures WithKey(Insert(x, s, key), key, k) == WithKey(s, key, k) + (if key(x) == k then [x] else [])
  {
    var added := if key(x) == k then [x] else [];
    var last := s[|s| - 1];
    var init := s[..|s| - 1];
    var tail := if key(last) == k then [last] else [];
    assert WithKey(s, key, k) == WithKey(init, key, k) + tail;
    WithKeyAppend(Insert(x, init, key), [last], key, k);
    assert WithKey([last], key, k) == tail;
    var before := WithKey(init, key, k);
    assert WithKey(Insert(x, s, key), key, k) == before + added + tail;
    KeyOrder(key(x), key(last), key(last));
    if key(x) == k {
      assert tail == [];
      assert before + added + tail == before + tail + added;
    } else {
      assert added == [];
      assert before + added + tail == before + tail + added;
    }
  }

  /** Sorting by a key is stable: the names with any one key keep the order they had in the input. */
  lemma {:induction false} SortByStable(data: seq<string>, key: string -> seq<Piece>, k: seq<Piece>)
    ensures WithKey(SortBy(data, key), key, k) == WithKey(data, key, k)
    decreases |data|
  {
    if |data| > 0 {
      var n := |data| - 1;
      SortByStable(data[..n], key, k);
      InsertStable(data[n], SortBy(data[..n], key), key, k);
    }
  }

  /**
   * `sorted_alphanumeric` rearranges its input (the same names, as often
   * as before) into ascending natural order, and names with equal keys
   * keep their input order.
   */
  lemma SortedAlphanumericSpec(data: seq<string>)
    ensures multiset(SortedAlphanumeric(data)) == multiset(data)
    ensures SortedBy(SortedAlphanumeric(data), Key)
    ensures forall k :: WithKey(SortedAlphanumeric(data), Key, k) == WithKey(data, Key, k)
  {
    SortByPermutes(data, Key);
    SortBySorted(data, Key);
    forall k
      ensures WithKey(SortedAlphanumeric(data), Key, k) == WithKey(data, Key, k)
    {
      SortByStable(data, Key, k);
    }
  }

  /** Frames named `f10` and `f2` are read `f2` first. */
  lemma SortsFrames()
    ensures SortedAlphanumeric(["f10", "f2"]) == ["f2", "f10"]
  {
    NaturalOrder();
    var data := ["f10", "f2"];
    assert data[..1] == ["f10"] && data[..1][..0] == [];
    assert SortBy(data[..1], Key) == ["f10"];
    assert ["f10"][..0] == [];
  }
}
