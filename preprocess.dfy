/**
 * The previewer's string preprocessing (`preprocess_string` and the
 * `SPECIAL_CHARS` table in parse_string.py). Each input character becomes the
 * charmap value of its glyph; an accented character becomes the glyphs of its
 * base letter and of its mark, joined by the 0x1B combining marker; newline and
 * backspace pass through as codes; anything else becomes a space and a warning.
 */
module Preprocess {
  import opened Wrappers
  import opened Tokens

  /** The glyph-name map of a font, as loaded from its JSON file. */
  type Charmap = map<string, Token>

  /** The warnings printed to stderr. */
  datatype Warning =
    | UnsupportedComponent(ch: char, component: string)
    | UnsupportedChar(ch: char)

  /** `ord('\x1B')`, written between the parts of a combined character. */
  const Escape: int := 0x1B

  // The glyph names the table refers to, other than single letters.
  const Degree: string := "degree"
  const QuestionOpen: string := "question_open"
  const ExclamationOpen: string := "exclamation_open"
  const LowercaseCedilla: string := "lowercase_cedilla"
  const UppercaseCedilla: string := "uppercase_cedilla"
  const SmallO: string := "small_o"
  const SmallA: string := "small_a"
  const LowercaseTilde: string := "lowercase_tilde"
  const UppercaseTilde: string := "uppercase_tilde"
  const LowercaseAcute: string := "lowercase_acute"
  const UppercaseAcute: string := "uppercase_acute"
  const LowercaseGrave: string := "lowercase_grave"
  const UppercaseGrave: string := "uppercase_grave"
  const LowercaseCircumflex: string := "lowercase_circumflex"
  const UppercaseCircumflex: string := "uppercase_circumflex"
  const LowercaseUmlaut: string := "lowercase_umlaut"
  const UppercaseUmlaut: string := "uppercase_umlaut"
  const LowercaseDot: string := "lowercase_dot"

  /** `SPECIAL_CHARS[ch]`: the glyph names an accented or special character is drawn from; None when it is no key. */
  function SpecialChars(ch: char): Option<seq<string>>
  {
    match ch
    case '\U{00B0}' => Some([Degree])
    case '\U{00BF}' => Some([QuestionOpen])
    case '\U{00A1}' => Some([ExclamationOpen])
    case '\U{00E7}' => Some([LowercaseCedilla])
    case '\U{00C7}' => Some([UppercaseCedilla])
    case '\U{00BA}' => Some([SmallO])
    case '\U{00AA}' => Some([SmallA])
    case '\U{00F1}' => Some(["n", LowercaseTilde])
    case '\U{00D1}' => Some(["N", UppercaseTilde])
    case '\U{00B4}' => Some([LowercaseAcute])
    case '\U{00E1}' => Some(["a", LowercaseAcute])
    case '\U{00E9}' => Some(["e", LowercaseAcute])
    case '\U{00ED}' => Some(["i", LowercaseAcute])
    case '\U{00F3}' => Some(["o", LowercaseAcute])
    case '\U{00FA}' => Some(["u", LowercaseAcute])
    case '\U{00C1}' => Some(["A", UppercaseAcute])
    case '\U{00C9}' => Some(["E", UppercaseAcute])
    case '\U{00CD}' => Some(["I", UppercaseAcute])
    case '\U{00D3}' => Some(["O", UppercaseAcute])
    case '\U{00DA}' => Some(["U", UppercaseAcute])
    case '\U{0060}' => Some([LowercaseGrave])
    case '\U{00E0}' => Some(["a", LowercaseGrave])
    case '\U{00E8}' => Some(["e", LowercaseGrave])
    case '\U{00EC}' => Some(["i", LowercaseGrave])
    case '\U{00F2}' => Some(["o", LowercaseGrave])
    case '\U{00F9}' => Some(["u", LowercaseGrave])
    case '\U{00C0}' => Some(["A", UppercaseGrave])
    case '\U{00C8}' => Some(["E", UppercaseGrave])
    case '\U{00CC}' => Some(["I", UppercaseGrave])
    case '\U{00D2}' => Some(["O", UppercaseGrave])
    case '\U{00D9}' => Some(["U", UppercaseGrave])
    case '\U{00E2}' => Some(["a", LowercaseCircumflex])
    case '\U{00EA}' => Some(["e", LowercaseCircumflex])
    case '\U{00EE}' => Some(["i", LowercaseCircumflex])
    case '\U{00F4}' => Some(["o", LowercaseCircumflex])
    case '\U{00FB}' => Some(["u", LowercaseCircumflex])
    case '\U{00C2}' => Some(["A", UppercaseCircumflex])
    case '\U{00CA}' => Some(["E", UppercaseCircumflex])
    case '\U{00CE}' => Some(["I", UppercaseCircumflex])
    case '\U{00D4}' => Some(["O", UppercaseCircumflex])
    case '\U{00DB}' => Some(["U", UppercaseCircumflex])
    case '\U{00A8}' => Some([LowercaseUmlaut])
    case '\U{00E4}' => Some(["a", LowercaseUmlaut])
    case '\U{00EB}' => Some(["e", LowercaseUmlaut])
    case '\U{00EF}' => Some(["i", LowercaseUmlaut])
    case '\U{00F6}' => Some(["o", LowercaseUmlaut])
    case '\U{00FC}' => Some(["u", LowercaseUmlaut])
    case '\U{00C4}' => Some(["A", UppercaseUmlaut])
    case '\U{00CB}' => Some(["E", UppercaseUmlaut])
    case '\U{00CF}' => Some(["I", UppercaseUmlaut])
    case '\U{00D6}' => Some(["O", UppercaseUmlaut])
    case '\U{00DC}' => Some(["U", UppercaseUmlaut])
    case '\U{02D9}' => Some([LowercaseDot])
    case _ => None
  }

  /** Every entry names one glyph, or a single base letter followed by a mark. */
  lemma SpecialCharsShape(ch: char)
    requires SpecialChars(ch).Some?
    ensures 1 <= |SpecialChars(ch).value| <= 2
    ensures |SpecialChars(ch).value| == 2 ==> |SpecialChars(ch).value[0]| == 1
  {
  }

  /** The token a glyph name stands for: its charmap value, or `' '` when the font lacks it. */
  function Lookup(name: string, charmap: Charmap): Token
  {
    if name in charmap then charmap[name] else Char(' ')
  }

  /** Tokens of the first `i` components: each one, followed by 0x1B unless it is the last. */
  function ComponentTokens(comps: seq<string>, charmap: Charmap, i: nat): seq<Token>
    requires i <= |comps|
  {
    if i == 0 then []
    else
      ComponentTokens(comps, charmap, i - 1) + [Lookup(comps[i - 1], charmap)]
        + (if i - 1 < |comps| - 1 then [Code(Escape)] else [])
  }

  /** Warnings of the first `i` components: one for each the font lacks. */
  function ComponentWarnings(ch: char, comps: seq<string>, charmap: Charmap, i: nat): seq<Warning>
    requires i <= |comps|
  {
    if i == 0 then []
    else
      ComponentWarnings(ch, comps, charmap, i - 1)
        + (if comps[i - 1] in charmap then [] else [UnsupportedComponent(ch, comps[i - 1])])
  }

  /** What one input character contributes to the output and to stderr. */
  datatype Expansion = Expansion(tokens: seq<Token>, warnings: seq<Warning>)

  function Expand(ch: char, charmap: Charmap): Expansion
  {
    if [ch] in charmap then Expansion([charmap[[ch]]], [])
    else if SpecialChars(ch).Some? then
      var comps := SpecialChars(ch).value;
      Expansion(ComponentTokens(comps, charmap, |comps|), ComponentWarnings(ch, comps, charmap, |comps|))
    else if ch == '\n' || ch == '\U{0008}' then Expansion([Code(ch as int)], [])
    else Expansion([Char(' ')], [UnsupportedChar(ch)])
  }

  /** The concatenation of `f` applied to each character of `s`, in order. */
  function FlatMap<T>(f: char -> seq<T>, s: string): seq<T>
  {
    if s == [] then [] else FlatMap(f, s[..|s| - 1]) + f(s[|s| - 1])
  }

  lemma FlatMapSnoc<T>(f: char -> seq<T>, s: string, ch: char)
    ensures FlatMap(f, s + [ch]) == FlatMap(f, s) + f(ch)
  {
    assert (s + [ch])[..|s|] == s;
  }

  /** Mapping over a concatenation concatenates the results. */
  lemma {:induction false} FlatMapConcat<T>(f: char -> seq<T>, s: string, t: string)
    ensures FlatMap(f, s + t) == FlatMap(f, s) + FlatMap(f, t)
    decreases |t|
  {
    if t == [] {
      assert s + t == s;
    } else {
      var t0, c := t[..|t| - 1], t[|t| - 1];
      assert t == t0 + [c];
      assert s + t == (s + t0) + [c];
      FlatMapConcat(f, s, t0);
      FlatMapSnoc(f, s + t0, c);
    }
  }

  /** Mapping with a function that never yields an empty sequence gives at least one element per character. */
  lemma {:induction false} FlatMapLength<T>(f: char -> seq<T>, s: string)
    requires forall ch :: |f(ch)| >= 1
    ensures |FlatMap(f, s)| >= |s|
  {
    if s != [] {
      FlatMapLength(f, s[..|s| - 1]);
    }
  }

  /** The output of `preprocess_string`: the expansions of the characters, in order. */
  function PreprocessTokens(s: string, charmap: Charmap): seq<Token>
  {
    FlatMap(ch => Expand(ch, charmap).tokens, s)
  }

  /** The warnings `preprocess_string` prints, in order. */
  function PreprocessWarnings(s: string, charmap: Charmap): seq<Warning>
  {
    FlatMap(ch => Expand(ch, charmap).warnings, s)
  }

  /** The inner loop of `preprocess_string` over the components of one special character. */
  method ExpandComponents(ch: char, basic: seq<string>, charmap: Charmap) returns (out: seq<Token>, warnings: seq<Warning>)
    ensures out == ComponentTokens(basic, charmap, |basic|)
    ensures warnings == ComponentWarnings(ch, basic, charmap, |basic|)
  {
    out, warnings := [], [];
    for i := 0 to |basic|
      invariant out == ComponentTokens(basic, charmap, i)
      invariant warnings == ComponentWarnings(ch, basic, charmap, i)
    {
      if basic[i] in charmap {
        out := out + [charmap[basic[i]]];
      } else {
        warnings := warnings + [UnsupportedComponent(ch, basic[i])];
        out := out + [Char(' ')];
      }
      if i < |basic| - 1 {
        out := out + [Code(Escape)];
      }
    }
  }

  /** `preprocess_string`, with the printed warnings returned as a list. It accepts every string. */
  method PreprocessString(s: string, charmap: Charmap) returns (out: seq<Token>, warnings: seq<Warning>)
    ensures out == PreprocessTokens(s, charmap)
    ensures warnings == PreprocessWarnings(s, charmap)
  {
    out, warnings := [], [];
    for k := 0 to |s|
      invariant out == PreprocessTokens(s[..k], charmap)
      invariant warnings == PreprocessWarnings(s[..k], charmap)
    {
      var ch := s[k];
      assert s[..k + 1][..k] == s[..k];
      if [ch] in charmap {
        out := out + [charmap[[ch]]];
      } else if SpecialChars(ch).Some? {
        var basic := SpecialChars(ch).value;
        var toks, warns := ExpandComponents(ch, basic, charmap);
        out, warnings := out + toks, warnings + warns;
      } else if ch == '\n' || ch == '\U{0008}' {
        out := out + [Code(ch as int)];
      } else {
        warnings := warnings + [UnsupportedChar(ch)];
        out := out + [Char(' ')];
      }
    }
    assert s[..|s|] == s;
  }

  /** The four cases of one character, in the order the code tests them. */
  lemma ExpandCases(ch: char, charmap: Charmap)
    ensures [ch] in charmap ==> Expand(ch, charmap) == Expansion([charmap[[ch]]], [])
    ensures [ch] !in charmap && SpecialChars(ch).None? && ch == '\n' ==> Expand(ch, charmap) == Expansion([Code(10)], [])
    ensures [ch] !in charmap && SpecialChars(ch).None? && ch == '\U{0008}' ==> Expand(ch, charmap) == Expansion([Code(8)], [])
    ensures [ch] !in charmap && SpecialChars(ch).None? && ch != '\n' && ch != '\U{0008}' ==>
      Expand(ch, charmap) == Expansion([Char(' ')], [UnsupportedChar(ch)])
  {
  }

  /**
   * `i` components give `2 * i` tokens, or `2 * i - 1` once the last is in:
   * the components at even positions, 0x1B at odd ones, never after the last.
   */
  lemma {:induction false} ComponentLayout(comps: seq<string>, charmap: Charmap, i: nat)
    requires i <= |comps|
    ensures |ComponentTokens(comps, charmap, i)| == if i == |comps| && i > 0 then 2 * i - 1 else 2 * i
    ensures forall p :: 0 <= p < |ComponentTokens(comps, charmap, i)| ==>
      ComponentTokens(comps, charmap, i)[p] == if p % 2 == 0 then Lookup(comps[p / 2], charmap) else Code(Escape)
  {
    if i > 0 {
      ComponentLayout(comps, charmap, i - 1);
      var prev := ComponentTokens(comps, charmap, i - 1);
      assert |prev| == 2 * (i - 1);
      var ct := ComponentTokens(comps, charmap, i);
      forall p | 0 <= p < |ct|
        ensures ct[p] == if p % 2 == 0 then Lookup(comps[p / 2], charmap) else Code(Escape)
      {
        if p < |prev| {
          assert ct[p] == prev[p];
        } else if p == |prev| {
          assert p / 2 == i - 1;
        }
      }
    }
  }

  /** A warning is printed exactly when a component is missing from the font. */
  lemma {:induction false} ComponentWarningsMissing(ch: char, comps: seq<string>, charmap: Charmap, i: nat)
    requires i <= |comps|
    ensures ComponentWarnings(ch, comps, charmap, i) == [] <==> forall j :: 0 <= j < i ==> comps[j] in charmap
    ensures forall w :: w in ComponentWarnings(ch, comps, charmap, i) ==>
      w.UnsupportedComponent? && w.ch == ch && w.component in comps[..i] && w.component !in charmap
  {
    if i > 0 {
      ComponentWarningsMissing(ch, comps, charmap, i - 1);
      assert comps[..i] == comps[..i - 1] + [comps[i - 1]];
    }
  }

  /** An accented character with `n` components expands to `2n - 1` tokens. */
  lemma SpecialExpansion(ch: char, charmap: Charmap)
    requires [ch] !in charmap && SpecialChars(ch).Some?
    ensures var comps, t := SpecialChars(ch).value, Expand(ch, charmap).tokens;
      && |t| == 2 * |comps| - 1
      && (forall j :: 0 <= j < |comps| ==> t[2 * j] == Lookup(comps[j], charmap))
      && (forall p :: 0 <= p < |t| && p % 2 == 1 ==> t[p] == Code(Escape))
  {
    var comps := SpecialChars(ch).value;
    SpecialCharsShape(ch);
    ComponentLayout(comps, charmap, |comps|);
    var t := Expand(ch, charmap).tokens;
    forall j | 0 <= j < |comps|
      ensures t[2 * j] == Lookup(comps[j], charmap)
    {
      assert (2 * j) % 2 == 0 && (2 * j) / 2 == j;
    }
  }

  /** Every character yields at least one token. */
  lemma ExpandNonEmpty(ch: char, charmap: Charmap)
    ensures |Expand(ch, charmap).tokens| >= 1
  {
    if [ch] !in charmap && SpecialChars(ch).Some? {
      SpecialExpansion(ch, charmap);
      SpecialCharsShape(ch);
    }
  }

  /** The output has at least as many tokens as the input has characters. */
  lemma PreprocessLength(s: string, charmap: Charmap)
    ensures |PreprocessTokens(s, charmap)| >= |s|
  {
    forall ch: char
      ensures |Expand(ch, charmap).tokens| >= 1
    {
      ExpandNonEmpty(ch, charmap);
    }
    FlatMapLength(ch => Expand(ch, charmap).tokens, s);
  }

  /** Characters are processed independently: the output of a concatenation is the concatenation of the outputs. */
  lemma PreprocessConcat(s: string, t: string, charmap: Charmap)
    ensures PreprocessTokens(s + t, charmap) == PreprocessTokens(s, charmap) + PreprocessTokens(t, charmap)
    ensures PreprocessWarnings(s + t, charmap) == PreprocessWarnings(s, charmap) + PreprocessWarnings(t, charmap)
  {
    FlatMapConcat(ch => Expand(ch, charmap).tokens, s, t);
    FlatMapConcat(ch => Expand(ch, charmap).warnings, s, t);
  }
}
