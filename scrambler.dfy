/**
 * `makeScrambledVariant` of public/scripts/heading-glitch.js: a same-length
 * string of random glyphs that keeps spaces, follows the case of the source
 * and never shows the same glyph twice in a row.
 *
 * `Math.random` is a nondeterministic choice: each position takes some draw
 * that the rejection test lets through.
 */
module Scrambler {
  import opened Wrappers

  const LETTERS: string := "ABCDEFGHIJKLMNOPQRSTUVWXYZ"
  const DIGITS: string := "0123456789"
  const SYMBOLS: string := "!@#$%^&*()_+[]{}|;:,.<>?~"
  /** The scramble alphabet: 61 glyphs, no space and no lower-case letter. */
  const CHARACTERS: string := LETTERS + DIGITS + SYMBOLS
  const KEEP_SPACES: bool := true
  const MATCH_CASE: bool := true

  /** ASCII `toUpperCase`. */
  function ToUpper(c: char): char
  {
    if 'a' <= c <= 'z' then (c as int - 32) as char else c
  }

  /** ASCII `toLowerCase`. */
  function ToLower(c: char): char
  {
    if 'A' <= c <= 'Z' then (c as int + 32) as char else c
  }

  /** The draw g as shown in place of the source character ch. */
  function MatchCase(g: char, ch: char): char
  {
    if MATCH_CASE then (if ch == ToUpper(ch) then ToUpper(g) else ToLower(g)) else g
  }

  /** The last non-space character of s (the source's `last`, '' when none). */
  function LastGlyph(s: string): Option<char>
  {
    if s == [] then None
    else if s[|s| - 1] != ' ' then Some(s[|s| - 1])
    else LastGlyph(s[..|s| - 1])
  }

  /** What one output character may be, for its source character ch. */
  predicate ScrambledAt(ch: char, c: char)
  {
    if ch == ' ' then c == ' '
    else (c != ' ' && ToUpper(c) in CHARACTERS &&
          (ch == ToUpper(ch) ==> c == ToUpper(c)) &&
          (ch != ToUpper(ch) ==> c == ToLower(c)))
  }

  /** No glyph repeats the last non-space glyph before it. */
  predicate NoRepeat(o: string)
  {
    forall j :: 0 <= j < |o| && o[j] != ' ' ==> LastGlyph(o[..j]) != Some(o[j])
  }

  /** Each output character fits its source character. */
  predicate FitsTarget(t: string, o: string)
    requires |o| <= |t|
  {
    forall i :: 0 <= i < |o| ==> ScrambledAt(t[i], o[i])
  }

  /** Everything the scrambler guarantees about its output o for target t. */
  predicate IsScrambleOf(t: string, o: string)
  {
    |o| == |t| && FitsTarget(t, o) && NoRepeat(o)
  }

  /** The alphabet's size: 26 letters, 10 digits and 25 symbols. */
  lemma AlphabetLiteral()
    ensures |CHARACTERS| == 61
  {
    assert |LETTERS| == 26 && |DIGITS| == 10 && |SYMBOLS| == 25;
  }

  /** No space and no lower-case letter. */
  predicate Glyphs(s: string)
  {
    forall i :: 0 <= i < |s| ==> s[i] != ' ' && !('a' <= s[i] <= 'z')
  }

  lemma GlyphsAppend(a: string, b: string)
    requires Glyphs(a) && Glyphs(b)
    ensures Glyphs(a + b)
  {
    forall i | 0 <= i < |a + b|
      ensures (a + b)[i] != ' ' && !('a' <= (a + b)[i] <= 'z')
    {
      if i >= |a| {
        assert (a + b)[i] == b[i - |a|];
      }
    }
  }

  lemma LettersGlyphs()
    ensures Glyphs(LETTERS)
  {
    forall i | 0 <= i < |LETTERS| ensures 'A' <= LETTERS[i] <= 'Z' { }
  }

  lemma DigitsGlyphs()
    ensures Glyphs(DIGITS)
  {
    forall i | 0 <= i < |DIGITS| ensures '0' <= DIGITS[i] <= '9' { }
  }

  lemma SymbolsGlyphs()
    ensures Glyphs(SYMBOLS)
  {
  }

  lemma AlphabetGlyphs()
    ensures Glyphs(CHARACTERS)
  {
    LettersGlyphs();
    DigitsGlyphs();
    SymbolsGlyphs();
    GlyphsAppend(LETTERS, DIGITS);
    GlyphsAppend(LETTERS + DIGITS, SYMBOLS);
  }

  /** Every alphabet glyph, case-mapped for any source character, is a valid
      output character there. */
  lemma MatchCaseScrambled(k: nat, ch: char)
    requires k < |CHARACTERS| && ch != ' '
    ensures ScrambledAt(ch, MatchCase(CHARACTERS[k], ch))
  {
    AlphabetGlyphs();
    GlyphCase(CHARACTERS[k], ch);
    assert CHARACTERS[k] in CHARACTERS;
  }

  /** A glyph that is neither a space nor lower-case is unchanged by
      `toUpperCase`, and its case-mapped form is not a space. */
  lemma GlyphCase(g: char, ch: char)
    requires g != ' ' && !('a' <= g <= 'z')
    ensures ToUpper(MatchCase(g, ch)) == g && MatchCase(g, ch) != ' '
    ensures ch == ToUpper(ch) ==> MatchCase(g, ch) == ToUpper(MatchCase(g, ch))
    ensures ch != ToUpper(ch) ==> MatchCase(g, ch) == ToLower(MatchCase(g, ch))
  {
  }

  /** The rejection loop can always finish: 'A' and 'B' stay distinct under
      either case mapping, so some draw differs from the previous glyph. */
  lemma GlyphAvailable(ch: char, last: Option<char>)
    ensures exists k :: (0 <= k < |CHARACTERS| &&
      !(Some(MatchCase(CHARACTERS[k], ch)) == last && |CHARACTERS| >= 8))
  {
    assert CHARACTERS[0] == 'A' && CHARACTERS[1] == 'B';
    if Some(MatchCase(CHARACTERS[0], ch)) == last {
      assert Some(MatchCase(CHARACTERS[1], ch)) != last;
    }
  }

  lemma LastGlyphAppend(s: string, c: char)
    ensures LastGlyph(s + [c]) == if c != ' ' then Some(c) else LastGlyph(s)
  {
    assert (s + [c])[..|s|] == s;
  }

  /** One more output character keeps the guarantees. */
  lemma Extend(t: string, o: string, c: char)
    requires |o| < |t| && FitsTarget(t, o) && NoRepeat(o)
    requires ScrambledAt(t[|o|], c)
    requires c != ' ' ==> LastGlyph(o) != Some(c)
    ensures FitsTarget(t, o + [c]) && NoRepeat(o + [c])
  {
    ExtendFits(t, o, c);
    ExtendNoRepeat(o, c);
  }

  lemma ExtendFits(t: string, o: string, c: char)
    requires |o| < |t| && FitsTarget(t, o) && ScrambledAt(t[|o|], c)
    ensures FitsTarget(t, o + [c])
  {
    var o' := o + [c];
    forall i | 0 <= i < |o'|
      ensures ScrambledAt(t[i], o'[i])
    {
      if i < |o| {
        assert o'[i] == o[i];
      } else {
        assert i == |o| && o'[i] == c;
      }
    }
  }

  lemma ExtendNoRepeat(o: string, c: char)
    requires NoRepeat(o) && (c != ' ' ==> LastGlyph(o) != Some(c))
    ensures NoRepeat(o + [c])
  {
    var o' := o + [c];
    assert o'[..|o|] == o;
    forall j | 0 <= j < |o'| && o'[j] != ' '
      ensures LastGlyph(o'[..j]) != Some(o'[j])
    {
      if j < |o| {
        assert o'[..j] == o[..j];
      }
    }
  }

  /** The source's loop. */
  method MakeScrambledVariant(targetText: string) returns (s: string)
    ensures IsScrambleOf(targetText, s)
  {
    var out: string := [];
    var last: Option<char> := None;
    var i := 0;
    while i < |targetText|
      invariant 0 <= i <= |targetText|
      invariant |out| == i
      invariant FitsTarget(targetText, out) && NoRepeat(out)
      invariant last == LastGlyph(out)
    {
      var ch := targetText[i];
      if KEEP_SPACES && ch == ' ' {
        Extend(targetText, out, ch);
        LastGlyphAppend(out, ch);
        out := out + [ch];
        i := i + 1;
        continue;
      }
      GlyphAvailable(ch, last);
      var k :| 0 <= k < |CHARACTERS| && !(Some(MatchCase(CHARACTERS[k], ch)) == last && |CHARACTERS| >= 8);
      var next := MatchCase(CHARACTERS[k], ch);
      MatchCaseScrambled(k, ch);
      Extend(targetText, out, next);
      LastGlyphAppend(out, next);
      out := out + [next];
      last := Some(next);
      i := i + 1;
    }
    s := out;
  }

  /** In particular, two neighbouring non-space output characters differ. */
  lemma NoAdjacentRepeat(t: string, o: string, i: nat)
    requires IsScrambleOf(t, o) && i + 1 < |o| && o[i] != ' ' && o[i + 1] != ' '
    ensures o[i] != o[i + 1]
  {
    assert o[..i + 1][..i] == o[..i];
    assert LastGlyph(o[..i + 1]) == Some(o[i]);
  }

  /** And the rule reaches across spaces: a glyph differs from the glyph before
      a run of spaces. */
  lemma NoRepeatAcrossSpaces(t: string, o: string, i: nat, j: nat)
    requires IsScrambleOf(t, o) && i < j < |o| && o[i] != ' ' && o[j] != ' '
    requires forall m :: i < m < j ==> o[m] == ' '
    ensures o[i] != o[j]
  {
    SkipSpaces(o, i, j);
  }

  lemma {:induction false} SkipSpaces(o: string, i: nat, j: nat)
    requires i < j <= |o| && o[i] != ' '
    requires forall m :: i < m < j ==> o[m] == ' '
    ensures LastGlyph(o[..j]) == Some(o[i])
    decreases j - i
  {
    if j == i + 1 {
      assert o[..j][..i] == o[..i];
    } else {
      SkipSpaces(o, i, j - 1);
      assert o[..j][..j - 1] == o[..j - 1];
    }
  }
}
