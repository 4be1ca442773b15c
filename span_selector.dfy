/**
 * `splitLastWord` of public/scripts/heading-glitch.js: normalise the heading's
 * whitespace, split it into words and choose the trailing words to animate
 * (aiming at 15 to 30 characters; a heading of several words is never
 * animated whole).
 */
module SpanSelector {
  import opened Wrappers
  import opened JsMath

  const MIN_GLITCH_CHARS: int := 15
  const MAX_GLITCH_CHARS: int := 30

  /** The static prefix and the animated trailing span. */
  datatype Split = Split(before: string, word: string)

  /** The characters matched by JavaScript's `\s` and removed by `trim()`. */
  predicate IsWs(c: char)
  {
    var n := c as int;
    n == 32 || 9 <= n <= 13 || n == 160 || n == 0x1680 || 0x2000 <= n <= 0x200A ||
    n == 0x2028 || n == 0x2029 || n == 0x202F || n == 0x205F || n == 0x3000 || n == 0xFEFF
  }

  /** Every character is whitespace. */
  ghost predicate AllWs(s: string)
  {
    forall i :: 0 <= i < |s| ==> IsWs(s[i])
  }

  /** Every character of s outside s[lo..hi] is whitespace. */
  ghost predicate WsOutside(s: string, lo: int, hi: int)
  {
    forall i :: 0 <= i < |s| && !(lo <= i < hi) ==> IsWs(s[i])
  }

  /** Leading whitespace removed: s is a run of whitespace followed by r, and
      r does not start with whitespace. */
  function TrimStart(s: string): (r: string)
    ensures |r| <= |s| && r == s[|s| - |r|..]
    ensures forall i :: 0 <= i < |s| - |r| ==> IsWs(s[i])
    ensures r != [] ==> !IsWs(r[0])
    ensures s != [] && !IsWs(s[|s| - 1]) ==> r != []
  {
    if s != [] && IsWs(s[0]) then TrimStart(s[1..]) else s
  }

  /** Trailing whitespace removed: s is r followed by a run of whitespace, and
      r does not end with whitespace. */
  function TrimEnd(s: string): (r: string)
    ensures |r| <= |s| && r == s[..|r|]
    ensures forall i :: |r| <= i < |s| ==> IsWs(s[i])
    ensures r != [] ==> !IsWs(r[|r| - 1])
    ensures s != [] && !IsWs(s[0]) ==> r != []
  {
    if s != [] && IsWs(s[|s| - 1]) then TrimEnd(s[..|s| - 1]) else s
  }

  /** `String.prototype.trim`: r is a slice of s with only whitespace around
      it; r neither starts nor ends with whitespace, and is empty exactly when
      s is all whitespace. */
  function Trim(s: string): (r: string)
    ensures r != [] ==> !IsWs(r[0]) && !IsWs(r[|r| - 1])
    ensures exists lo, hi :: 0 <= lo <= hi <= |s| && r == s[lo..hi] && WsOutside(s, lo, hi)
    ensures r == [] <==> AllWs(s)
  {
    var m := TrimStart(s);
    var r := TrimEnd(m);
    TrimSlice(s, m, r);
    r
  }

  /** s is whitespace, then m; m is r, then whitespace; m does not start with
      whitespace. */
  lemma TrimSlice(s: string, m: string, r: string)
    requires |m| <= |s| && m == s[|s| - |m|..]
    requires forall i :: 0 <= i < |s| - |m| ==> IsWs(s[i])
    requires |r| <= |m| && r == m[..|r|]
    requires forall i :: |r| <= i < |m| ==> IsWs(m[i])
    requires m != [] ==> !IsWs(m[0])
    ensures r != [] ==> !IsWs(r[0])
    ensures exists lo, hi :: 0 <= lo <= hi <= |s| && r == s[lo..hi] && WsOutside(s, lo, hi)
    ensures r == [] <==> AllWs(s)
  {
    var lo := |s| - |m|;
    assert s[lo..lo + |r|] == m[..|r|];
    forall i | lo + |r| <= i < |s|
      ensures IsWs(s[i])
    {
      assert s[i] == m[i - lo];
    }
    assert WsOutside(s, lo, lo + |r|);
    if r != [] {
      assert r[0] == m[0] == s[lo];
    }
  }

  /** `replace(/\s+/g, ' ')`: every maximal run of whitespace becomes one space. */
  function Collapse(t: string): (r: string)
    ensures |r| <= |t|
    ensures t != [] ==> r != [] && r[0] == (if IsWs(t[0]) then ' ' else t[0])
    ensures t != [] && !IsWs(t[|t| - 1]) ==> r[|r| - 1] != ' '
    decreases |t|
  {
    if t == [] then []
    else if IsWs(t[0]) then [' '] + Collapse(TrimStart(t[1..]))
    else [t[0]] + Collapse(t[1..])
  }

  /** The only whitespace character left is the plain space. */
  ghost predicate OnlySpaces(r: string)
  {
    forall i :: 0 <= i < |r| && IsWs(r[i]) ==> r[i] == ' '
  }

  /** No two spaces are adjacent. */
  ghost predicate SingleSpaces(r: string)
  {
    forall i :: 0 <= i < |r| - 1 && r[i] == ' ' ==> r[i + 1] != ' '
  }

  lemma ConsOnlySpaces(x: char, c: string)
    requires OnlySpaces(c) && (IsWs(x) ==> x == ' ')
    ensures OnlySpaces([x] + c)
  {
    var r := [x] + c;
    assert forall i :: 1 <= i < |r| ==> r[i] == c[i - 1];
  }

  lemma ConsSingleSpaces(x: char, c: string)
    requires SingleSpaces(c) && (x == ' ' && c != [] ==> c[0] != ' ')
    ensures SingleSpaces([x] + c)
  {
    var r := [x] + c;
    assert forall i :: 1 <= i < |r| ==> r[i] == c[i - 1];
  }

  /** After collapsing, the only whitespace is a space and no two spaces are adjacent. */
  lemma {:induction false} CollapseSpaces(t: string)
    ensures OnlySpaces(Collapse(t)) && SingleSpaces(Collapse(t))
    decreases |t|
  {
    if t != [] {
      var rest := if IsWs(t[0]) then TrimStart(t[1..]) else t[1..];
      CollapseSpaces(rest);
      var x, c := if IsWs(t[0]) then ' ' else t[0], Collapse(rest);
      assert Collapse(t) == [x] + c;
      ConsOnlySpaces(x, c);
      ConsSingleSpaces(x, c);
    }
  }

  /** The characters of s that are not whitespace, in order. */
  function Solid(s: string): string
    decreases |s|
  {
    if s == [] then []
    else (if IsWs(s[0]) then [] else [s[0]]) + Solid(s[1..])
  }

  /** Removing leading whitespace keeps every other character. */
  lemma {:induction false} SolidTrimStart(s: string)
    ensures Solid(TrimStart(s)) == Solid(s)
    decreases |s|
  {
    if s != [] && IsWs(s[0]) {
      SolidTrimStart(s[1..]);
    }
  }

  /** Collapsing keeps the non-whitespace characters and their order. */
  lemma {:induction false} CollapseKeepsText(t: string)
    ensures Solid(Collapse(t)) == Solid(t)
    decreases |t|
  {
    if t != [] {
      var rest := if IsWs(t[0]) then TrimStart(t[1..]) else t[1..];
      CollapseKeepsText(rest);
      var x := if IsWs(t[0]) then ' ' else t[0];
      assert Collapse(t) == [x] + Collapse(rest);
      assert ([x] + Collapse(rest))[1..] == Collapse(rest);
      if IsWs(t[0]) {
        SolidTrimStart(t[1..]);
      }
    }
  }

  /** TrimStart removes exactly a maximal leading run of whitespace. */
  lemma {:induction false} TrimStartRun(w: string, u: string)
    requires AllWs(w) && (u != [] ==> !IsWs(u[0]))
    ensures TrimStart(w + u) == u
    decreases |w|
  {
    if w != [] {
      assert (w + u)[0] == w[0];
      assert (w + u)[1..] == w[1..] + u;
      TrimStartRun(w[1..], u);
    }
  }

  /** A maximal run of whitespace, however long, becomes one space. */
  lemma CollapseRun(w: string, u: string)
    requires w != [] && AllWs(w) && (u != [] ==> !IsWs(u[0]))
    ensures Collapse(w + u) == [' '] + Collapse(u)
  {
    assert (w + u)[0] == w[0];
    assert (w + u)[1..] == w[1..] + u;
    TrimStartRun(w[1..], u);
  }

  /** Leading whitespace of a text that ends in non-whitespace is removed
      without touching what follows it. */
  lemma {:induction false} TrimStartAppend(a: string, b: string)
    requires a != [] && !IsWs(a[|a| - 1])
    ensures TrimStart(a + b) == TrimStart(a) + b
    decreases |a|
  {
    assert (a + b)[0] == a[0];
    if IsWs(a[0]) {
      assert |a| >= 2;
      assert (a + b)[1..] == a[1..] + b;
      TrimStartAppend(a[1..], b);
    }
  }

  /** Collapsing works run by run: cut after a non-whitespace character, the
      two sides collapse on their own. */
  lemma {:induction false} CollapseSplit(p: string, v: string)
    requires p != [] && !IsWs(p[|p| - 1])
    ensures Collapse(p + v) == Collapse(p) + Collapse(v)
    decreases |p|
  {
    var x, rest := CollapseStep(p, v);
    if rest == [] {
      EmptyPrefix(rest, v);
    } else {
      CollapseSplit(rest, v);
    }
    Assoc([x], Collapse(rest), Collapse(v));
  }

  /** A maximal whitespace run between p and u, wherever it stands, becomes
      exactly one space: collapsing p + w + u collapses p and u on their own
      and puts one space between them. */
  lemma CollapseInnerRun(p: string, w: string, u: string)
    requires p != [] && !IsWs(p[|p| - 1])
    requires w != [] && AllWs(w) && (u != [] ==> !IsWs(u[0]))
    ensures Collapse(p + w + u) == Collapse(p) + [' '] + Collapse(u)
  {
    Assoc(p, w, u);
    CollapseSplit(p, w + u);
    CollapseRun(w, u);
    Assoc(Collapse(p), [' '], Collapse(u));
  }

  /** One step of collapsing a text p that ends in non-whitespace, with v
      after it: the first output character x and the rest of p still to do. */
  lemma CollapseStep(p: string, v: string) returns (x: char, rest: string)
    requires p != [] && !IsWs(p[|p| - 1])
    ensures |rest| < |p| && (rest != [] ==> !IsWs(rest[|rest| - 1]))
    ensures Collapse(p) == [x] + Collapse(rest)
    ensures Collapse(p + v) == [x] + Collapse(rest + v)
  {
    var t := p + v;
    assert t[0] == p[0];
    assert t[1..] == p[1..] + v;
    x := if IsWs(p[0]) then ' ' else p[0];
    if IsWs(p[0]) {
      rest := TrimStart(p[1..]);
      TrimStartAppend(p[1..], v);
      TrimStartLast(p[1..]);
    } else {
      rest := p[1..];
    }
  }

  lemma Assoc(a: string, b: string, c: string)
    ensures a + (b + c) == a + b + c
  {
  }

  lemma EmptyPrefix(r: string, a: string)
    requires r == []
    ensures r + a == a
  {
  }

  /** Trimming the start of a text that ends in non-whitespace keeps that end. */
  lemma TrimStartLast(a: string)
    requires a != [] && !IsWs(a[|a| - 1])
    ensures TrimStart(a) != [] && TrimStart(a)[|TrimStart(a)| - 1] == a[|a| - 1]
    ensures |TrimStart(a)| <= |a|
  {
  }

  /** `String(text).trim().replace(/\s+/g, ' ')`. */
  function Normalize(text: string): string
  {
    Collapse(Trim(text))
  }

  /** What normalisation guarantees: the only whitespace is a single space
      between two other characters. */
  ghost predicate IsNormalized(n: string)
  {
    OnlySpaces(n) && (n != [] ==> n[0] != ' ' && n[|n| - 1] != ' ') && SingleSpaces(n)
  }

  lemma NormalizeIsNormalized(text: string)
    ensures IsNormalized(Normalize(text))
  {
    CollapseEdges(Trim(text));
  }

  /** Collapsing a text with no whitespace at either end normalises it. */
  lemma CollapseEdges(t: string)
    requires t != [] ==> !IsWs(t[0]) && !IsWs(t[|t| - 1])
    ensures IsNormalized(Collapse(t))
  {
    CollapseSpaces(t);
  }

  /** Index of the first space. */
  function FirstSpace(s: string): (i: nat)
    requires ' ' in s
    ensures i < |s| && s[i] == ' ' && ' ' !in s[..i]
  {
    if s[0] == ' ' then 0
    else
      assert s == [s[0]] + s[1..];
      var j := FirstSpace(s[1..]);
      assert s[..j + 1] == [s[0]] + s[1..][..j];
      j + 1
  }

  /** `s.split(' ')`. */
  function SplitOnSpace(s: string): (parts: seq<string>)
    ensures |parts| >= 1
    ensures forall k :: 0 <= k < |parts| ==> ' ' !in parts[k]
    decreases |s|
  {
    if ' ' !in s then [s]
    else
      var i := FirstSpace(s);
      [s[..i]] + SplitOnSpace(s[i + 1..])
  }

  /** `words.join(' ')`. */
  function JoinWords(ws: seq<string>): string
  {
    if |ws| == 0 then ""
    else if |ws| == 1 then ws[0]
    else ws[0] + " " + JoinWords(ws[1..])
  }

  /** Splitting on spaces and joining with spaces gives the text back. */
  lemma {:induction false} JoinSplit(s: string)
    ensures JoinWords(SplitOnSpace(s)) == s
    decreases |s|
  {
    if ' ' in s {
      var i := FirstSpace(s);
      var parts, rest := SplitOnSpace(s), SplitOnSpace(s[i + 1..]);
      assert parts == [s[..i]] + rest;
      assert parts[1..] == rest;
      calc {
        JoinWords(parts);
        s[..i] + " " + JoinWords(rest);
        { JoinSplit(s[i + 1..]); }
        s[..i] + " " + s[i + 1..];
        { assert s == s[..i] + " " + s[i + 1..]; }
        s;
      }
    }
  }

  /** The words of a normalised non-empty text are non-empty. */
  lemma {:induction false} SplitPartsNonEmpty(n: string)
    requires IsNormalized(n) && n != []
    ensures forall k :: 0 <= k < |SplitOnSpace(n)| ==> SplitOnSpace(n)[k] != []
    decreases |n|
  {
    if ' ' in n {
      var i := FirstSpace(n);
      var rest := n[i + 1..];
      assert i > 0;
      assert i < |n| - 1;
      assert rest[0] == n[i + 1];
      assert forall j :: 0 <= j < |rest| ==> rest[j] == n[i + 1 + j];
      assert IsNormalized(rest);
      SplitPartsNonEmpty(rest);
    }
  }

  /** Joining a split sequence: the prefix, a space and the suffix. */
  lemma {:induction false} JoinSplitAt(ws: seq<string>, k: nat)
    requires 0 < k < |ws|
    ensures JoinWords(ws[..k]) + " " + JoinWords(ws[k..]) == JoinWords(ws)
  {
    if k == 1 {
      assert ws[..1] == [ws[0]];
    } else {
      JoinSplitAt(ws[1..], k - 1);
      assert ws[1..][..k - 1] == ws[..k][1..];
      assert ws[1..][k - 1..] == ws[k..];
    }
  }

  /** A longer trailing run of words never joins to a shorter text. */
  lemma {:induction false} JoinSuffixMono(ws: seq<string>, j: nat, k: nat)
    requires j <= k <= |ws|
    ensures |JoinWords(ws[k..])| <= |JoinWords(ws[j..])|
    decreases k - j
  {
    if j < k {
      JoinSuffixMono(ws, j + 1, k);
      if j + 1 < |ws| {
        assert ws[j..][1..] == ws[j + 1..];
      }
    }
  }

  /** The joined text ends with the last word, after a space when there are more. */
  lemma JoinEndsWithLast(ws: seq<string>)
    requires |ws| >= 1
    ensures |ws| == 1 ==> JoinWords(ws) == ws[0]
    ensures |ws| >= 2 ==> JoinWords(ws) == JoinWords(ws[..|ws| - 1]) + " " + ws[|ws| - 1]
  {
    if |ws| >= 2 {
      JoinInitLast(ws);
    }
  }

  lemma JoinInitLast(ws: seq<string>)
    requires |ws| >= 2
    ensures JoinWords(ws) == JoinWords(ws[..|ws| - 1]) + " " + ws[|ws| - 1]
  {
    var n := |ws|;
    var last := ws[n - 1..];
    assert last == [ws[n - 1]];
    JoinSplitAt(ws, n - 1);
  }

  /**
   * Where the backward loop's accepted run of trailing words starts, when
   * `parts[c..]` is already accepted: it stops at the first longer run that
   * exceeds the maximum.
   */
  function Fit(parts: seq<string>, c: nat): (s: nat)
    requires c <= |parts|
    requires c < |parts| ==> |JoinWords(parts[c..])| <= MAX_GLITCH_CHARS
    ensures s <= c
    ensures s < |parts| ==> |JoinWords(parts[s..])| <= MAX_GLITCH_CHARS
    ensures s > 0 ==> |JoinWords(parts[s - 1..])| > MAX_GLITCH_CHARS
    decreases c
  {
    if c > 0 && |JoinWords(parts[c - 1..])| <= MAX_GLITCH_CHARS then Fit(parts, c - 1)
    else c
  }

  /** Where the run starts after the minimum-length fallback: at the last
      word when the fitting run is shorter than 15 characters. */
  function MinStart(parts: seq<string>): (s: nat)
    requires |parts| >= 2
    ensures s < |parts|
  {
    var s0 := Fit(parts, |parts|);
    if |JoinWords(parts[s0..])| < MIN_GLITCH_CHARS then |parts| - 1 else s0
  }

  /** Where the words are cut: the number of words left before the span. A
      run that takes the whole sentence is replaced by its last half. */
  function Cut(parts: seq<string>): (m: nat)
    requires |parts| >= 2
    ensures 0 < m < |parts|
  {
    var s1 := MinStart(parts);
    if s1 == 0 then |parts| - Max(1, |parts| / 2) else s1
  }

  /** The prefix/span pair that keeps the first m words out of the span. */
  function SplitAt(parts: seq<string>, m: nat): Split
    requires m <= |parts|
  {
    Split(if m > 0 then JoinWords(parts[..m]) + " " else "", JoinWords(parts[m..]))
  }

  /** What `splitLastWord` returns for a heading's text (None for `null`). */
  function SplitSpec(text: string): Option<Split>
  {
    SplitWords(Normalize(text))
  }

  /** The same, from the normalised text on. */
  function SplitWords(n: string): Option<Split>
  {
    if n == [] then None
    else
      var parts := SplitOnSpace(n);
      if |parts| == 1 then
        if |n| <= MAX_GLITCH_CHARS then Some(Split("", parts[0])) else None
      else Some(SplitAt(parts, Cut(parts)))
  }

  /** The source's procedure. */
  method SplitLastWord(text: string) returns (r: Option<Split>)
    ensures r == SplitSpec(text)
  {
    var normalized := Normalize(text);
    if normalized == [] {
      return None;
    }
    var parts := SplitOnSpace(normalized);
    if |parts| == 1 {
      return if |normalized| <= MAX_GLITCH_CHARS then Some(Split("", parts[0])) else None;
    }
    var split := ChooseTrailingWords(parts);
    r := Some(split);
  }

  lemma LastWordSlice(parts: seq<string>)
    requires |parts| >= 1
    ensures [parts[|parts| - 1]] == parts[|parts| - 1..]
  {
  }

  /** The backward loop: accept longer and longer trailing runs of words until
      one exceeds the maximum. */
  method AccumulateTrailing(parts: seq<string>) returns (glitchWords: seq<string>, glitchText: string)
    ensures glitchWords == parts[Fit(parts, |parts|)..]
    ensures glitchText == JoinWords(glitchWords)
  {
    glitchText := "";
    glitchWords := [];
    var i := |parts| - 1;
    while i >= 0
      invariant -1 <= i <= |parts| - 1
      invariant glitchWords == parts[i + 1..]
      invariant glitchText == JoinWords(glitchWords)
      invariant |glitchWords| > 0 ==> |glitchText| <= MAX_GLITCH_CHARS
      invariant Fit(parts, i + 1) == Fit(parts, |parts|)
      decreases i
    {
      var testText := JoinWords(parts[i..]);
      if |testText| > MAX_GLITCH_CHARS {
        break;
      }
      glitchText := testText;
      glitchWords := parts[i..];
      i := i - 1;
    }
  }

  /** The part of the procedure that runs for two or more words. */
  method ChooseTrailingWords(parts: seq<string>) returns (split: Split)
    requires |parts| >= 2
    ensures split == SplitAt(parts, Cut(parts))
  {
    var glitchWords, glitchText := AccumulateTrailing(parts);
    glitchWords := EnsureMinimum(parts, glitchWords, glitchText);
    glitchWords := AvoidWholeSentence(parts, glitchWords);
    var beforeWords := parts[..|parts| - |glitchWords|];
    split := Split(if |beforeWords| > 0 then JoinWords(beforeWords) + " " else "",
                   JoinWords(glitchWords));
    SuffixSplit(parts, glitchWords, Cut(parts));
  }

  /** Fall back to the last word alone when the run is under 15 characters.
      The result is the words from `MinStart(parts)` on; what that choice
      guarantees of the split is proved in SplitSpecNone, TrailingSpan and
      SplitAtParts. */
  method EnsureMinimum(parts: seq<string>, glitchWords: seq<string>, glitchText: string)
    returns (words: seq<string>)
    requires |parts| >= 2
    requires glitchWords == parts[Fit(parts, |parts|)..] && glitchText == JoinWords(glitchWords)
    ensures words == parts[MinStart(parts)..]
  {
    words := glitchWords;
    if |glitchText| < MIN_GLITCH_CHARS && |parts| > 1 {
      words := [parts[|parts| - 1]];
      LastWordSlice(parts);
    }
  }

  /** Never animate the whole sentence: keep the last half of the words instead.
      The result is the words from `Cut(parts)` on; what that choice
      guarantees of the split is proved in SplitSpecNone, TrailingSpan and
      SplitAtParts. */
  method AvoidWholeSentence(parts: seq<string>, glitchWords: seq<string>) returns (words: seq<string>)
    requires |parts| >= 2 && glitchWords == parts[MinStart(parts)..]
    ensures words == parts[Cut(parts)..]
  {
    words := glitchWords;
    if |glitchWords| == |parts| {
      words := parts[|parts| - Max(1, |parts| / 2)..];
    }
  }

  /** Cutting before the trailing words `parts[m..]` is `SplitAt(parts, m)`. */
  lemma SuffixSplit(parts: seq<string>, g: seq<string>, m: nat)
    requires m <= |parts| && g == parts[m..]
    ensures var b := parts[..|parts| - |g|];
      Split(if |b| > 0 then JoinWords(b) + " " else "", JoinWords(g)) == SplitAt(parts, m)
  {
  }

  /** `null` exactly for an empty text, or a single word over 30 characters. */
  lemma SplitSpecNone(text: string)
    ensures SplitSpec(text).None? <==>
      Normalize(text) == [] || (' ' !in Normalize(text) && |Normalize(text)| > MAX_GLITCH_CHARS)
  {
    var n := Normalize(text);
    if n != [] {
      var parts := SplitOnSpace(n);
      JoinSplit(n);
      if ' ' in n {
        assert |parts| >= 2;
      }
    }
  }

  /** A cut that leaves two or more words in the span leaves a run of at most 30 characters. */
  lemma CutFits(parts: seq<string>)
    requires |parts| >= 2
    ensures Cut(parts) < |parts| - 1 ==> |JoinWords(parts[Cut(parts)..])| <= MAX_GLITCH_CHARS
  {
    var s0 := Fit(parts, |parts|);
    if Cut(parts) < |parts| - 1 {
      assert MinStart(parts) == s0 < |parts|;
      JoinSuffixMono(parts, s0, Cut(parts));
    }
  }

  /** Words with no space in them, none empty. */
  ghost predicate ProperWords(parts: seq<string>)
  {
    forall k :: 0 <= k < |parts| ==> parts[k] != [] && ' ' !in parts[k]
  }

  /** Cutting a sequence of proper words after its first m words. */
  lemma SplitAtParts(parts: seq<string>, m: nat)
    requires ProperWords(parts) && 0 < m < |parts|
    ensures SplitAt(parts, m).before + SplitAt(parts, m).word == JoinWords(parts)
    ensures SplitAt(parts, m).word != []
    ensures PrefixShape(SplitAt(parts, m).before) && SplitAt(parts, m).before != []
    ensures var w, last := SplitAt(parts, m).word, parts[|parts| - 1];
      |last| <= |w| && w[|w| - |last|..] == last
    ensures m == |parts| - 1 ==> SplitAt(parts, m).word == parts[|parts| - 1]
  {
    JoinSplitAt(parts, m);
    SplitAtBefore(parts, m);
    SplitAtWord(parts, m);
  }

  /** The prefix ends with a space that follows a word character. */
  lemma SplitAtBefore(parts: seq<string>, m: nat)
    requires ProperWords(parts) && 0 < m < |parts|
    ensures PrefixShape(SplitAt(parts, m).before) && SplitAt(parts, m).before != []
  {
    var head := parts[..m];
    JoinEndsWithLast(head);
    var w := parts[m - 1];
    assert head[|head| - 1] == w && w != [];
    var jh := JoinWords(head);
    assert |jh| >= |w| && jh[|jh| - |w|..] == w;
    assert jh[|jh| - 1] == w[|w| - 1];
    assert w[|w| - 1] in w;
  }

  /** The span is not empty and ends with the last word. */
  lemma SplitAtWord(parts: seq<string>, m: nat)
    requires ProperWords(parts) && 0 < m < |parts|
    ensures SplitAt(parts, m).word != []
    ensures var w, last := SplitAt(parts, m).word, parts[|parts| - 1];
      |last| <= |w| && w[|w| - |last|..] == last
    ensures m == |parts| - 1 ==> SplitAt(parts, m).word == parts[|parts| - 1]
  {
    var tail := parts[m..];
    JoinEndsWithLast(tail);
    assert tail[|tail| - 1] == parts[|parts| - 1];
    if m == |parts| - 1 {
      assert tail == [parts[|parts| - 1]];
    }
  }

  /** The words of a normalised text are proper and rejoin to it; there is
      one word exactly when the text has no space. */
  lemma NormalizedWords(text: string)
    requires Normalize(text) != []
    ensures ProperWords(SplitOnSpace(Normalize(text)))
    ensures JoinWords(SplitOnSpace(Normalize(text))) == Normalize(text)
    ensures |SplitOnSpace(Normalize(text))| == 1 <==> ' ' !in Normalize(text)
  {
    var n := Normalize(text);
    NormalizeIsNormalized(text);
    SplitPartsNonEmpty(n);
    JoinSplit(n);
    if ' ' in n {
      assert |SplitOnSpace(n)| >= 2;
    }
  }

  /** The static prefix is empty, or words followed by exactly one space. */
  predicate PrefixShape(b: string)
  {
    b == [] || (|b| >= 2 && b[|b| - 1] == ' ' && b[|b| - 2] != ' ')
  }

  /**
   * Whenever a span is returned: prefix + span is the normalised text, the
   * span is non-empty, and the prefix is empty or ends in exactly one space.
   */
  lemma SplitSpecSome(text: string)
    requires SplitSpec(text).Some?
    ensures SplitSpec(text).value.before + SplitSpec(text).value.word == Normalize(text)
    ensures SplitSpec(text).value.word != []
    ensures PrefixShape(SplitSpec(text).value.before)
  {
    NormalizedWords(text);
    SplitWordsSome(Normalize(text));
  }

  lemma SplitWordsSome(n: string)
    requires n != [] && ProperWords(SplitOnSpace(n)) && JoinWords(SplitOnSpace(n)) == n
    requires SplitWords(n).Some?
    ensures SplitWords(n).value.before + SplitWords(n).value.word == n
    ensures SplitWords(n).value.word != []
    ensures PrefixShape(SplitWords(n).value.before)
  {
    var parts := SplitOnSpace(n);
    if |parts| >= 2 {
      SplitManyWords(n);
      SplitAtParts(parts, Cut(parts));
    } else {
      SplitOneWord(n);
    }
  }

  /** A text of several words is cut where `Cut` says. */
  lemma SplitManyWords(n: string)
    requires n != [] && |SplitOnSpace(n)| >= 2
    ensures SplitWords(n) == Some(SplitAt(SplitOnSpace(n), Cut(SplitOnSpace(n))))
  {
  }

  /** A normalised text of one word is kept whole, or gives no span. */
  lemma SplitOneWord(n: string)
    requires JoinWords(SplitOnSpace(n)) == n && |SplitOnSpace(n)| == 1
    ensures SplitWords(n).Some? ==> SplitWords(n) == Some(Split("", n))
  {
  }

  /**
   * For two or more words the animated span is the last k words for some
   * 1 <= k < number of words, so at least one word stays before it.
   */
  lemma SplitSpecMultiWord(text: string)
    requires ' ' in Normalize(text)
    ensures var parts := SplitOnSpace(Normalize(text));
      |parts| >= 2 && 0 < Cut(parts) < |parts| && SplitSpec(text) == Some(SplitAt(parts, Cut(parts)))
  {
    NormalizedWords(text);
  }

  /**
   * The span chosen from two or more words leaves a non-empty prefix, ends
   * with the last word, and is at most 30 characters unless it is exactly the
   * last word.
   */
  lemma TrailingSpan(parts: seq<string>)
    requires ProperWords(parts) && |parts| >= 2
    ensures var sp, last := SplitAt(parts, Cut(parts)), parts[|parts| - 1];
      sp.before != [] &&
      (|sp.word| <= MAX_GLITCH_CHARS || sp.word == last) &&
      |last| <= |sp.word| && sp.word[|sp.word| - |last|..] == last
  {
    CutFits(parts);
    SplitAtParts(parts, Cut(parts));
  }
}
