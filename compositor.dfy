/**
 * `renderScrambleAppear` of public/scripts/heading-glitch.js: for a progress
 * t in [0,1], cut the span into revealed, scrambled and hidden slices
 * (left, right or center mode; 'random' and unknown modes act as 'left'),
 * drop the empty slices and render each as an escaped `<span>`.
 */
module Compositor {
  import opened JsMath
  import opened Escape

  const DEFAULT_SCRAMBLED_LETTERS: real := 10.0

  datatype Tag = Revealed | Scrambled | Hidden

  /** One slice of the span and how it is shown. */
  datatype Part = Part(text: string, tag: Tag)

  /** `s.slice(from, to)` for non-negative bounds: clipped to the string, empty
      when `to` is not after `from`. */
  function Slice(s: string, from: int, to: int): (r: string)
    requires 0 <= from && 0 <= to
    ensures from <= to <= |s| ==> r == s[from..to]
    ensures to <= from ==> r == []
  {
    var e := Min(to, |s|);
    if from >= e then [] else s[from..e]
  }

  /** `r = Math.max(1, Math.floor(scrambledLetters || 10))`. */
  function WindowSize(scrambledLetters: JsNumber): (r: int)
    ensures r >= 1
  {
    Max(1, Floor(OrDefault(scrambledLetters, DEFAULT_SCRAMBLED_LETTERS)))
  }

  /** Left mode: the window's start `a` and end `b`. */
  function LeftBounds(len: nat, r: int, t: real): (ab: (int, int))
    ensures 0 <= ab.0 <= len && 0 <= ab.1 <= len
  {
    (Clamp(Floor(Lerp(-r as real, len as real, t)), 0, len),
     Clamp(Floor(Lerp(0.0, (len + r) as real, t)), 0, len))
  }

  /** Right mode: the window's start `a` and end `b`. */
  function RightBounds(len: nat, r: int, t: real): (ab: (int, int))
    ensures 0 <= ab.0 <= len && 0 <= ab.1 <= len
  {
    (Clamp(Floor(Lerp(len as real, -r as real, t)), 0, len),
     Clamp(Floor(Lerp((len + r) as real, 0.0, t)), 0, len))
  }

  /** Center mode: `mid = Math.ceil(len / 2)`. */
  function Mid(len: nat): (m: int)
    ensures m == (len + 1) / 2
  {
    var m := Ceil(len as real / 2.0);
    assert ((len + 1) / 2 - 1) as real < len as real / 2.0 <= ((len + 1) / 2) as real;
    m
  }

  /** Center mode: `half = Math.max(Math.floor(r / 2), 1)`. */
  function Half(r: int): (h: int)
    ensures h == Max(r / 2, 1)
  {
    assert (r / 2) as real <= r as real / 2.0 < (r / 2) as real + 1.0;
    Max(Floor(r as real / 2.0), 1)
  }

  /** Center mode: leftA, leftB, rightB, rightA. */
  datatype CenterCuts = CenterCuts(leftA: int, leftB: int, rightB: int, rightA: int)

  function CenterBounds(len: nat, r: int, t: real): (c: CenterCuts)
    ensures 0 <= c.leftA && 0 <= c.leftB && 0 <= c.rightB && 0 <= c.rightA
  {
    var mid := Mid(len);
    var half := Half(r);
    var leftEdge := Lerp(mid as real, -half as real, t);
    var rightEdge := Lerp((mid + half) as real, 0.0, t);
    CenterCuts(Clamp(Floor(leftEdge), 0, len),
               Clamp(Floor(rightEdge), 0, mid),
               Clamp(len - Floor(rightEdge), mid, len),
               Clamp(len - Floor(leftEdge), 0, len))
  }

  /** Left and right modes: the three slices, with the tags of the outer two. */
  function SideParts(target: string, scrambled: string, a: int, b: int, first: Tag, last: Tag): seq<Part>
    requires 0 <= a && 0 <= b
  {
    [Part(Slice(target, 0, a), first),
     Part(Slice(scrambled, a, b), Scrambled),
     Part(Slice(target, b, |target|), last)]
  }

  /** Center mode: the five slices. */
  function CenterParts(target: string, scrambled: string, c: CenterCuts): seq<Part>
    requires 0 <= c.leftA && 0 <= c.leftB && 0 <= c.rightB && 0 <= c.rightA
  {
    [Part(Slice(target, 0, c.leftA), Hidden),
     Part(Slice(scrambled, c.leftA, c.leftB), Scrambled),
     Part(Slice(target, c.leftB, c.rightB), Revealed),
     Part(Slice(scrambled, c.rightB, c.rightA), Scrambled),
     Part(Slice(target, c.rightA, |target|), Hidden)]
  }

  /** The slices before empty ones are dropped, for the clamped progress t. */
  function Parts(target: string, scrambled: string, progress: real,
                 scrambledLetters: JsNumber, mode: string): seq<Part>
    decreases if mode == "random" then 1 else 0
  {
    var len := |target|;
    var r := WindowSize(scrambledLetters);
    var t := ClampReal(progress, 0.0, 1.0);
    if mode == "center" then
      CenterParts(target, scrambled, CenterBounds(len, r, t))
    else if mode == "right" then
      var (a, b) := RightBounds(len, r, t);
      SideParts(target, scrambled, a, b, Hidden, Revealed)
    else if mode == "random" then
      Parts(target, scrambled, progress, scrambledLetters, "left")
    else
      var (a, b) := LeftBounds(len, r, t);
      SideParts(target, scrambled, a, b, Revealed, Hidden)
  }

  /** A slice kept by the filter. */
  function Keep(p: Part): seq<Part>
  {
    if |p.text| > 0 then [p] else []
  }

  /** `parts.filter((p) => p.text.length > 0)`. */
  function NonEmpty(parts: seq<Part>): seq<Part>
  {
    if parts == [] then []
    else Keep(parts[0]) + NonEmpty(parts[1..])
  }

  const HIDDEN_OPEN: string := "<span style=\"opacity:0\">"
  const OPEN: string := "<span>"
  const CLOSE: string := "</span>"

  /** One slice as markup. */
  function SpanHtml(p: Part): string
  {
    (if p.tag == Hidden then HIDDEN_OPEN else OPEN) + EscapeHtml(p.text) + CLOSE
  }

  /** `.map(...).join('')`. */
  function Html(parts: seq<Part>): (html: string)
    ensures parts != [] ==> html != []
  {
    if parts == [] then "" else SpanHtml(parts[0]) + Html(parts[1..])
  }

  /** What the compositor writes to the surface's `innerHTML`. */
  function RenderScrambleAppear(target: string, scrambled: string, progress: real,
                                scrambledLetters: JsNumber, mode: string): string
  {
    var html := Html(NonEmpty(Parts(target, scrambled, progress, scrambledLetters, mode)));
    if html == "" then EscapeHtml(target) else html
  }

  // ---------------------------------------------------------------------------
  // Properties

  /** The reveal window: `scrambledLetters || 10`, floored, at least 1. */
  lemma WindowSizeCases(v: real)
    ensures WindowSize(NaN) == 10 && WindowSize(Num(0.0)) == 10
    ensures v >= 1.0 ==> WindowSize(Num(v)) == Floor(v)
    ensures v < 1.0 && v != 0.0 ==> WindowSize(Num(v)) == 1
  {
  }

  /** 'random' and every mode other than 'center' and 'right' act as 'left'. */
  lemma OtherModesAreLeft(target: string, scrambled: string, progress: real,
                          sl: JsNumber, mode: string)
    requires mode != "center" && mode != "right"
    ensures Parts(target, scrambled, progress, sl, mode) == Parts(target, scrambled, progress, sl, "left")
    ensures RenderScrambleAppear(target, scrambled, progress, sl, mode)
         == RenderScrambleAppear(target, scrambled, progress, sl, "left")
  {
  }

  /** Left mode: 0 <= a <= b <= len, and b - a never exceeds the window. */
  lemma LeftBoundsOrdered(len: nat, r: int, t: real)
    requires r >= 1 && 0.0 <= t <= 1.0
    ensures var (a, b) := LeftBounds(len, r, t); 0 <= a <= b <= len && b - a <= r
  {
    var s := Lerp(-r as real, len as real, t);
    var e := Lerp(0.0, (len + r) as real, t);
    assert e == s + r as real;
    FloorAddInt(s, r);
  }

  /** Right mode: 0 <= a <= b <= len, and b - a never exceeds the window. */
  lemma RightBoundsOrdered(len: nat, r: int, t: real)
    requires r >= 1 && 0.0 <= t <= 1.0
    ensures var (a, b) := RightBounds(len, r, t); 0 <= a <= b <= len && b - a <= r
  {
    var s := Lerp(len as real, -r as real, t);
    var e := Lerp((len + r) as real, 0.0, t);
    assert e == s + r as real;
    FloorAddInt(s, r);
  }

  /** The concatenation of the slices' texts. */
  function Texts(parts: seq<Part>): string
  {
    if parts == [] then "" else parts[0].text + Texts(parts[1..])
  }

  lemma NonEmptyOne(p: Part)
    ensures NonEmpty([p]) == Keep(p) && Texts([p]) == p.text
  {
    assert [p][1..] == [];
  }

  /** Filtering and concatenating texts both distribute over `+`. */
  lemma {:induction false} NonEmptyAppend(a: seq<Part>, b: seq<Part>)
    ensures NonEmpty(a + b) == NonEmpty(a) + NonEmpty(b)
  {
    if a == [] {
      assert a + b == b;
    } else {
      var ab := a + b;
      assert ab != [] && ab[0] == a[0] && ab[1..] == a[1..] + b;
      var k, x, y := Keep(a[0]), NonEmpty(a[1..]), NonEmpty(b);
      calc {
        NonEmpty(ab);
        k + NonEmpty(a[1..] + b);
        { NonEmptyAppend(a[1..], b); }
        k + (x + y);
        (k + x) + y;
      }
    }
  }

  lemma NonEmpty3(p0: Part, p1: Part, p2: Part)
    ensures NonEmpty([p0, p1, p2]) == Keep(p0) + Keep(p1) + Keep(p2)
  {
    assert [p0, p1, p2] == [p0] + [p1] + [p2];
    NonEmptyOne(p0);
    NonEmptyOne(p1);
    NonEmptyOne(p2);
    NonEmptyAppend([p0], [p1]);
    NonEmptyAppend([p0] + [p1], [p2]);
  }

  lemma NonEmpty5(p0: Part, p1: Part, p2: Part, p3: Part, p4: Part)
    ensures NonEmpty([p0, p1, p2, p3, p4]) == Keep(p0) + Keep(p1) + Keep(p2) + Keep(p3) + Keep(p4)
  {
    var front, back := [p0, p1, p2], [p3, p4];
    assert [p0, p1, p2, p3, p4] == front + back;
    NonEmpty3(p0, p1, p2);
    assert back == [p3] + [p4];
    NonEmptyOne(p3);
    NonEmptyOne(p4);
    NonEmptyAppend([p3], [p4]);
    NonEmptyAppend(front, back);
  }

  lemma Texts3(p0: Part, p1: Part, p2: Part)
    ensures Texts([p0, p1, p2]) == p0.text + p1.text + p2.text
  {
    var s, t1, t2 := [p0, p1, p2], [p1, p2], [p2];
    assert Texts(t2) == p2.text by { assert t2[1..] == []; }
    assert Texts(t1) == p1.text + Texts(t2) by { assert t1[1..] == t2; }
    assert Texts(s) == p0.text + Texts(t1) by { assert s[1..] == t1; }
  }

  lemma Texts5(p0: Part, p1: Part, p2: Part, p3: Part, p4: Part)
    ensures Texts([p0, p1, p2, p3, p4]) == p0.text + p1.text + p2.text + p3.text + p4.text
  {
    var s, t1, t2 := [p0, p1, p2, p3, p4], [p1, p2, p3, p4], [p2, p3, p4];
    Texts3(p2, p3, p4);
    assert Texts(t1) == p1.text + Texts(t2) by { assert t1[1..] == t2; }
    assert Texts(s) == p0.text + Texts(t1) by { assert s[1..] == t1; }
  }

  lemma HtmlOne(p: Part)
    ensures Html([p]) == SpanHtml(p)
  {
    assert [p][1..] == [];
  }

  /** The three side slices at 0 <= a <= b <= len cover the span exactly. */
  lemma SideTexts(target: string, scrambled: string, a: int, b: int, first: Tag, last: Tag)
    requires 0 <= a <= b <= |target| == |scrambled|
    ensures Texts(SideParts(target, scrambled, a, b, first, last))
         == target[..a] + scrambled[a..b] + target[b..]
  {
    Texts3(Part(Slice(target, 0, a), first), Part(Slice(scrambled, a, b), Scrambled),
           Part(Slice(target, b, |target|), last));
  }

  /** The mode's two bounds, for left, right and the modes that act as left. */
  function SideBounds(len: nat, r: int, t: real, mode: string): (int, int)
  {
    if mode == "right" then RightBounds(len, r, t) else LeftBounds(len, r, t)
  }

  /** Parts in a mode other than center are the three side slices. */
  lemma SideModeParts(target: string, scrambled: string, progress: real, sl: JsNumber, mode: string)
    requires mode != "center"
    ensures var (a, b) := SideBounds(|target|, WindowSize(sl), ClampReal(progress, 0.0, 1.0), mode);
      Parts(target, scrambled, progress, sl, mode)
        == if mode == "right" then SideParts(target, scrambled, a, b, Hidden, Revealed)
           else SideParts(target, scrambled, a, b, Revealed, Hidden)
  {
  }

  /**
   * Left and right modes cut the span into three consecutive slices at
   * 0 <= a <= b <= len that cover it exactly: the target's text outside the
   * window and the scrambled variant's text inside it.
   */
  lemma LeftRightCover(target: string, scrambled: string, progress: real, sl: JsNumber, mode: string)
    requires mode != "center" && |scrambled| == |target|
    ensures var (a, b) := SideBounds(|target|, WindowSize(sl), ClampReal(progress, 0.0, 1.0), mode);
      0 <= a <= b <= |target| &&
      Texts(Parts(target, scrambled, progress, sl, mode)) == target[..a] + scrambled[a..b] + target[b..]
  {
    var len, r, t := |target|, WindowSize(sl), ClampReal(progress, 0.0, 1.0);
    var (a, b) := SideBounds(len, r, t, mode);
    if mode == "right" {
      RightBoundsOrdered(len, r, t);
      SideTexts(target, scrambled, a, b, Hidden, Revealed);
    } else {
      LeftBoundsOrdered(len, r, t);
      SideTexts(target, scrambled, a, b, Revealed, Hidden);
    }
    SideModeParts(target, scrambled, progress, sl, mode);
  }

  /** Left mode reveals progressively: a later progress never reveals less. */
  lemma LeftRevealMonotone(len: nat, r: int, t1: real, t2: real)
    requires r >= 1 && 0.0 <= t1 <= t2 <= 1.0
    ensures LeftBounds(len, r, t1).0 <= LeftBounds(len, r, t2).0
    ensures LeftBounds(len, r, t1).1 <= LeftBounds(len, r, t2).1
  {
    MulNonneg((len + r) as real, t2 - t1);
    FloorMono(Lerp(-r as real, len as real, t1), Lerp(-r as real, len as real, t2));
    FloorMono(Lerp(0.0, (len + r) as real, t1), Lerp(0.0, (len + r) as real, t2));
  }

  /** In center mode the scrambled window is half wide: rightEdge = leftEdge + half. */
  lemma CenterEdges(len: nat, r: int, t: real)
    requires r >= 1 && 0.0 <= t <= 1.0
    ensures var mid, half := Mid(len), Half(r);
      var f := Floor(Lerp(mid as real, -half as real, t));
      Floor(Lerp((mid + half) as real, 0.0, t)) == f + half && -half <= f <= mid
  {
    var mid, half := Mid(len), Half(r);
    var le := Lerp(mid as real, -half as real, t);
    assert Lerp((mid + half) as real, 0.0, t) == le + half as real;
    FloorAddInt(le, half);
    LerpBetween(mid as real, -half as real, t);
    FloorMono(-half as real, le);
    FloorMono(le, mid as real);
  }

  /** Center mode, even length: 0 <= leftA <= leftB <= mid <= rightB <= rightA <= len. */
  lemma CenterEvenOrdered(len: nat, r: int, t: real)
    requires r >= 1 && 0.0 <= t <= 1.0 && len % 2 == 0
    ensures var c, mid := CenterBounds(len, r, t), Mid(len);
      0 <= c.leftA <= c.leftB <= mid <= c.rightB <= c.rightA <= len
  {
    CenterEdges(len, r, t);
  }

  /** Parts in center mode are the five center slices. */
  lemma CenterModeParts(target: string, scrambled: string, progress: real, sl: JsNumber)
    ensures Parts(target, scrambled, progress, sl, "center")
         == CenterParts(target, scrambled, CenterBounds(|target|, WindowSize(sl), ClampReal(progress, 0.0, 1.0)))
  {
  }

  /** Five ordered center cuts read the span as five consecutive slices. */
  lemma CenterTexts(target: string, scrambled: string, c: CenterCuts)
    requires 0 <= c.leftA <= c.leftB <= c.rightB <= c.rightA <= |target| == |scrambled|
    ensures Texts(CenterParts(target, scrambled, c))
         == target[..c.leftA] + scrambled[c.leftA..c.leftB] + target[c.leftB..c.rightB]
            + scrambled[c.rightB..c.rightA] + target[c.rightA..]
  {
    Texts5(Part(Slice(target, 0, c.leftA), Hidden),
           Part(Slice(scrambled, c.leftA, c.leftB), Scrambled),
           Part(Slice(target, c.leftB, c.rightB), Revealed),
           Part(Slice(scrambled, c.rightB, c.rightA), Scrambled),
           Part(Slice(target, c.rightA, |target|), Hidden));
  }

  /** Center mode, even length: the five slices cover the span exactly once. */
  lemma CenterEvenCover(target: string, scrambled: string, progress: real, sl: JsNumber)
    requires |target| % 2 == 0 && |scrambled| == |target|
    ensures var c := CenterBounds(|target|, WindowSize(sl), ClampReal(progress, 0.0, 1.0));
      0 <= c.leftA <= c.leftB <= c.rightB <= c.rightA <= |target| &&
      Texts(Parts(target, scrambled, progress, sl, "center"))
        == target[..c.leftA] + scrambled[c.leftA..c.leftB] + target[c.leftB..c.rightB]
           + scrambled[c.rightB..c.rightA] + target[c.rightA..]
  {
    var c := CenterBounds(|target|, WindowSize(sl), ClampReal(progress, 0.0, 1.0));
    CenterEvenOrdered(|target|, WindowSize(sl), ClampReal(progress, 0.0, 1.0));
    CenterModeParts(target, scrambled, progress, sl);
    CenterTexts(target, scrambled, c);
  }

  /** Center mode at t = 0: all four cuts sit at the middle, the right hidden
      slice starting at len - mid. */
  lemma CenterZeroCuts(len: nat, r: int)
    requires r >= 1
    ensures var mid := (len + 1) / 2;
      CenterBounds(len, r, 0.0) == CenterCuts(mid, mid, mid, len - mid)
  {
  }

  /** The five center parts at t = 0, all but the two hidden ones empty. */
  lemma CenterZeroParts(target: string, scrambled: string, sl: JsNumber)
    ensures var mid := (|target| + 1) / 2;
      NonEmpty(Parts(target, scrambled, 0.0, sl, "center"))
        == NonEmpty([Part(target[..mid], Hidden), Part([], Scrambled), Part([], Revealed),
                     Part([], Scrambled), Part(target[|target| - mid..], Hidden)])
  {
    var len, mid := |target|, (|target| + 1) / 2;
    CenterZeroCuts(len, WindowSize(sl));
    CenterModeParts(target, scrambled, 0.0, sl);
    var c := CenterCuts(mid, mid, mid, len - mid);
    assert Slice(target, 0, mid) == target[..mid];
    assert Slice(target, len - mid, len) == target[len - mid..];
    assert Slice(scrambled, mid, mid) == [] && Slice(target, mid, mid) == [];
    assert Slice(scrambled, mid, len - mid) == [];
  }

  /** Center mode, odd length, t = 0: both hidden halves include the middle
      character, so it is emitted twice. */
  lemma CenterOddAtZero(target: string, scrambled: string, sl: JsNumber)
    requires |target| % 2 == 1
    ensures var mid := (|target| + 1) / 2;
      NonEmpty(Parts(target, scrambled, 0.0, sl, "center"))
        == [Part(target[..mid], Hidden), Part(target[mid - 1..], Hidden)]
  {
    var mid := (|target| + 1) / 2;
    CenterZeroParts(target, scrambled, sl);
    assert |target| - mid == mid - 1;
    assert |target[..mid]| > 0 && |target[mid - 1..]| > 0;
    NonEmpty5(Part(target[..mid], Hidden), Part([], Scrambled), Part([], Revealed),
              Part([], Scrambled), Part(target[mid - 1..], Hidden));
  }

  /** Center mode, even length, t = 0: the two halves are hidden. */
  lemma CenterEvenAtZero(target: string, scrambled: string, sl: JsNumber)
    requires |target| % 2 == 0 && |target| > 0
    ensures var mid := |target| / 2;
      NonEmpty(Parts(target, scrambled, 0.0, sl, "center"))
        == [Part(target[..mid], Hidden), Part(target[mid..], Hidden)]
  {
    var mid := |target| / 2;
    CenterZeroParts(target, scrambled, sl);
    assert (|target| + 1) / 2 == mid && |target| - mid == mid;
    assert |target[..mid]| > 0 && |target[mid..]| > 0;
    NonEmpty5(Part(target[..mid], Hidden), Part([], Scrambled), Part([], Revealed),
              Part([], Scrambled), Part(target[mid..], Hidden));
  }

  /** Left and right modes at t <= 0: the whole span is one hidden slice. */
  lemma SidesAtZero(target: string, scrambled: string, progress: real, sl: JsNumber, mode: string)
    requires progress <= 0.0 && mode != "center" && |target| > 0
    ensures NonEmpty(Parts(target, scrambled, progress, sl, mode)) == [Part(target, Hidden)]
    ensures RenderScrambleAppear(target, scrambled, progress, sl, mode)
         == HIDDEN_OPEN + EscapeHtml(target) + CLOSE
  {
    var len, r := |target|, WindowSize(sl);
    SideModeParts(target, scrambled, progress, sl, mode);
    assert target[0..len] == target;
    if mode == "right" {
      assert RightBounds(len, r, 0.0) == (len, len);
      NonEmpty3(Part(target, Hidden), Part([], Scrambled), Part([], Revealed));
    } else {
      assert LeftBounds(len, r, 0.0) == (0, 0);
      NonEmpty3(Part([], Revealed), Part([], Scrambled), Part(target, Hidden));
    }
    HtmlOne(Part(target, Hidden));
  }

  /** Every mode at t >= 1: the whole span is one revealed slice, the exact target. */
  lemma AllAtOne(target: string, scrambled: string, progress: real, sl: JsNumber, mode: string)
    requires progress >= 1.0 && |target| > 0
    ensures NonEmpty(Parts(target, scrambled, progress, sl, mode)) == [Part(target, Revealed)]
    ensures RenderScrambleAppear(target, scrambled, progress, sl, mode)
         == OPEN + EscapeHtml(target) + CLOSE
  {
    if mode == "center" {
      CenterAtOne(target, scrambled, progress, sl);
    } else {
      SidesAtOne(target, scrambled, progress, sl, mode);
    }
    HtmlOne(Part(target, Revealed));
  }

  lemma CenterAtOne(target: string, scrambled: string, progress: real, sl: JsNumber)
    requires progress >= 1.0 && |target| > 0
    ensures NonEmpty(Parts(target, scrambled, progress, sl, "center")) == [Part(target, Revealed)]
  {
    var len, r := |target|, WindowSize(sl);
    assert target[0..len] == target;
    var c := CenterBounds(len, r, 1.0);
    assert c == CenterCuts(0, 0, len, len);
    assert Parts(target, scrambled, progress, sl, "center") == CenterParts(target, scrambled, c);
    NonEmpty5(Part([], Hidden), Part([], Scrambled), Part(target, Revealed),
              Part([], Scrambled), Part([], Hidden));
  }

  lemma SidesAtOne(target: string, scrambled: string, progress: real, sl: JsNumber, mode: string)
    requires progress >= 1.0 && |target| > 0 && mode != "center"
    ensures NonEmpty(Parts(target, scrambled, progress, sl, mode)) == [Part(target, Revealed)]
  {
    var len, r := |target|, WindowSize(sl);
    assert target[0..len] == target;
    SideModeParts(target, scrambled, progress, sl, mode);
    if mode == "right" {
      assert RightBounds(len, r, 1.0) == (0, 0);
      NonEmpty3(Part([], Hidden), Part([], Scrambled), Part(target, Revealed));
    } else {
      assert LeftBounds(len, r, 1.0) == (len, len);
      NonEmpty3(Part(target, Revealed), Part([], Scrambled), Part([], Hidden));
    }
  }

  /** The markup is empty only when every slice is: then the escaped target is written. */
  lemma {:induction false} HtmlEmpty(parts: seq<Part>)
    ensures Html(NonEmpty(parts)) == "" <==> Texts(parts) == ""
  {
    if parts != [] {
      HtmlEmpty(parts[1..]);
    }
  }

  /** An empty target renders as the empty string in every mode. */
  lemma EmptyTarget(scrambled: string, progress: real, sl: JsNumber, mode: string)
    ensures RenderScrambleAppear("", scrambled, progress, sl, mode) == ""
  {
    var ps := Parts("", scrambled, progress, sl, mode);
    HtmlEmpty(ps);
    if mode == "center" {
      var c := CenterBounds(0, WindowSize(sl), ClampReal(progress, 0.0, 1.0));
      assert ps == CenterParts("", scrambled, c);
      Texts5(ps[0], ps[1], ps[2], ps[3], ps[4]);
    } else {
      SideModeParts("", scrambled, progress, sl, mode);
      Texts3(ps[0], ps[1], ps[2]);
    }
  }
}
