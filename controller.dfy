/**
 * The controller returned by `scrambleAppear` in public/scripts/heading-glitch.js.
 * The browser's clocks become events: `Tick` is one firing of the refresh
 * interval, `Frame(now)` one animation frame, `Stop` the returned stop handle.
 * The interval and the requested frame are modelled by whether they are live.
 */
module Controller {
  import opened JsMath
  import opened Timing
  import opened Scrambler
  import opened Compositor

  /** What an element shows: plain text (`textContent`) or markup (`innerHTML`). */
  datatype Content = Text(text: string) | Markup(html: string)

  /** An element whose content the animation rewrites. */
  class Surface {
    var content: Content

    constructor(c: Content)
      ensures content == c
    {
      content := c;
    }
  }

  /** `durationMs = tickMs * (text.length + Math.max(1, scrambledLetters))`. */
  function DurationMs(tickMs: real, len: nat, scrambledLetters: real): (d: real)
    requires tickMs > 0.0
    ensures d >= tickMs
  {
    var n := len as real + MaxReal(1.0, scrambledLetters);
    MulNonneg(tickMs, n - 1.0);
    tickMs * n
  }

  /** The refresh period handed to `setInterval`: `Math.max(10, Math.floor(tickMs))`. */
  function RefreshMs(tickMs: real): (p: int)
    ensures p >= 10 && p as real <= MaxReal(10.0, tickMs)
  {
    Max(10, Floor(tickMs))
  }

  lemma DivAtLeastOne(x: real, d: real)
    requires d > 0.0 && x >= d
    ensures x / d >= 1.0
  {
    var q := x / d;
    assert q * d == x;
  }

  /** One run of the scramble-reveal animation on one surface. */
  class ScrambleAppear {
    const el: Surface
    /** False when the surface is not an element: the handle then does nothing. */
    const isElement: bool
    const text: string
    const scrambledLetters: real
    const mode: string
    const tickMs: real
    const durationMs: real
    const refreshMs: int
    const start: real

    var scrambled: string
    var stopped: bool
    /** The refresh interval is registered. */
    var intervalActive: bool
    /** An animation frame is requested. */
    var framePending: bool

    ghost predicate Valid()
      reads this
    {
      durationMs > 0.0 &&
      IsScrambleOf(text, scrambled) &&
      (stopped ==> !intervalActive && !framePending) &&
      (!isElement ==> !stopped && !intervalActive && !framePending) &&
      (isElement && !stopped ==> intervalActive == framePending)
    }

    /** The progress of a frame at time `now`, clamped to [0,1]. */
    function Progress(now: real): (t: real)
      requires durationMs > 0.0
      ensures 0.0 <= t <= 1.0
      ensures now <= start ==> t == 0.0
      ensures now >= start + durationMs ==> t == 1.0
    {
      if now >= start + durationMs then
        DivAtLeastOne(now - start, durationMs);
        ClampReal((now - start) / durationMs, 0.0, 1.0)
      else
        ClampReal((now - start) / durationMs, 0.0, 1.0)
    }

    /** Start the animation at time `now`: draw a first scramble, register the
        interval and request the first frame (nothing at all for a non-element). */
    constructor(surface: Surface, isElement: bool, targetText: string, speed: JsNumber,
                scrambledLetters: real, mode: string, now: real)
      ensures Valid()
      ensures el == surface && this.isElement == isElement && text == targetText
      ensures this.scrambledLetters == scrambledLetters && this.mode == mode && start == now
      ensures tickMs == IntervalMsFromSpeed(speed)
      ensures durationMs == DurationMs(tickMs, |targetText|, scrambledLetters)
      ensures refreshMs == RefreshMs(tickMs)
      ensures !stopped && intervalActive == isElement && framePending == isElement
    {
      var tick := IntervalMsFromSpeed(speed);
      var s := MakeScrambledVariant(targetText);
      el := surface;
      this.isElement := isElement;
      text := targetText;
      this.scrambledLetters := scrambledLetters;
      this.mode := mode;
      tickMs := tick;
      durationMs := DurationMs(tick, |targetText|, scrambledLetters);
      refreshMs := RefreshMs(tick);
      start := now;
      scrambled := s;
      stopped := false;
      intervalActive := isElement;
      framePending := isElement;
    }

    /** One firing of the refresh interval: a fresh scramble of the target. */
    method Tick()
      requires Valid()
      modifies this
      ensures Valid()
      ensures stopped == old(stopped) && intervalActive == old(intervalActive)
      ensures framePending == old(framePending)
      ensures !old(intervalActive) ==> scrambled == old(scrambled)
    {
      if intervalActive {
        scrambled := MakeScrambledVariant(text);
      }
    }

    /** One animation frame at time `now`. While t < 1 the frame renders the
        three (or five) slices and requests the next one; at t = 1 it renders,
        clears the interval and writes the exact target. */
    method Frame(now: real)
      requires Valid()
      modifies this, el
      ensures Valid()
      ensures scrambled == old(scrambled) && stopped == old(stopped)
      ensures !old(framePending) || old(stopped) ==>
        el.content == old(el.content) && intervalActive == old(intervalActive)
        && framePending == old(framePending)
      ensures old(framePending) && !old(stopped) ==>
        var t := Progress(now);
        framePending == (t < 1.0) && intervalActive == (t < 1.0) &&
        el.content == (if t < 1.0 then Markup(RenderScrambleAppear(text, scrambled, t, Num(scrambledLetters), mode))
                       else Text(text))
    {
      if !framePending {
        return;
      }
      if stopped {
        return;
      }
      framePending := false;
      var t := Progress(now);
      el.content := Markup(RenderScrambleAppear(text, scrambled, t, Num(scrambledLetters), mode));
      if t < 1.0 {
        framePending := true;
      } else {
        intervalActive := false;
        el.content := Text(text);
      }
    }

    /** The stop handle: cancel both clocks and write the exact target. For a
        surface that is not an element it does nothing. The new state does not
        depend on the old one, so calling it again changes nothing. */
    method Stop()
      requires Valid()
      modifies this, el
      ensures Valid()
      ensures scrambled == old(scrambled)
      ensures isElement ==> stopped && !intervalActive && !framePending && el.content == Text(text)
      ensures !isElement ==> (el.content == old(el.content) && stopped == old(stopped)
        && intervalActive == old(intervalActive) && framePending == old(framePending))
    {
      if isElement {
        stopped := true;
        intervalActive := false;
        framePending := false;
        el.content := Text(text);
      }
    }
  }

  /** Once the frame that reaches t = 1 has run, the controller is idle: it
      neither ticks nor requests frames, and the surface shows the target. */
  method RunToEnd(c: ScrambleAppear, now: real)
    requires c.Valid() && c.isElement && !c.stopped && c.framePending
    requires now >= c.start + c.durationMs
    modifies c, c.el
    ensures c.Valid() && !c.intervalActive && !c.framePending && c.el.content == Text(c.text)
  {
    c.Frame(now);
  }

  /** Stopping twice leaves the surface equal to the target, as stopping once does. */
  method StopTwice(c: ScrambleAppear)
    requires c.Valid() && c.isElement
    modifies c, c.el
    ensures c.Valid() && c.stopped && c.el.content == Text(c.text)
  {
    c.Stop();
    c.Stop();
  }

  /** A frame delivered after the stop handle ran changes nothing. */
  method FrameAfterStop(c: ScrambleAppear, now: real)
    requires c.Valid() && c.isElement
    modifies c, c.el
    ensures c.Valid() && c.stopped && c.el.content == Text(c.text) && !c.framePending
  {
    c.Stop();
    c.Frame(now);
  }

  /** Duration at the default speed with 10 scrambled letters: 52 ms per character
      of the target plus 10. */
  lemma DefaultDuration(len: nat)
    ensures DurationMs(IntervalMsFromSpeed(Num(DEFAULT_SPEED)), len, 10.0) == 52.0 * (len as real + 10.0)
    ensures RefreshMs(IntervalMsFromSpeed(Num(DEFAULT_SPEED))) == 52
  {
    IntervalDefault();
  }
}
