/**
 * The per-heading visibility trigger of public/scripts/heading-glitch.js:
 * `trigger` on entering the viewport, the observer's leave branch, and the
 * safety timeout that `trigger` schedules. The wrapper's `dataset` flags are
 * fields; `__asciiGlitchStop` is the current controller (or null).
 */
module Trigger {
  import opened Wrappers
  import opened JsMath
  import opened Timing
  import opened SpanSelector
  import opened Compositor
  import opened Controller

  const DEFAULT_MODE: string := "left"

  /** `Math.ceil(durationMs + 60)` with `durationMs = tickMs * (len + 10)` at the default speed. */
  function TimeoutDelay(len: nat): (ms: int)
    ensures ms == 52 * (len + 10) + 60
  {
    IntervalDefault();
    Ceil(IntervalMsFromSpeed(Num(DEFAULT_SPEED)) * (len as real + DEFAULT_SCRAMBLED_LETTERS) + 60.0)
  }

  /** The glitch wrapper of one heading and its animation state. */
  class HeadingTrigger {
    /** `dataset.target`: the trailing span chosen by `splitLastWord`. */
    const target: string
    /** The overlay span the animation writes to. */
    const overlay: Surface
    /** `dataset.asciiGlitchRunning === '1'`. */
    var running: bool
    /** `dataset.asciiGlitchHasRun === '1'`. */
    var hasRun: bool
    /** The `ascii-glitching` class is present. */
    var glitching: bool
    /** `__asciiGlitchStop`: the controller whose stop handle is stored. */
    var handle: ScrambleAppear?
    /** Due times of the safety timeouts scheduled and not yet fired. */
    var deadlines: seq<real>
    /** Every controller this wrapper has started. */
    ghost var runs: set<ScrambleAppear>

    /** Every controller draws on this overlay; all but the current one are stopped. */
    ghost predicate Valid()
      reads this, runs
    {
      (handle != null ==> handle in runs && !handle.stopped) &&
      (forall c :: c in runs ==> c.el == overlay && c.isElement && c.text == target && c.Valid()) &&
      (forall c :: c in runs && c != handle ==> c.stopped) &&
      (running ==> hasRun) && (glitching ==> hasRun)
    }

    /** The wrapper as built for a heading: overlay showing the target, no run yet. */
    constructor(word: string)
      ensures Valid() && fresh(overlay)
      ensures target == word && overlay.content == Text(word)
      ensures !running && !hasRun && !glitching && handle == null
      ensures deadlines == [] && runs == {}
    {
      target := word;
      overlay := new Surface(Text(word));
      running := false;
      hasRun := false;
      glitching := false;
      handle := null;
      deadlines := [];
      runs := {};
    }

    /** `trigger`: the heading became visible at time `now`. A run already in
        progress makes it a no-op; otherwise the previous controller is stopped
        before a new one is stored, and a safety timeout is scheduled. */
    method Enter(now: real)
      requires Valid()
      modifies this, overlay, handle
      ensures Valid()
      ensures old(running) ==>
        unchanged(this) && overlay.content == old(overlay.content) &&
        (old(handle) != null ==> unchanged(old(handle)))
      ensures !old(running) ==>
        running && hasRun && glitching && handle != null && fresh(handle) &&
        handle.text == target && handle.start == now && handle.mode == DEFAULT_MODE &&
        handle.scrambledLetters == DEFAULT_SCRAMBLED_LETTERS &&
        handle.tickMs == IntervalMsFromSpeed(Num(DEFAULT_SPEED)) &&
        handle.durationMs == DurationMs(handle.tickMs, |target|, DEFAULT_SCRAMBLED_LETTERS) &&
        handle.intervalActive && handle.framePending && !handle.stopped &&
        runs == old(runs) + {handle} &&
        deadlines == old(deadlines) + [now + TimeoutDelay(|target|) as real] &&
        (old(handle) != null ==> old(handle).stopped && overlay.content == Text(target)) &&
        (old(handle) == null ==> overlay.content == old(overlay.content))
    {
      if running {
        return;
      }
      running := true;
      hasRun := true;
      glitching := true;
      if handle != null {
        handle.Stop();
      }
      var c := new ScrambleAppear(overlay, true, target, Num(DEFAULT_SPEED),
                                  DEFAULT_SCRAMBLED_LETTERS, DEFAULT_MODE, now);
      handle := c;
      runs := runs + {c};
      deadlines := deadlines + [now + TimeoutDelay(|target|) as real];
    }

    /** The observer's leave branch: only the running flag is cleared. */
    method Leave()
      requires Valid()
      modifies this
      ensures Valid()
      ensures !running && hasRun == old(hasRun) && glitching == old(glitching)
      ensures handle == old(handle) && deadlines == old(deadlines) && runs == old(runs)
    {
      running := false;
    }

    /** The safety timeout `deadlines[i]` fires at time `now`, not before its
        due time. It stops whichever controller is current, possibly one
        started after it was scheduled, and writes the target, but leaves the
        running flag as it is. */
    method TimeoutFires(i: nat, now: real)
      requires Valid() && i < |deadlines| && deadlines[i] <= now
      modifies this, overlay, handle
      ensures Valid()
      ensures running == old(running) && hasRun == old(hasRun)
      ensures !glitching && handle == null && overlay.content == Text(target)
      ensures old(handle) != null ==> old(handle).stopped
      ensures deadlines == old(deadlines[..i] + deadlines[i + 1..]) && runs == old(runs)
    {
      glitching := false;
      overlay.content := Text(target);
      if handle != null {
        handle.Stop();
      }
      handle := null;
      deadlines := deadlines[..i] + deadlines[i + 1..];
    }

    /** An animation frame for one of this wrapper's controllers: only the
        current one can change the overlay. */
    method FrameEvent(c: ScrambleAppear, now: real)
      requires Valid() && c in runs
      modifies c, overlay
      ensures Valid()
      ensures c != handle ==> overlay.content == old(overlay.content)
    {
      c.Frame(now);
    }

    /** A refresh-interval firing for one of this wrapper's controllers. */
    method TickEvent(c: ScrambleAppear)
      requires Valid() && c in runs
      modifies c
      ensures Valid()
      ensures c != handle ==> c.scrambled == old(c.scrambled)
    {
      c.Tick();
    }
  }

  /** `ensureGlitchSpan` for a heading's text: no wrapper when `splitLastWord`
      gives null, otherwise a wrapper whose target is the chosen span. */
  method Attach(headingText: string) returns (t: HeadingTrigger?)
    ensures SplitSpec(headingText).None? <==> t == null
    ensures t != null ==>
      (fresh(t) && t.Valid() && t.target == SplitSpec(headingText).value.word &&
       t.target != [] && t.overlay.content == Text(t.target) &&
       !t.running && !t.hasRun && t.handle == null)
  {
    var split := SplitLastWord(headingText);
    if split.None? {
      return null;
    }
    SplitSpecSome(headingText);
    t := new HeadingTrigger(split.value.word);
  }

  /**
   * Enter at 0 ms, leave, enter again at 100 ms: the first safety timeout,
   * due at TimeoutDelay ms, stops the second run before that run's own end
   * at 100 ms + its duration, and the heading stays marked running although
   * no animation is left.
   */
  method StaleTimeout(word: string) returns (t: HeadingTrigger, second: ScrambleAppear, firedAt: real)
    ensures t.Valid() && t.running && t.handle == null && second in t.runs && second.stopped
    ensures t.overlay.content == Text(word) && t.deadlines == [100.0 + TimeoutDelay(|word|) as real]
    ensures firedAt == TimeoutDelay(|word|) as real && second.start == 100.0
    ensures firedAt < second.start + second.durationMs
  {
    t := new HeadingTrigger(word);
    t.Enter(0.0);
    t.Leave();
    t.Enter(100.0);
    second := t.handle;
    firedAt := TimeoutDelay(|word|) as real;
    t.TimeoutFires(0, firedAt);
    DefaultDuration(|word|);
  }

  /** For the span "SYSTEMS" the run lasts 884 ms and the safety timeout is 944 ms. */
  lemma SystemsTimings()
    ensures DurationMs(IntervalMsFromSpeed(Num(DEFAULT_SPEED)), |"SYSTEMS"|, DEFAULT_SCRAMBLED_LETTERS) == 884.0
    ensures TimeoutDelay(|"SYSTEMS"|) == 944
  {
    DefaultDuration(7);
  }
}
