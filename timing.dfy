/** `intervalMsFromSpeed` of public/scripts/heading-glitch.js: speed 1..100 onto 200..2 ms. */
module Timing {
  import opened JsMath

  const DEFAULT_SPEED: real := 75.0

  /** The speed after the default for NaN/0 and clamping to [1,100]. */
  function EffectiveSpeed(speed: JsNumber): (s: real)
    ensures 1.0 <= s <= 100.0
  {
    ClampReal(OrDefault(speed, DEFAULT_SPEED), 1.0, 100.0)
  }

  /** Refresh interval in milliseconds for a speed setting. */
  function IntervalMsFromSpeed(speed: JsNumber): (ms: real)
    ensures 2.0 <= ms <= 200.0
  {
    var s := EffectiveSpeed(speed);
    IntervalClosedForm(s);
    Lerp(200.0, 2.0, (s - 1.0) / 99.0)
  }

  /** The linear interpolation simplifies to 202 - 2s. */
  lemma IntervalClosedForm(s: real)
    ensures Lerp(200.0, 2.0, (s - 1.0) / 99.0) == 202.0 - 2.0 * s
  {
    calc {
      Lerp(200.0, 2.0, (s - 1.0) / 99.0);
      200.0 + (2.0 - 200.0) * ((s - 1.0) / 99.0);
      200.0 - 2.0 * (s - 1.0);
    }
  }

  /** The end points: speed 1 gives 200 ms and speed 100 gives 2 ms. */
  lemma IntervalEnds()
    ensures IntervalMsFromSpeed(Num(1.0)) == 200.0
    ensures IntervalMsFromSpeed(Num(100.0)) == 2.0
  {
    IntervalClosedForm(1.0);
    IntervalClosedForm(100.0);
  }

  /** NaN and 0 fall back to speed 75, which gives exactly 52 ms. */
  lemma IntervalDefault()
    ensures IntervalMsFromSpeed(Num(DEFAULT_SPEED)) == 52.0
    ensures IntervalMsFromSpeed(NaN) == 52.0
    ensures IntervalMsFromSpeed(Num(0.0)) == 52.0
  {
    IntervalClosedForm(75.0);
  }

  /** A negative speed clamps to 1 and gives the slowest interval. */
  lemma IntervalNegative(v: real)
    requires v < 0.0
    ensures IntervalMsFromSpeed(Num(v)) == 200.0
  {
    IntervalClosedForm(1.0);
  }

  /** Over every non-zero speed, a higher speed never gives a longer interval. */
  lemma IntervalMonotone(a: real, b: real)
    requires a != 0.0 && b != 0.0 && a <= b
    ensures IntervalMsFromSpeed(Num(b)) <= IntervalMsFromSpeed(Num(a))
  {
    var sa, sb := EffectiveSpeed(Num(a)), EffectiveSpeed(Num(b));
    assert sa <= sb;
    IntervalClosedForm(sa);
    IntervalClosedForm(sb);
  }

  /** Within [1,100] the map is strictly decreasing and linear with slope -2. */
  lemma IntervalLinear(a: real, b: real)
    requires 1.0 <= a <= 100.0 && 1.0 <= b <= 100.0
    ensures IntervalMsFromSpeed(Num(a)) - IntervalMsFromSpeed(Num(b)) == 2.0 * (b - a)
  {
    IntervalClosedForm(a);
    IntervalClosedForm(b);
  }
}
