/**
 * The numeric helpers of the heading engine (`clamp`, `lerp`, `Math.floor`,
 * `Math.ceil`, `Math.max`) over exact reals and integers.
 * JavaScript doubles are modelled as exact reals: rounding is not modelled.
 */
module JsMath {

  /** The result of JavaScript's `Number(x)`: NaN or a finite value. */
  datatype JsNumber = NaN | Num(v: real)

  /** `x || d` on a number: NaN and 0 are falsy and give the default. */
  function OrDefault(x: JsNumber, d: real): (r: real)
    ensures x.NaN? ==> r == d
    ensures x.Num? && x.v == 0.0 ==> r == d
    ensures x.Num? && x.v != 0.0 ==> r == x.v
  {
    match x
    case NaN => d
    case Num(v) => if v == 0.0 then d else v
  }

  function Min(a: int, b: int): int { if a <= b then a else b }
  function Max(a: int, b: int): int { if a >= b then a else b }
  function MinReal(a: real, b: real): real { if a <= b then a else b }
  function MaxReal(a: real, b: real): real { if a >= b then a else b }

  /** `clamp(value, min, max) = Math.max(min, Math.min(value, max))` on integers. */
  function Clamp(value: int, lo: int, hi: int): (r: int)
    ensures lo <= hi ==> lo <= r <= hi
    ensures lo <= value <= hi ==> r == value
    ensures value < lo ==> r == lo
    ensures hi < value && lo <= hi ==> r == hi
  {
    Max(lo, Min(value, hi))
  }

  /** The same `clamp` on reals. */
  function ClampReal(value: real, lo: real, hi: real): (r: real)
    ensures lo <= hi ==> lo <= r <= hi
    ensures lo <= value <= hi ==> r == value
    ensures value < lo ==> r == lo
    ensures hi < value && lo <= hi ==> r == hi
  {
    MaxReal(lo, MinReal(value, hi))
  }

  /** `lerp(a, b, t) = a + (b - a) * t`. */
  function Lerp(a: real, b: real, t: real): (r: real)
    ensures t == 0.0 ==> r == a
    ensures t == 1.0 ==> r == b
  {
    a + (b - a) * t
  }

  /** `Math.floor`. */
  function Floor(x: real): (r: int)
    ensures r as real <= x < r as real + 1.0
  {
    x.Floor
  }

  /** `Math.ceil`. */
  function Ceil(x: real): (r: int)
    ensures r as real - 1.0 < x <= r as real
  {
    -((-x).Floor)
  }

  /** A product of two non-negative reals is non-negative. */
  lemma MulNonneg(x: real, y: real)
    requires 0.0 <= x && 0.0 <= y
    ensures 0.0 <= x * y
  {
  }

  /** `lerp` stays between its end points while t is in [0,1]. */
  lemma LerpBetween(a: real, b: real, t: real)
    requires 0.0 <= t <= 1.0
    ensures MinReal(a, b) <= Lerp(a, b, t) <= MaxReal(a, b)
  {
    if a <= b {
      MulNonneg(b - a, t);
      MulNonneg(b - a, 1.0 - t);
    } else {
      MulNonneg(a - b, t);
      MulNonneg(a - b, 1.0 - t);
    }
  }

  /** Floor is monotone. */
  lemma FloorMono(x: real, y: real)
    requires x <= y
    ensures Floor(x) <= Floor(y)
  {
  }

  /** Adding an integer commutes with floor. */
  lemma FloorAddInt(x: real, k: int)
    ensures Floor(x + k as real) == Floor(x) + k
  {
  }
}
