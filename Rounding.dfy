/** The numeric primitives app.js relies on: `Math.min` and `Math.max`, and
    the two ways it turns a real number into an integer, `Math.round` (halves
    go up) and the conversion a `Uint8ClampedArray` applies to every value
    stored into it (clamp to 0..255, halves go to even). */
module Rounding {

  /** An 8-bit channel value, as held by a `Uint8ClampedArray`. */
  type Byte = x: int | 0 <= x < 256

  /** `Math.min` of two numbers. */
  function Min(x: real, y: real): real { if x <= y then x else y }

  /** `Math.max` of two numbers. */
  function Max(x: real, y: real): real { if x >= y then x else y }

  /** Multiplying by a non-negative factor preserves order. */
  lemma MulMonotone(c: real, x: real, y: real)
    requires c >= 0.0 && x <= y
    ensures c * x <= c * y
  {
  }

  /** `Math.round`: the nearest integer, a half rounding up towards +infinity. */
  function Round(x: real): (r: int)
    ensures r as real - 0.5 <= x < r as real + 0.5
  {
    (x + 0.5).Floor
  }

  /** The value a `Uint8ClampedArray` stores when assigned `x`: anything at or
      below 0 becomes 0, anything at or above 255 becomes 255, and in between
      the nearest integer, a tie going to the even neighbour. */
  function Uint8Clamp(x: real): (b: Byte)
    ensures x <= 0.0 ==> b == 0
    ensures x >= 255.0 ==> b == 255
    ensures 0.0 < x < 255.0 ==> b as real - 0.5 <= x <= b as real + 0.5
    ensures 0.0 < x < 255.0 && (b as real - x == 0.5 || x - b as real == 0.5) ==> b % 2 == 0
  {
    if x <= 0.0 then 0
    else if x >= 255.0 then 255
    else
      var f := x.Floor;
      if f as real + 0.5 < x then f + 1
      else if x < f as real + 0.5 then f
      else if f % 2 == 0 then f
      else f + 1
  }

  /** Rounding never moves a value past an integer bound that it respects. */
  lemma RoundWithin(x: real, lo: int, hi: int)
    requires lo as real <= x <= hi as real
    ensures lo <= Round(x) <= hi
  {
  }

  /** `Math.round` is monotone. */
  lemma RoundMonotone(x: real, y: real)
    requires x <= y
    ensures Round(x) <= Round(y)
  {
  }

  /** The clamped store is monotone. */
  lemma Uint8ClampMonotone(x: real, y: real)
    requires x <= y
    ensures Uint8Clamp(x) <= Uint8Clamp(y)
  {
  }

  /** Storing an in-range integer stores it unchanged. */
  lemma Uint8ClampExact(k: Byte)
    ensures Uint8Clamp(k as real) == k
  {
  }
}
