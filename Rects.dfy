/**
 * Android's integer and float rectangles and the Kotlin conversions the core
 * relies on: `Float.toInt()` (truncation toward zero), `Int / Int`
 * (truncating division) and `coerceIn` (which throws when its bounds cross).
 * Coordinates are unbounded: the 32-bit range of `Int` is not modelled.
 */
module Rects {
  import opened Wrappers

  /** android.graphics.Rect: (left, top) inclusive, (right, bottom) exclusive. */
  datatype Rect = Rect(left: int, top: int, right: int, bottom: int) {
    function Width(): int { right - left }
    function Height(): int { bottom - top }
  }

  /** android.graphics.RectF, with `real` standing for `Float`. */
  datatype RectF = RectF(left: real, top: real, right: real, bottom: real) {
    function Width(): real { right - left }
    function Height(): real { bottom - top }
  }

  function Max(a: int, b: int): int { if a >= b then a else b }
  function Min(a: int, b: int): int { if a <= b then a else b }
  function MaxR(a: real, b: real): real { if a >= b then a else b }
  function MinR(a: real, b: real): real { if a <= b then a else b }
  function AbsR(a: real): real { if a >= 0.0 then a else -a }

  /** Kotlin `Float.toInt()`: rounds toward zero (saturation at the Int range is not modelled). */
  function ToInt(x: real): (n: int)
    ensures x >= 0.0 ==> n >= 0 && n as real <= x < n as real + 1.0
    ensures x < 0.0 ==> n <= 0 && n as real - 1.0 < x <= n as real
  {
    if x >= 0.0 then x.Floor else -((-x).Floor)
  }

  /** Kotlin integer division by a positive divisor: truncates toward zero. */
  function TruncDiv(a: int, d: int): (q: int)
    requires d > 0
    ensures a >= 0 ==> q == a / d
    ensures a < 0 ==> q == -((-a) / d)
  {
    if a >= 0 then a / d else -((-a) / d)
  }

  /** Kotlin `Int.coerceIn(lo, hi)`; `None` stands for the IllegalArgumentException thrown when lo > hi. */
  function CoerceIn(v: int, lo: int, hi: int): (r: Option<int>)
    ensures r.None? <==> lo > hi
    ensures r.Some? ==> lo <= r.value <= hi
    ensures r.Some? && lo <= v <= hi ==> r.value == v
  {
    if lo > hi then None
    else if v < lo then Some(lo)
    else if v > hi then Some(hi)
    else Some(v)
  }

  /** `coerceIn` on bounds known not to cross. */
  function Clamp(v: int, lo: int, hi: int): (r: int)
    requires lo <= hi
    ensures lo <= r <= hi
    ensures lo <= v <= hi ==> r == v
  {
    if v < lo then lo else if v > hi then hi else v
  }

  /** `RectF(rect)`: the float copy of an integer rectangle. */
  function ToRectF(r: Rect): RectF {
    RectF(r.left as real, r.top as real, r.right as real, r.bottom as real)
  }

  /** `Rect(box.left.toInt(), box.top.toInt(), box.right.toInt(), box.bottom.toInt())`. */
  function Truncated(b: RectF): Rect {
    Rect(ToInt(b.left), ToInt(b.top), ToInt(b.right), ToInt(b.bottom))
  }

  /** A ratio of a non-negative value to a larger positive one lies in [0, 1]. */
  lemma DivAtMostOne(x: real, y: real)
    requires 0.0 <= x <= y && y > 0.0
    ensures 0.0 <= x / y <= 1.0
  {
  }
}
