/** The few pieces of the JavaScript runtime the page relies on: `null`,
    the values `Math.random()` returns, and `Math.floor` / `Math.ceil`
    on exact reals. */
module Js {

  /** A value that may be `null`. */
  datatype Option<+T> = None | Some(value: T)

  /** One result of `Math.random()`: a real in [0, 1). */
  type Draw = u: real | 0.0 <= u < 1.0 witness 0.0

  /** A draw scales a non-negative real `k` into [0, k], and into [0, k)
      when `k` is positive. */
  lemma DrawScale(u: Draw, k: real)
    requires k >= 0.0
    ensures 0.0 <= u * k <= k
    ensures k > 0.0 ==> u * k < k
  {
    if k > 0.0 {
      assert u * k < 1.0 * k;
    }
  }

  /** `Math.floor`: the greatest integer not above `x`. */
  function Floor(x: real): (r: int)
    ensures r as real <= x < r as real + 1.0
  {
    x.Floor
  }

  /** `Math.ceil`: the least integer not below `x`. */
  function Ceil(x: real): (r: int)
    ensures r as real - 1.0 < x <= r as real
  {
    -((-x).Floor)
  }

  /** `Math.min` on integers. */
  function Min(a: int, b: int): (r: int)
    ensures r <= a && r <= b && (r == a || r == b)
  {
    if a <= b then a else b
  }

  /** `Math.max` on integers. */
  function Max(a: int, b: int): (r: int)
    ensures r >= a && r >= b && (r == a || r == b)
  {
    if a >= b then a else b
  }
}
