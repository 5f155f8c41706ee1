/** Shared vocabulary of the trading dashboard model: order sides, optional
    values (a JavaScript NaN or a missing element), random draws and the
    `Math.max` / `Math.min` / `Math.abs` helpers over real numbers. */
module Common {

  /** Which side of the market an order or a tape row is on. */
  datatype Side = Buy | Sell

  /** A value that may be absent: `None` stands for a NaN parse result or a
      missing element. */
  datatype Option<+T> = None | Some(value: T)

  /** A value `Math.random()` can return: uniform in [0, 1). */
  predicate IsDraw(r: real) {
    0.0 <= r < 1.0
  }

  function Max(a: real, b: real): (m: real)
    ensures m >= a && m >= b
    ensures m == a || m == b
  {
    if a >= b then a else b
  }

  function Min(a: real, b: real): (m: real)
    ensures m <= a && m <= b
    ensures m == a || m == b
  {
    if a <= b then a else b
  }

  function Abs(x: real): (r: real)
    ensures r >= 0.0
    ensures r == x || r == -x
  {
    if x >= 0.0 then x else -x
  }
}
