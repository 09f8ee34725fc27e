/** Go's fixed-width integer arithmetic, written out over Dafny's unbounded
    `int`: two's-complement wrap-around of `int64` and division that
    truncates toward zero (Dafny's own `/` is Euclidean). */
module GoInt {

  const Modulus64: int := 0x1_0000_0000_0000_0000

  predicate InRange64(x: int) {
    -0x8000_0000_0000_0000 <= x < 0x8000_0000_0000_0000
  }

  /** Values of Go's `int64` (and of `int` on a 64-bit platform). */
  type Int64 = x: int | InRange64(x)

  /** The `int64` that Go's arithmetic yields for the exact result `x`. */
  function Wrap64(x: int): (r: Int64)
    ensures InRange64(x) ==> r == x
    ensures (x - r) % Modulus64 == 0
  {
    (x + 0x8000_0000_0000_0000) % Modulus64 - 0x8000_0000_0000_0000
  }

  /** Go's `a / b`: the quotient truncated toward zero. */
  function Quo(a: int, b: int): (q: int)
    requires b != 0
    ensures var r := a - q * b;
      (if a >= 0 then 0 <= r else r <= 0) && (if b > 0 then -b < r < b else b < r < -b)
  {
    if a >= 0 then a / b
    else if b > 0 then -((-a) / b)
    else (-a) / (-b)
  }
}
