/**
 Integer and real helpers shared by the watermark model: Python's `int()`
 on a float, `min`/`max`/`abs`, and the square root the standard deviation
 needs.
 */
module Numeric {

  /** Python's `int(x)` on a float: truncation toward zero (not floor). */
  function Trunc(x: real): (r: int)
    ensures 0.0 <= x ==> 0 <= r && r as real <= x < r as real + 1.0
    ensures x < 0.0 ==> r <= 0 && r as real - 1.0 < x <= r as real
  {
    if x >= 0.0 then x.Floor else -((-x).Floor)
  }

  function Min(a: int, b: int): int {
    if a <= b then a else b
  }

  function Max(a: int, b: int): int {
    if a >= b then a else b
  }

  function MinReal(a: real, b: real): real {
    if a <= b then a else b
  }

  function AbsReal(x: real): real {
    if x < 0.0 then -x else x
  }

  function Abs(x: int): int {
    if x < 0 then -x else x
  }

  /**
   What the model relies on from the square root used by the population
   standard deviation: it is non-negative on non-negative arguments and is
   zero exactly at zero. The exact root is supplied by the caller, because
   Dafny's reals have no square-root operation.
   */
  ghost predicate IsRoot(root: real -> real) {
    forall v :: 0.0 <= v ==> 0.0 <= root(v) && (root(v) == 0.0 <==> v == 0.0)
  }
}
