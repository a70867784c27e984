/** The floating-point collaborators of the spiral geometry, left uninterpreted.
    The Fresnel evaluator, `cos`, `sin` and `sqrt` are arbitrary functions over
    the reals and `pi` an arbitrary positive constant; the only fact assumed about
    `sqrt` is that it returns the non-negative square root of a non-negative
    argument. */
module Numerics {

  /** What the canonical spiral evaluator returns: position and heading. */
  datatype SpiralState = SpiralState(x: real, y: real, a: real)

  datatype Primitives = Primitives(
    odrSpiral: (real, real) -> SpiralState,  // (arclength, curvature rate) -> state
    cos: real -> real,
    sin: real -> real,
    sqrt: real -> real,
    pi: real)
  {
    ghost predicate Valid() {
      && pi > 0.0
      && forall d :: 0.0 <= d ==> 0.0 <= sqrt(d) && sqrt(d) * sqrt(d) == d
    }
  }

  function Abs(x: real): (r: real)
    ensures 0.0 <= r && (r == x || r == -x)
  {
    if x < 0.0 then -x else x
  }

  /** The square root of a square is the absolute value. */
  lemma SqrtOfSquare(num: Primitives, w: real)
    requires num.Valid()
    ensures num.sqrt(w * w) == Abs(w)
  {
    var q, a := num.sqrt(w * w), Abs(w);
    assert 0.0 <= q && q * q == w * w;
    assert a * a == w * w;
    assert (q - a) * (q + a) == 0.0;
    ProductZero(q - a, q + a);
  }

  lemma ProductZero(x: real, y: real)
    requires x * y == 0.0
    ensures x == 0.0 || y == 0.0
  {
    if x != 0.0 {
      assert y == (x * y) / x;
    }
  }

  /** Multiplying back a quotient. */
  lemma MulDiv(a: real, b: real)
    requires b != 0.0
    ensures b * (a / b) == a
  {
  }
}
