/**
 Ruby's numeric tower as far as the assignment strategy uses it. The weight tables hold
 Integers and Floats; Integer op Integer stays an Integer (so `/` floors), anything that
 involves a Float is a Float. Floats are modelled as exact reals: IEEE-754 rounding is not
 part of this model.
 */
module Numeric {

  datatype Num = Int(i: int) | Float(f: real)

  /** The mathematical value of a number, whichever class it has. */
  function Value(n: Num): real
  {
    match n
    case Int(i) => i as real
    case Float(f) => f
  }

  /** `a + b`: exact, and an Integer exactly when both operands are. */
  function Add(a: Num, b: Num): (r: Num)
    ensures Value(r) == Value(a) + Value(b)
    ensures r.Int? <==> a.Int? && b.Int?
  {
    if a.Int? && b.Int? then Int(a.i + b.i) else Float(Value(a) + Value(b))
  }

  /** `a * b`: exact, and an Integer exactly when both operands are. */
  function Mul(a: Num, b: Num): (r: Num)
    ensures Value(r) == Value(a) * Value(b)
    ensures r.Int? <==> a.Int? && b.Int?
    ensures Value(a) >= 0.0 && Value(b) >= 0.0 ==> Value(r) >= 0.0
    ensures Value(a) > 0.0 && Value(b) > 0.0 ==> Value(r) > 0.0
  {
    if a.Int? && b.Int? then Int(a.i * b.i) else Float(Value(a) * Value(b))
  }

  /** Integer#/ : the quotient rounded towards negative infinity. */
  function FloorDiv(a: int, b: int): (q: int)
    requires b != 0
    ensures b > 0 ==> b * q <= a < b * q + b
    ensures b < 0 ==> b * q >= a > b * q + b
  {
    if b > 0 then a / b else (-a) / (-b)
  }

  /** Dividing by a larger positive Integer floors to 0. */
  lemma FloorDivSmall(a: int, b: int)
    requires 0 <= a < b
    ensures FloorDiv(a, b) == 0
  {
  }

  /** `a / b`: floor division between two Integers, real division as soon as a Float is involved. */
  function Div(a: Num, b: Num): (r: Num)
    requires Value(b) != 0.0
    ensures r.Int? <==> a.Int? && b.Int?
    ensures r.Int? ==> r.i == FloorDiv(a.i, b.i)
    ensures r.Float? ==> Value(r) == Value(a) / Value(b)
    ensures Value(a) >= 0.0 && Value(b) > 0.0 ==> Value(r) >= 0.0
  {
    if a.Int? && b.Int? then Int(FloorDiv(a.i, b.i)) else Float(Value(a) / Value(b))
  }

  /**
   `n.round`: Integer#round is the identity; Float#round goes to the nearest integer and
   breaks a tie away from zero.
   */
  function Round(n: Num): (r: int)
    ensures Value(n) - 0.5 <= r as real <= Value(n) + 0.5
    ensures r as real == Value(n) + 0.5 ==> Value(n) >= 0.0
    ensures r as real == Value(n) - 0.5 ==> Value(n) <= 0.0
    ensures n.Int? ==> r == n.i
    ensures Value(n) >= 0.0 ==> r >= 0
  {
    match n
    case Int(i) => i
    case Float(x) =>
      if x >= 0.0 then (x + 0.5).Floor else -((0.5 - x).Floor)
  }
}
