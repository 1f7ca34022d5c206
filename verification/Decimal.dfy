/** Eighteen-digit fixed-point decimals, held as integers scaled by 10^18. Products and quotients
    round half to even; dividing by an integer truncates. */
module Decimal {

  type Dec = int

  const ONE: int := 1_000_000_000_000_000_000
  const HALF: int := 500_000_000_000_000_000

  function Abs(x: int): nat {
    if x < 0 then -x else x
  }

  /** Go's integer division. */
  function TruncDiv(a: int, b: int): int
    requires b != 0
  {
    if (a < 0) == (b < 0) then Abs(a) / Abs(b) else -(Abs(a) / Abs(b))
  }

  function ChopMagnitude(x: nat): nat {
    var q, r := x / ONE, x % ONE;
    if r < HALF || (r == HALF && q % 2 == 0) then q else q + 1
  }

  /** Drops eighteen digits, rounding half to even. */
  function Chop(x: int): int {
    var m: int := ChopMagnitude(Abs(x));
    if x < 0 then -m else m
  }

  function Mul(a: Dec, b: Dec): Dec { Chop(a * b) }

  /** The numerator is scaled twice, divided with truncation, then rounded. */
  function Quo(a: Dec, b: Dec): Dec
    requires b != 0
  {
    Chop(TruncDiv(a * ONE * ONE, b))
  }

  function QuoInt64(a: Dec, n: int): Dec
    requires n != 0
  {
    TruncDiv(a, n)
  }

  function RoundInt(a: Dec): int { Chop(a) }

  /** Rounding is off by at most half a unit, and only by exactly half towards an even result. */
  lemma ChopError(x: int)
    ensures -ONE <= 2 * (Chop(x) * ONE - x) <= ONE
    ensures Abs(2 * (Chop(x) * ONE - x)) == ONE ==> Chop(x) % 2 == 0
  {
  }

  lemma ChopExact(k: int)
    ensures Chop(k * ONE) == k
  {
    ChopError(k * ONE);
  }

  lemma ChopMonotone(x: int, y: int)
    requires x <= y
    ensures Chop(x) <= Chop(y)
  {
    ChopError(x);
    ChopError(y);
  }

  /** A value rounds to at least one exactly when it exceeds one half. */
  lemma ChopPositive(x: int)
    ensures Chop(x) >= 1 <==> x > HALF
    ensures x >= 0 ==> Chop(x) >= 0
  {
  }

  lemma QuoNonNegative(a: Dec, b: Dec)
    requires a >= 0 && b > 0
    ensures Quo(a, b) >= 0
  {
    hide Chop;
    ChopPositive(TruncDiv(a * ONE * ONE, b));
  }

  /** Truncation loses less than one divisor. */
  lemma TruncDivError(n: int, b: int)
    requires b != 0
    ensures Abs(TruncDiv(n, b) * b - n) < Abs(b)
  {
    var m, k: int := Abs(n), Abs(b);
    var q: int := m / k;
    assert q * k <= m < q * k + k;
    assert TruncDiv(n, b) * b == if n < 0 then -(q * k) else q * k;
  }

  /** A quotient times its divisor gives the dividend back, up to half a unit and the truncation
      thirty-six digits down, both scaled by the divisor. */
  lemma QuoErrorBound(a: Dec, b: Dec)
    requires b != 0
    ensures Abs(2 * (Quo(a, b) * b - a * ONE)) * ONE <= (ONE + 2) * Abs(b)
  {
    hide Chop, TruncDiv;
    var n, q := a * ONE * ONE, Quo(a, b);
    var t := TruncDiv(n, b);
    TruncDivError(n, b);
    ChopError(t);
    ScaleBounds(2 * (q * ONE - t), b);
    assert 2 * (q * b - a * ONE) * ONE == (2 * (q * ONE - t)) * b + 2 * (t * b - n);
  }

  lemma ScaleBounds(e: int, b: int)
    requires -ONE <= e <= ONE
    ensures -ONE * Abs(b) <= e * b <= ONE * Abs(b)
  {
    var k: int := Abs(b);
    ScaleUp(-ONE, e, k);
    ScaleUp(e, ONE, k);
    if b < 0 {
      assert e * b == -(e * k);
    }
  }

  lemma ScaleUp(x: int, y: int, k: int)
    requires x <= y && k >= 0
    ensures x * k <= y * k
  {
  }

  /** A quotient of positive values is the floor of the scaled numerator's, rounded. */
  lemma QuoFloor(a: int, b: int, k: int) returns (q: int)
    requires a > 0 && b > 0 && k == ONE * ONE
    ensures q >= 0 && Quo(a, b) == Chop(q) && q * b <= a * k < q * b + b
  {
    hide Chop;
    var n := a * k;
    assert a * ONE * ONE == n;
    q := n / b;
  }
}
