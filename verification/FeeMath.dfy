/** Pricing arithmetic of the fee abstraction module: quotient, clamp, conversion between decimals. */
module FeeMath {
  import opened Wrappers
  import opened Decimal

  datatype Error = ZeroPrice | ZeroDecimals

  // ----- the three functions

  function CalculateTokenPrice(base: Dec, other: Dec): Result<Dec, Error> {
    if base == 0 || other == 0 then Err(ZeroPrice) else Ok(Quo(base, other))
  }

  function Pow10(n: nat): (p: int)
    ensures p > 0
  {
    if n == 0 then 1 else 10 * Pow10(n - 1)
  }

  function CalculateTokenAmountWithDecimals(price: Dec, amountAtMinimal: int, decimalsBase: nat,
          decimalsOther: nat): Result<Dec, Error>
  {
    if decimalsBase == 0 || decimalsOther == 0 then Err(ZeroDecimals)
    else if amountAtMinimal == 0 || price == 0 then Ok(0)
    else
      var amountFull := Quo(amountAtMinimal * ONE, Pow10(decimalsBase) * ONE);
      var amountInOtherFull := Mul(amountFull, price);
      Ok(Mul(amountInOtherFull, Pow10(decimalsOther) * ONE))
  }

  function ClampPrice(prevPrice: Dec, newPrice: Dec, clampFactor: Dec): Dec {
    if prevPrice == 0 || clampFactor == 0 then newPrice
    else
      var min := Mul(prevPrice, ONE - clampFactor);
      var max := Mul(prevPrice, ONE + clampFactor);
      if newPrice < min then min else if newPrice > max then max else newPrice
  }

  /** A price is refused exactly for a zero operand, and otherwise is how much of the token one unit
      of the native coin is worth: price times token value is the native value up to rounding. */
  lemma PriceErrorBound(base: Dec, other: Dec)
    ensures CalculateTokenPrice(base, other).Err? <==> base == 0 || other == 0
    ensures CalculateTokenPrice(base, other).Ok? ==>
              Abs(2 * (CalculateTokenPrice(base, other).value * other - base * ONE)) * ONE <= (ONE + 2) * Abs(other)
  {
    hide Quo;
    if base != 0 && other != 0 {
      QuoErrorBound(base, other);
    }
  }

  // ----- the clamp

  /** `price` differs from `prev` by at most the factor's share of it, up to half a unit of rounding. */
  predicate InBand(prev: Dec, price: Dec, c: Dec) {
    2 * (prev * (ONE - c)) - ONE <= 2 * price * ONE <= 2 * (prev * (ONE + c)) + ONE
  }

  lemma ClampStaysInBand(prev: Dec, new': Dec, c: Dec)
    requires prev > 0 && 0 < c <= ONE
    ensures InBand(prev, ClampPrice(prev, new', c), c)
  {
    hide Chop;
    var lo, hi := prev * (ONE - c), prev * (ONE + c);
    ProductGrows(prev, ONE - c, ONE + c);
    ChopMonotone(lo, hi);
    BetweenBounds(lo, hi, ClampPrice(prev, new', c));
  }

  lemma BetweenBounds(lo: int, hi: int, q: int)
    requires Chop(lo) <= q <= Chop(hi)
    ensures 2 * lo - ONE <= 2 * q * ONE <= 2 * hi + ONE
  {
    hide Chop;
    ChopError(lo);
    ChopError(hi);
  }

  lemma ProductGrows(n: int, x: int, y: int)
    requires n >= 0 && x <= y
    ensures n * x <= n * y
  {
  }

  /** The documented promise, that the result is within the factor of the previous price, holds up to
      half a unit for every new price exactly when the factor is not zero: a zero factor disables the
      clamp. */
  lemma ClampPromise(prev: Dec, c: Dec)
    requires prev > 0 && 0 <= c <= ONE
    ensures (forall new' :: InBand(prev, ClampPrice(prev, new', c), c)) <==> c != 0
  {
    if c != 0 {
      forall new'
        ensures InBand(prev, ClampPrice(prev, new', c), c)
      {
        ClampStaysInBand(prev, new', c);
      }
    } else {
      assert !InBand(prev, ClampPrice(prev, prev + 1, c), c);
    }
  }

  /** `price` is within the factor of `prev` to the last digit. */
  predicate Within(prev: Dec, price: Dec, c: Dec) { prev * (ONE - c) <= price * ONE <= prev * (ONE + c) }

  /** To the last digit the promise holds for every new price exactly when the factor is not zero and
      both bounds round inwards: the factor's share `q` units and `r` fractions of `prev` leaves less
      than half a unit over, or half a unit that both bounds round towards `prev`. */
  lemma ClampPromiseToTheDigit(prev: Dec, c: Dec)
    requires prev > 0 && 0 <= c <= ONE
    ensures var q, r := prev * c / ONE, prev * c % ONE;
            (forall new' :: Within(prev, ClampPrice(prev, new', c), c)) <==>
              c != 0 && (r < HALF || (r == HALF && (prev + q) % 2 == 0))
  {
    hide Chop;
    var q, r := prev * c / ONE, prev * c % ONE;
    assert prev * (ONE - c) == (prev - q) * ONE - r && prev * (ONE + c) == (prev + q) * ONE + r;
    if c == 0 {
      assert !Within(prev, ClampPrice(prev, prev + 1, c), c);
    } else {
      var min, max := Mul(prev, ONE - c), Mul(prev, ONE + c);
      ProductGrows(prev, ONE - c, ONE + c);
      ChopMonotone(prev * (ONE - c), prev * (ONE + c));
      assert ClampPrice(prev, min - 1, c) == min && ClampPrice(prev, max + 1, c) == max;
      assert forall n :: min <= ClampPrice(prev, n, c) <= max;
      RoundsDown(prev + q, r);
      RoundsUp(prev - q, r);
      assert (prev - q) % 2 == (prev + q) % 2;
      assert Within(prev, min, c) && Within(prev, max, c) ==>
        forall n :: Within(prev, ClampPrice(prev, n, c), c);
    }
  }

  lemma RoundsDown(k: int, r: int)
    requires k >= 0 && 0 <= r < ONE
    ensures Chop(k * ONE + r) * ONE <= k * ONE + r <==> r < HALF || (r == HALF && k % 2 == 0)
  {
  }

  lemma RoundsUp(k: int, r: int)
    requires 0 <= r < ONE && k * ONE - r >= 0
    ensures Chop(k * ONE - r) * ONE >= k * ONE - r <==> r < HALF || (r == HALF && k % 2 == 0)
  {
  }

  /** A half up from one unit is two: the bound itself lies outside what is promised. */
  lemma ClampExceedsFactor()
    ensures ClampPrice(1, 2, HALF) == 2 && !Within(1, 2, HALF)
  {
  }

  /** Clamping again changes nothing, and the clamp keeps the order of prices. */
  lemma ClampIdempotentMonotone(prev: Dec, x: Dec, y: Dec, c: Dec)
    requires prev > 0 && 0 <= c <= ONE && x <= y
    ensures ClampPrice(prev, ClampPrice(prev, x, c), c) == ClampPrice(prev, x, c)
    ensures ClampPrice(prev, x, c) <= ClampPrice(prev, y, c)
  {
    hide Chop;
    ProductGrows(prev, ONE - c, ONE + c);
    ChopMonotone(prev * (ONE - c), prev * (ONE + c));
  }

  /** The clamp keeps every positive price positive, whatever non-negative price is proposed,
      exactly for factors strictly between zero and one half; at one half the smallest price
      rounds to zero. */
  lemma ClampKeepsPositive(c: Dec)
    requires 0 <= c <= ONE
    ensures (forall prev, new' :: prev > 0 && new' >= 0 ==> ClampPrice(prev, new', c) > 0) <==> 0 < c && 2 * c < ONE
  {
    hide Chop;
    if 0 < c && 2 * c < ONE {
      forall prev, new' | prev > 0 && new' >= 0
        ensures ClampPrice(prev, new', c) > 0
      {
        ClampPositive(prev, new', c);
      }
    } else {
      ChopPositive(1 * (ONE - c));
      ChopPositive(1 * (ONE + c));
      assert ClampPrice(1, 0, c) <= 0;
    }
  }

  lemma ClampPositive(prev: Dec, new': Dec, c: Dec)
    requires prev > 0 && new' >= 0 && 0 < c && 2 * c < ONE
    ensures ClampPrice(prev, new', c) > 0
  {
    hide Chop;
    AtLeastOnce(prev, ONE - c);
    AtLeastOnce(prev, ONE + c);
    ChopPositive(prev * (ONE - c));
    ChopPositive(prev * (ONE + c));
  }

  lemma AtLeastOnce(n: int, x: int)
    requires n > 0 && x >= 0
    ensures n * x >= x
  {
  }

  lemma ClampNonNegative(prev: Dec, new': Dec, c: Dec)
    requires prev >= 0 && new' >= 0 && 0 <= c <= ONE
    ensures ClampPrice(prev, new', c) >= 0
  {
    hide Chop;
    assert prev * (ONE - c) >= 0 && prev * (ONE + c) >= 0;
    ChopPositive(prev * (ONE - c));
    ChopPositive(prev * (ONE + c));
  }

  // ----- the conversion

  const BASE_DENOM_UNIT := 18

  /** The integer amount charged in a token of `d` decimals for `amount` of the native coin. */
  function Charge(price: Dec, amount: int, d: nat): int
    requires d > 0
  {
    RoundInt(CalculateTokenAmountWithDecimals(price, amount, BASE_DENOM_UNIT, d).value)
  }

  lemma Pow10Base()
    ensures Pow10(18) == ONE
  {
    assert Pow10(9) == 1_000_000_000;
  }

  /** With an eighteen-decimal base the division to full tokens is exact, so only the product
      with the price and the final rounding lose anything. */
  lemma ChargeInTwoRoundings(price: Dec, amount: int, d: nat)
    requires d > 0
    ensures Charge(price, amount, d) == Chop(Chop(amount * price) * Pow10(d))
  {
    hide Chop;
    Pow10Base();
    if amount != 0 && price != 0 {
      var n := amount * ONE;
      assert TruncDiv(n * ONE * ONE, ONE * ONE) == n by { ExactTruncDiv(n, ONE * ONE); }
      ChopExact(amount);
      assert Quo(amount * ONE, Pow10(18) * ONE) == amount;
      var full := Mul(amount, price);
      assert full * (Pow10(d) * ONE) == (full * Pow10(d)) * ONE;
      ChopExact(full * Pow10(d));
    } else {
      ChopExact(0);
      assert amount * price == 0;
      assert Chop(0 * Pow10(d)) == 0;
    }
  }

  lemma ExactTruncDiv(n: int, k: int)
    requires k > 0
    ensures TruncDiv(n * k, k) == n
  {
    var m := Abs(n);
    ExactDiv(m, k);
    assert (n < 0) == (n * k < 0) && Abs(n * k) == m * k;
  }

  lemma ExactDiv(m: nat, k: int)
    requires k > 0
    ensures m * k / k == m
  {
    var q := m * k / k;
    assert q * k <= m * k < (q + 1) * k;
    Cancel(q, m, k);
    Cancel(m, q + 1, k);
  }

  lemma Cancel(a: int, b: int, k: int)
    requires k > 0
    ensures a * k <= b * k ==> a <= b
    ensures a * k < b * k ==> a < b
  {
  }

  /** Error bound: against the exact amount·price·10^(d-18), with everything multiplied by
      2·10^36, the charge is off by at most 10^36 (half a unit) plus 10^18·10^d (half a unit of
      the intermediate product, scaled to the token's decimals). */
  lemma ChargeErrorBound(price: Dec, amount: int, d: nat)
    requires d > 0
    ensures Abs(2 * (Charge(price, amount, d) * ONE * ONE - amount * price * Pow10(d))) <= ONE * ONE + ONE * Pow10(d)
  {
    hide Chop, Charge, Abs;
    ChargeInTwoRoundings(price, amount, d);
    var x := amount * price;
    var full := Chop(x);
    var p := Pow10(d);
    ChopError(x);
    ChopError(full * p);
    ErrorsAdd(Charge(price, amount, d), full, x, p);
  }

  lemma ErrorsAdd(charge: int, full: int, x: int, p: int)
    requires p > 0
    requires -ONE <= 2 * (full * ONE - x) <= ONE
    requires -ONE <= 2 * (charge * ONE - full * p) <= ONE
    ensures Abs(2 * (charge * ONE * ONE - x * p)) <= ONE * ONE + ONE * p
  {
    var e1 := 2 * (full * ONE - x);
    var e2 := 2 * (charge * ONE - full * p);
    assert -ONE * p <= e1 * p <= ONE * p by { ScaleBounds(e1, p); }
    assert 2 * (charge * ONE * ONE - x * p) == e2 * ONE + e1 * p;
  }

  /** A larger fee or a higher price never charges less. */
  lemma ChargeMonotone(price: Dec, price': Dec, amount: int, amount': int, d: nat)
    requires d > 0 && 0 <= price <= price' && 0 <= amount <= amount'
    ensures Charge(price, amount, d) <= Charge(price', amount', d)
  {
    hide Chop, Charge;
    ChargeInTwoRoundings(price, amount, d);
    ChargeInTwoRoundings(price', amount', d);
    assert amount * price <= amount' * price' by {
      assert amount * price <= amount' * price;
      assert amount' * price <= amount' * price';
    }
    ChopMonotone(amount * price, amount' * price');
    assert Chop(amount * price) * Pow10(d) <= Chop(amount' * price') * Pow10(d);
    ChopMonotone(Chop(amount * price) * Pow10(d), Chop(amount' * price') * Pow10(d));
  }

  lemma ChargeNonNegative(price: Dec, amount: int, d: nat)
    requires d > 0 && price >= 0 && amount >= 0
    ensures Charge(price, amount, d) >= 0
  {
    hide Chop, Charge;
    ChargeInTwoRoundings(price, amount, d);
    ChopPositive(amount * price);
    ChopPositive(Chop(amount * price) * Pow10(d));
  }
}
