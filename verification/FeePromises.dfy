/** Promises of the module's documentation that the code keeps only under a condition. */
module FeePromises {
  import opened Wrappers
  import opened Decimal
  import FeeMath
  import opened FeeState

  // ----- a price that goes to zero disables the token

  /** The smallest positive price, on a token worth far more than the native coin. */
  function TinyPriced(c: Dec): State {
    State(Params("nat", "nat", c, ONE, 1, true), [FeeToken("abc", "abc", 6, 1, true)])
  }

  /** The same with the token still enabled, but at price zero. */
  function Priceless(c: Dec): State { TinyPriced(c).(tokens := [FeeToken("abc", "abc", 6, 0, true)]) }

  const STEEP_TWAPS: seq<Twap> := [Twap("nat", 1), Twap("abc", 3 * ONE)]

  /** For every valid factor outside (0, 1/2) a valid genesis and non-zero TWAPs lead, in one block, to
      an enabled token of price zero. */
  lemma EnabledAtPriceZero(c: Dec)
    requires 0 <= c <= ONE && !(0 < c && 2 * c < ONE)
    ensures Genesis(TinyPriced(c)) && EnabledArePriced(TinyPriced(c)) && NonNegativeTwaps(Block(Some(STEEP_TWAPS)))
    ensures BeginBlock(TinyPriced(c), Some(STEEP_TWAPS)) == Ok(Priceless(c))
  {
    hide Quo, ValidDenom, TwapMap;
    var s, t := TinyPriced(c), FeeToken("abc", "abc", 6, 1, true);
    SteepPrices();
    TinyClamp(c);
    ValidNames();
    assert Reprice(t, TwapMap(STEEP_TWAPS), 1, c) == Ok(t.(price := 0));
    OnlyToken(t, TwapMap(STEEP_TWAPS), 1, c);
  }

  lemma OnlyToken(t: FeeToken, twaps: map<string, Dec>, base: Dec, c: Dec)
    requires Reprice(t, twaps, base, c).Ok?
    ensures RepriceAll([t], twaps, base, c) == Ok([Reprice(t, twaps, base, c).value])
  {
    hide Reprice;
    RepriceAllPointwise([t], twaps, base, c);
    var r := RepriceAll([t], twaps, base, c);
    assert r.Ok? && Reprice([t][0], twaps, base, c) == Ok(r.value[0]);
    assert r.value == [r.value[0]];
  }

  lemma ValidNames()
    ensures ValidDenom("nat") && ValidDenom("abc")
  {
  }

  lemma SteepPrices()
    ensures TwapMap(STEEP_TWAPS) == map["nat" := 1, "abc" := 3 * ONE]
  {
    var first := [Twap("nat", 1)];
    assert STEEP_TWAPS[..1] == first && first[..0] == [];
    assert TwapMap(first) == map["nat" := 1];
  }

  lemma TinyClamp(c: Dec)
    requires 0 <= c <= ONE && !(0 < c && 2 * c < ONE)
    ensures Quo(1, 3 * ONE) == 0 && FeeMath.ClampPrice(1, 0, c) == 0
  {
    ChopPositive(1 * (ONE - c));
    ChopPositive(1 * (ONE + c));
  }

  /** What the next block will leave enabled at price zero: the quotient rounds to zero, and no clamp,
      or one whose lower bound rounds to zero too, holds it up. */
  predicate Starved(t: FeeToken, prices: map<string, Dec>, base: Dec, c: Dec) {
    && t.enabled && t.oracleDenom in prices && prices[t.oracleDenom] != 0
    && base * ONE * ONE < prices[t.oracleDenom] * (HALF + 1)
    && (t.price == 0 || c == 0 || t.price * (ONE - c) <= HALF)
  }

  function PricesOf(twaps: Option<seq<Twap>>): map<string, Dec> { TwapMap(if twaps.Some? then twaps.value else []) }

  /** The documented promise, block by block: it is kept exactly when no token is starved. A disabled
      module leaves the tokens as they were. */
  lemma ZeroPriceDisables(s: State, twaps: Option<seq<Twap>>)
    requires Inv(s) && NonNegativeTwaps(Block(twaps)) && BeginBlock(s, twaps).Ok?
    ensures var prices := PricesOf(twaps);
            var base, c := BasePrice(s.params, prices), s.params.clampFactor;
            EnabledArePriced(BeginBlock(s, twaps).value) <==>
              if s.params.enabled then forall i | 0 <= i < |s.tokens| :: !Starved(s.tokens[i], prices, base, c)
              else EnabledArePriced(s)
  {
    hide Reprice, ValidDenom, Starved, TwapMap;
    var prices := PricesOf(twaps);
    var base, c := BasePrice(s.params, prices), s.params.clampFactor;
    var s' := BeginBlock(s, twaps).value;
    if s.params.enabled {
      TwapMapNonNegative(if twaps.Some? then twaps.value else []);
      RepriceAllPointwise(s.tokens, prices, base, c);
      forall i | 0 <= i < |s.tokens|
        ensures s'.tokens[i].enabled && s'.tokens[i].price <= 0 <==> Starved(s.tokens[i], prices, base, c)
      {
        assert s.tokens[i] in s.tokens;
        StarvedEndsAtZero(s.tokens[i], prices, base, c);
      }
      assert forall i | 0 <= i < |s'.tokens| :: s'.tokens[i] in s'.tokens;
    }
  }

  lemma StarvedEndsAtZero(t: FeeToken, prices: map<string, Dec>, base: Dec, c: Dec)
    requires t.price >= 0 && base >= 0 && 0 <= c <= ONE && (t.oracleDenom in prices ==> prices[t.oracleDenom] >= 0)
    requires Reprice(t, prices, base, c).Ok?
    ensures var t' := Reprice(t, prices, base, c).value;
            t'.enabled && t'.price <= 0 <==> Starved(t, prices, base, c)
  {
    hide Quo, FeeMath.ClampPrice;
    if t.enabled && t.oracleDenom in prices && prices[t.oracleDenom] != 0 {
      var p := prices[t.oracleDenom];
      QuoNonNegative(base, p);
      QuoIsZero(base, p);
      ClampIsZero(t.price, Quo(base, p), c);
    }
  }

  /** A quotient rounds to zero when it is at most half a unit. */
  lemma QuoIsZero(a: Dec, b: Dec)
    requires a > 0 && b > 0
    ensures Quo(a, b) <= 0 <==> a * ONE * ONE < b * (HALF + 1)
  {
    hide Chop;
    var q := QuoFloor(a, b, ONE * ONE);
    ChopPositive(q);
    assert a * ONE * ONE == a * (ONE * ONE);
    if q <= HALF {
      ScaleUp(q + 1, HALF + 1, b);
    } else {
      ScaleUp(HALF + 1, q, b);
    }
  }

  lemma ClampIsZero(prev: Dec, price: Dec, c: Dec)
    requires prev >= 0 && price >= 0 && 0 <= c <= ONE
    ensures FeeMath.ClampPrice(prev, price, c) <= 0 <==>
              price == 0 && (prev == 0 || c == 0 || prev * (ONE - c) <= HALF)
  {
    hide Chop;
    if prev > 0 {
      ChopPositive(prev * (ONE - c));
      ChopPositive(prev * (ONE + c));
      FeeMath.AtLeastOnce(prev, ONE + c);
    }
  }

  /** No block takes the price from an enabled token when all enabled tokens had one before it. */
  ghost predicate BlocksKeepPricedTokensPriced(c: Dec) {
    forall s: State, twaps :: AllPriced(s, twaps, c) ==> EnabledArePriced(BeginBlock(s, twaps).value)
  }

  ghost predicate AllPriced(s: State, twaps: Option<seq<Twap>>, c: Dec) {
    && Inv(s) && s.params.clampFactor == c && EnabledArePriced(s)
    && NonNegativeTwaps(Block(twaps)) && BeginBlock(s, twaps).Ok?
  }

  /** From states in which every enabled token is priced, the factor alone decides. */
  lemma PricedTokensStayPriced(c: Dec)
    requires 0 <= c <= ONE
    ensures BlocksKeepPricedTokensPriced(c) <==> 0 < c && 2 * c < ONE
  {
    hide BeginBlock, EnabledArePriced, Inv;
    if 0 < c && 2 * c < ONE {
      forall s: State, twaps | AllPriced(s, twaps, c)
        ensures EnabledArePriced(BeginBlock(s, twaps).value)
      {
        BeginBlockKeepsInv(s, twaps);
      }
    } else {
      EnabledAtPriceZero(c);
      GenesisInv(TinyPriced(c));
      Unpriced(BeginBlock(TinyPriced(c), Some(STEEP_TWAPS)).value);
      assert AllPriced(TinyPriced(c), Some(STEEP_TWAPS), c);
    }
  }

  /** Once a factor of zero has let a price go to zero, no later factor brings it back: the token is
      enabled at price zero after a block under any factor `c` governance then sets. */
  lemma PriceZeroIsReachable(c: Dec)
    requires 0 <= c <= ONE
    ensures var run := [Block(Some(STEEP_TWAPS)), UpdateParams(true, TinyPriced(c).params, true),
        Block(Some(STEEP_TWAPS))];
            Genesis(TinyPriced(0)) && Run(TinyPriced(0), run) == Priceless(c)
  {
    hide BeginBlock, ValidDenom;
    var block, update := Block(Some(STEEP_TWAPS)), UpdateParams(true, TinyPriced(c).params, true);
    ValidNames();
    EnabledAtPriceZero(0);
    PricelessStays(c);
    assert [block, update, block][..2] == [block, update] && [block, update][..1] == [block] && [block][..0] == [];
    assert Run(TinyPriced(0), []) == TinyPriced(0);
    assert Run(TinyPriced(0), [block]) == Priceless(0);
    assert Run(TinyPriced(0), [block, update]) == Priceless(c);
  }

  lemma PricelessStays(c: Dec)
    requires 0 <= c <= ONE
    ensures BeginBlock(Priceless(c), Some(STEEP_TWAPS)) == Ok(Priceless(c))
  {
    hide Quo, ValidDenom, TwapMap;
    var t := FeeToken("abc", "abc", 6, 0, true);
    SteepPrices();
    TinyQuotient();
    assert Reprice(t, TwapMap(STEEP_TWAPS), 1, c) == Ok(t);
    OnlyToken(t, TwapMap(STEEP_TWAPS), 1, c);
  }

  lemma TinyQuotient()
    ensures Quo(1, 3 * ONE) == 0
  {
  }

  lemma GenesisInv(s: State)
    requires Genesis(s)
    ensures Inv(s)
  {
    hide ValidDenom;
  }

  lemma Unpriced(s: State)
    requires s.tokens == [FeeToken("abc", "abc", 6, 0, true)]
    ensures !EnabledArePriced(s)
  {
    assert s.tokens[0] in s.tokens;
  }

  // ----- the documented price formula

  /** The token's value over the gas token's, where the code divides the other way round. */
  function DocumentedPrice(base: Dec, other: Dec): Result<Dec, FeeMath.Error> {
    if base == 0 || other == 0 then Err(FeeMath.ZeroPrice) else Ok(Quo(other, base))
  }

  lemma FormulasDiffer()
    ensures FeeMath.CalculateTokenPrice(ONE, 2 * ONE) == Ok(HALF)
    ensures DocumentedPrice(ONE, 2 * ONE) == Ok(2 * ONE)
  {
    hide Quo;
    QuoExact(ONE, 2 * ONE, HALF);
    QuoExact(2 * ONE, ONE, 2 * ONE);
  }

  lemma QuoExact(a: Dec, b: Dec, q: Dec)
    requires b > 0 && a * ONE == q * b
    ensures Quo(a, b) == q
  {
    hide Chop, TruncDiv;
    assert a * ONE * ONE == (q * ONE) * b;
    FeeMath.ExactTruncDiv(q * ONE, b);
    ChopExact(q);
  }

  /** The two formulas agree exactly when both refuse, or the two values differ by so little that
      either quotient rounds to one. */
  lemma FormulasAgreeIff(base: Dec, other: Dec)
    ensures FeeMath.CalculateTokenPrice(base, other) == DocumentedPrice(base, other) <==>
              base == 0 || other == 0 || Close(Abs(base), Abs(other))
  {
    hide Quo;
    if base != 0 && other != 0 {
      QuoSign(base, other);
      QuoSign(other, base);
      if Abs(base) >= Abs(other) {
        QuotientsAgreeIff(Abs(base), Abs(other));
      } else {
        QuotientsAgreeIff(Abs(other), Abs(base));
      }
    }
  }

  /** The values differ by at most the larger over twice a whole unit. */
  predicate Close(a: nat, b: nat) { 2 * ONE * Abs(a - b) <= if a < b then b else a }

  lemma QuoSign(a: Dec, b: Dec)
    requires a != 0 && b != 0
    ensures Quo(a, b) == if (a < 0) == (b < 0) then Quo(Abs(a), Abs(b)) else -Quo(Abs(a), Abs(b))
  {
    var n: int, m: int := a * ONE * ONE, Abs(a) * ONE * ONE;
    assert Abs(n) == m && (n < 0) == (a < 0);
  }

  lemma QuotientsAgreeIff(a: Dec, b: Dec)
    requires a >= b > 0
    ensures Quo(a, b) == Quo(b, a) <==> 2 * ONE * (a - b) <= a
  {
    hide Chop, Quo;
    var k := ONE * ONE;
    var up := QuoFloor(a, b, k);
    var down := QuoFloor(b, a, k);
    UpAtLeastOne(a, b, k, up);
    DownAtMostOne(a, b, k, down);
    RoundsToOne(up);
    RoundsToOne(down);
    DownBound(a, b, k, down);
    if 2 * ONE * (a - b) <= a {
      UpBound(a, b, k, up);
    }
  }

  lemma UpAtLeastOne(a: int, b: int, k: int, up: int)
    requires a >= b > 0 && k > 0 && a * k < up * b + b
    ensures up >= k
  {
    if up < k {
      ScaleUp(up + 1, k, b);
      ScaleUp(b, a, k);
    }
  }

  lemma DownAtMostOne(a: int, b: int, k: int, down: int)
    requires a >= b > 0 && k > 0 && down * a <= b * k
    ensures down <= k
  {
    if down > k {
      ScaleUp(k + 1, down, a);
      ScaleUp(b, a, k);
    }
  }

  /** Around one, exactly the values within half a unit round to it: both ties go to the even side. */
  lemma RoundsToOne(x: int)
    ensures Chop(x) == ONE <==> ONE * ONE - HALF <= x <= ONE * ONE + HALF
    ensures x >= ONE * ONE ==> Chop(x) >= ONE
    ensures 0 <= x <= ONE * ONE ==> Chop(x) <= ONE
  {
  }

  lemma DownBound(a: int, b: int, k: int, down: int)
    requires a >= b > 0 && k == ONE * ONE && down * a <= b * k < down * a + a
    ensures down >= k - HALF <==> 2 * ONE * (a - b) <= a
  {
    assert (a - b) * k == a * k - b * k;
    assert (k - HALF) * a == a * k - HALF * a;
    if down >= k - HALF {
      ScaleUp(k - HALF, down, a);
    } else {
      ScaleUp(down + 1, k - HALF, a);
    }
    assert (a - b) * k == HALF * (2 * ONE * (a - b));
  }

  lemma UpBound(a: int, b: int, k: int, up: int)
    requires a >= b > 0 && k == ONE * ONE && up * b <= a * k && 2 * ONE * (a - b) <= a
    ensures up <= k + HALF
  {
    assert (k + HALF + 1) * b == b * k + HALF * b + b && (a - b) * k == a * k - b * k;
    assert (a - b) * k == HALF * (2 * ONE * (a - b));
    if up > k + HALF {
      ScaleUp(k + HALF + 1, up, b);
    }
  }
}
