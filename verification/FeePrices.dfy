/** What one block does to every token's price, in products of the values it starts from. */
module FeePrices {
  import opened Wrappers
  import opened Decimal
  import FeeMath
  import opened FeeState

  /** The last price listed for `d`. */
  function LastPrice(twaps: seq<Twap>, d: string): Option<Dec> {
    if twaps == [] then None
    else if twaps[|twaps| - 1].denom == d then Some(twaps[|twaps| - 1].price)
    else LastPrice(twaps[..|twaps| - 1], d)
  }

  /** No TWAPs stand for a computation that failed. */
  function Listed(twaps: Option<seq<Twap>>): seq<Twap> { if twaps.Some? then twaps.value else [] }

  lemma {:induction false} TwapMapIsLast(twaps: seq<Twap>, d: string)
    ensures d in TwapMap(twaps) <==> LastPrice(twaps, d).Some?
    ensures d in TwapMap(twaps) ==> LastPrice(twaps, d) == Some(TwapMap(twaps)[d])
    decreases |twaps|
  {
    if twaps != [] {
      TwapMapIsLast(twaps[..|twaps| - 1], d);
    }
  }

  /** `price` times `other` is `base`, up to the rounding of one quotient. */
  predicate Quotient(price: Dec, base: Dec, other: Dec) {
    Abs(2 * (price * other - base * ONE)) * ONE <= (ONE + 2) * Abs(other)
  }

  /** `price` is `bound` parts in a whole unit, to the nearest digit. */
  predicate Nearest(price: Dec, bound: int) { Abs(2 * (price * ONE - bound)) <= ONE }

  /** The price a token at `p` moves to when the native value is `base` and its own `o`: their quotient
      if nothing clamps it or it lies in the band around `p`, otherwise the bound it passed. */
  predicate Moves(p: Dec, price: Dec, base: Dec, o: Dec, c: Dec) {
    if p == 0 || c == 0 then Quotient(price, base, o)
    else if base * ONE * ONE < p * (ONE - c) * o then Nearest(price, p * (ONE - c))
    else if base * ONE * ONE > p * (ONE + c) * o then Nearest(price, p * (ONE + c))
    else Quotient(price, base, o)
  }

  /** For every invariant state and block that succeeds: each enabled token with a TWAP moves as
      `Moves` says, without one it is disabled at price zero, and a disabled token stays as it is. The
      native value is its own TWAP, or the fallback if it has none. */
  lemma BlockMovesPrices(s: State, twaps: Option<seq<Twap>>, i: nat)
    requires Inv(s) && NonNegativeTwaps(Block(twaps)) && BeginBlock(s, twaps).Ok?
    requires s.params.enabled && i < |s.tokens|
    ensures var s' := BeginBlock(s, twaps).value;
            var base := match LastPrice(Listed(twaps), s.params.nativeOracleDenom)
                        case Some(b) => b
                        case None => s.params.fallbackNativePrice;
            && i < |s'.tokens|
            && var t, t' := s.tokens[i], s'.tokens[i];
            if !t.enabled then t' == t
            else match LastPrice(Listed(twaps), t.oracleDenom)
              case None => t' == t.(enabled := false, price := 0)
              case Some(o) =>
                if o == 0 then t' == t.(enabled := false, price := 0)
                else t' == t.(price := t'.price) && Moves(t.price, t'.price, base, o, s.params.clampFactor)
  {
    hide Reprice, ValidDenom, TwapMap, Moves;
    var prices := TwapMap(Listed(twaps));
    TwapMapNonNegative(Listed(twaps));
    TwapMapIsLast(Listed(twaps), s.params.nativeOracleDenom);
    TwapMapIsLast(Listed(twaps), s.tokens[i].oracleDenom);
    RepriceAllPointwise(s.tokens, prices, BasePrice(s.params, prices), s.params.clampFactor);
    assert s.tokens[i] in s.tokens;
    RepriceMoves(s.tokens[i], prices, BasePrice(s.params, prices), s.params.clampFactor);
  }

  lemma RepriceMoves(t: FeeToken, prices: map<string, Dec>, base: Dec, c: Dec)
    requires t.price >= 0 && base >= 0 && 0 <= c <= ONE && (t.oracleDenom in prices ==> prices[t.oracleDenom] >= 0)
    requires Reprice(t, prices, base, c).Ok?
    ensures var t' := Reprice(t, prices, base, c).value;
            if !t.enabled then t' == t
            else if t.oracleDenom !in prices || prices[t.oracleDenom] == 0 then t' == t.(enabled := false, price := 0)
            else t' == t.(price := t'.price) && Moves(t.price, t'.price, base, prices[t.oracleDenom], c)
  {
    hide Quo, Moves, FeeMath.ClampPrice;
    if t.enabled && t.oracleDenom in prices && prices[t.oracleDenom] != 0 {
      ClampMoves(t.price, base, prices[t.oracleDenom], c);
    }
  }

  lemma ClampMoves(p: Dec, base: Dec, o: Dec, c: Dec)
    requires p >= 0 && base > 0 && o > 0 && 0 <= c <= ONE
    ensures Moves(p, FeeMath.ClampPrice(p, Quo(base, o), c), base, o, c)
  {
    hide Chop, Abs, Quo;
    var q := Quo(base, o);
    QuoErrorBound(base, o);
    if p > 0 && c > 0 {
      var lo, hi := p * (ONE - c), p * (ONE + c);
      FeeMath.ProductGrows(p, ONE - c, ONE + c);
      ChopMonotone(lo, hi);
      ChopNearest(lo);
      ChopNearest(hi);
      QuoAgainst(base, o, lo);
      QuoAgainst(base, o, hi);
    }
  }

  lemma ChopNearest(x: int)
    ensures Nearest(Chop(x), x)
  {
    hide Chop;
    ChopError(x);
  }

  /** A quotient compares with a rounded bound as the exact values do. */
  lemma QuoAgainst(base: Dec, o: Dec, bound: int)
    requires base > 0 && o > 0
    ensures base * ONE * ONE >= bound * o ==> Quo(base, o) >= Chop(bound)
    ensures base * ONE * ONE <= bound * o ==> Quo(base, o) <= Chop(bound)
  {
    hide Chop;
    var q := QuoFloor(base, o, ONE * ONE);
    assert base * ONE * ONE == base * (ONE * ONE);
    if base * ONE * ONE >= bound * o {
      if q < bound {
        ScaleUp(q + 1, bound, o);
      }
      ChopMonotone(bound, q);
    }
    if base * ONE * ONE <= bound * o {
      if q > bound {
        ScaleUp(bound + 1, q, o);
      }
      ChopMonotone(q, bound);
    }
  }

  /** A disabled module moves nothing. */
  lemma DisabledBlock(s: State, twaps: Option<seq<Twap>>)
    requires !s.params.enabled
    ensures BeginBlock(s, twaps) == Ok(s)
  {
  }
}
