/** How far a token's price can move over many blocks under a fixed clamp factor. */
module FeeDrift {
  import opened Wrappers
  import opened Decimal
  import FeeMath
  import opened FeeState

  function Pow(x: real, n: nat): real {
    if n == 0 then 1.0 else x * Pow(x, n - 1)
  }

  /** 1 + x + ... + x^(n-1): what one rounding per block adds up to. */
  function Geo(x: real, n: nat): real {
    if n == 0 then 0.0 else 1.0 + x * Geo(x, n - 1)
  }

  lemma {:induction false} GeoClosedForm(x: real, n: nat)
    ensures (x - 1.0) * Geo(x, n) == Pow(x, n) - 1.0
  {
    if n > 0 {
      GeoClosedForm(x, n - 1);
      var g, p := Geo(x, n - 1), Pow(x, n - 1);
      assert (x - 1.0) * (1.0 + x * g) == (x - 1.0) + x * ((x - 1.0) * g);
    }
  }

  /** The clamp factor as a fraction. */
  function Share(c: Dec): real { c as real / ONE as real }

  /** The blocks in order; a block that fails stops the chain. */
  function Blocks(s: State, twaps: seq<Option<seq<Twap>>>): Result<State, Error> {
    if twaps == [] then Ok(s)
    else
      var before :- Blocks(s, twaps[..|twaps| - 1]);
      BeginBlock(before, twaps[|twaps| - 1])
  }

  /** Token `k` keeps a non-zero price and stays enabled through every one of the blocks. */
  predicate StaysPriced(s: State, twaps: seq<Option<seq<Twap>>>, k: nat) {
    && Blocks(s, twaps).Ok?
    && k < |Blocks(s, twaps).value.tokens|
    && Blocks(s, twaps).value.tokens[k].enabled && Blocks(s, twaps).value.tokens[k].price > 0
    && (twaps != [] ==> StaysPriced(s, twaps[..|twaps| - 1], k))
  }

  lemma OneBlock(s: State, twaps: Option<seq<Twap>>, k: nat)
    requires 0 < s.params.clampFactor <= ONE && k < |s.tokens| && s.tokens[k].enabled && s.tokens[k].price > 0
    requires BeginBlock(s, twaps).Ok? && k < |BeginBlock(s, twaps).value.tokens|
        && BeginBlock(s, twaps).value.tokens[k].enabled
    ensures var p, q := s.tokens[k].price, BeginBlock(s, twaps).value.tokens[k].price;
            q == p || FeeMath.InBand(p, q, s.params.clampFactor)
    ensures BeginBlock(s, twaps).value.params == s.params
  {
    hide FeeMath.ClampPrice, FeeMath.InBand, Quo;
    if s.params.enabled {
      var prices := TwapMap(if twaps.Some? then twaps.value else []);
      RepriceAllPointwise(s.tokens, prices, BasePrice(s.params, prices), s.params.clampFactor);
      var t := s.tokens[k];
      FeeMath.ClampStaysInBand(t.price, Quo(BasePrice(s.params, prices), prices[t.oracleDenom]), s.params.clampFactor);
    }
  }

  lemma MulLe(a: real, b: real, x: real)
    requires a <= b && x >= 0.0
    ensures a * x <= b * x
  {
  }

  /** One block's bounds over the reals: at most the share plus half a unit either way. */
  lemma OneBlockReal(p: Dec, q: Dec, c: Dec)
    requires p > 0 && 0 < c <= ONE
    requires q == p || FeeMath.InBand(p, q, c)
    ensures q as real <= p as real * (1.0 + Share(c)) + 0.5
    ensures q as real >= p as real * (1.0 - Share(c)) - 0.5
    ensures 0.0 < Share(c) <= 1.0
  {
    var one, f := ONE as real, Share(c);
    var pr, qr, cr := p as real, q as real, c as real;
    assert f * one == cr;
    assert f > 0.0 && f <= 1.0 by { ShareRange(c); }
    if q == p {
      MulLe(0.0, f, pr);
      assert pr * (1.0 + f) == pr + pr * f && pr * (1.0 - f) == pr - pr * f;
    } else {
      var hi, lo := p * (ONE + c), p * (ONE - c);
      assert hi as real == pr * (one + cr) && lo as real == pr * (one - cr);
      assert pr * (one + cr) == (pr * (1.0 + f)) * one && pr * (one - cr) == (pr * (1.0 - f)) * one;
      Descale(qr, pr * (1.0 + f), pr * (1.0 - f), one);
    }
  }

  lemma ShareRange(c: Dec)
    requires 0 < c <= ONE
    ensures 0.0 < Share(c) <= 1.0
  {
  }

  lemma Descale(q: real, hi: real, lo: real, one: real)
    requires one > 0.0
    requires 2.0 * (lo * one) - one <= 2.0 * (q * one) <= 2.0 * (hi * one) + one
    ensures lo - 0.5 <= q <= hi + 0.5
  {
    assert (q - (hi + 0.5)) * one == q * one - hi * one - 0.5 * one;
    assert ((lo - 0.5) - q) * one == lo * one - 0.5 * one - q * one;
    NonPositive(q - (hi + 0.5), one);
    NonPositive((lo - 0.5) - q, one);
  }

  lemma NonPositive(x: real, one: real)
    requires one > 0.0 && x * one <= 0.0
    ensures x <= 0.0
  {
  }

  /** After any number of blocks a token that stayed enabled and priced has drifted at most by the
      factor's powers, plus the roundings of every block carried along, whatever the TWAPs were. */
  lemma {:induction false} Drift(s: State, twaps: seq<Option<seq<Twap>>>, k: nat)
    requires 0 < s.params.clampFactor <= ONE && StaysPriced(s, twaps, k)
    ensures k < |s.tokens| && Blocks(s, twaps).value.params == s.params
    ensures var f, n := Share(s.params.clampFactor), |twaps|;
            var p0, pn := s.tokens[k].price as real, Blocks(s, twaps).value.tokens[k].price as real;
            && pn <= p0 * Pow(1.0 + f, n) + 0.5 * Geo(1.0 + f, n)
            && pn >= p0 * Pow(1.0 - f, n) - 0.5 * Geo(1.0 - f, n)
    decreases |twaps|
  {
    hide BeginBlock, FeeMath.InBand, Share, Pow, Geo;
    DriftStart(s, k);
    if twaps != [] {
      var before, last := twaps[..|twaps| - 1], twaps[|twaps| - 1];
      Drift(s, before, k);
      var mid := Blocks(s, before).value;
      OneBlock(mid, last, k);
      var p0, pm, pn := s.tokens[k].price, mid.tokens[k].price, Blocks(s, twaps).value.tokens[k].price;
      OneBlockReal(pm, pn, s.params.clampFactor);
      var f := Share(s.params.clampFactor);
      Compound(p0 as real, pm as real, pn as real, 1.0 + f, 1.0 - f, |before|);
    }
  }

  lemma DriftStart(s: State, k: nat)
    ensures forall x :: Pow(x, 0) == 1.0 && Geo(x, 0) == 0.0
  {
  }

  lemma Compound(p0: real, pm: real, pn: real, up: real, down: real, m: nat)
    requires up >= 0.0 && down >= 0.0
    requires pm <= p0 * Pow(up, m) + 0.5 * Geo(up, m)
    requires pm >= p0 * Pow(down, m) - 0.5 * Geo(down, m)
    requires pm * down - 0.5 <= pn <= pm * up + 0.5
    ensures pn <= p0 * Pow(up, m + 1) + 0.5 * Geo(up, m + 1)
    ensures pn >= p0 * Pow(down, m + 1) - 0.5 * Geo(down, m + 1)
  {
    hide Pow, Geo;
    UpperGrows(p0, pm, pn, up, m);
    LowerGrows(p0, pm, pn, down, m);
  }

  lemma UpperGrows(p0: real, pm: real, pn: real, x: real, m: nat)
    requires x >= 0.0 && pm <= p0 * Pow(x, m) + 0.5 * Geo(x, m) && pn <= pm * x + 0.5
    ensures pn <= p0 * Pow(x, m + 1) + 0.5 * Geo(x, m + 1)
  {
    hide Pow, Geo;
    var bound := p0 * Pow(x, m) + 0.5 * Geo(x, m);
    Grow(p0, 0.5, x, m);
    MulLe(pm, bound, x);
  }

  lemma LowerGrows(p0: real, pm: real, pn: real, x: real, m: nat)
    requires x >= 0.0 && pm >= p0 * Pow(x, m) - 0.5 * Geo(x, m) && pn >= pm * x - 0.5
    ensures pn >= p0 * Pow(x, m + 1) - 0.5 * Geo(x, m + 1)
  {
    hide Pow, Geo;
    var bound := p0 * Pow(x, m) + (-0.5) * Geo(x, m);
    Grow(p0, -0.5, x, m);
    MulLe(bound, pm, x);
  }

  /** The bound one block later is the bound, times the growth, plus one more rounding. */
  lemma Grow(p0: real, h: real, x: real, m: nat)
    ensures (p0 * Pow(x, m) + h * Geo(x, m)) * x + h == p0 * Pow(x, m + 1) + h * Geo(x, m + 1)
  {
    var p, g := Pow(x, m), Geo(x, m);
    assert Pow(x, m + 1) == x * p && Geo(x, m + 1) == 1.0 + x * g;
    Spread(p0, p, h, g, x);
    assert h * (1.0 + x * g) == h + h * (x * g);
  }

  lemma Spread(a: real, p: real, h: real, g: real, x: real)
    ensures (a * p + h * g) * x == a * (x * p) + h * (x * g)
  {
  }
}
