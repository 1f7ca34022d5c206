/** Fee token registry: validation, genesis, the block step that reprices tokens, governance steps. */
module FeeState {
  import opened Wrappers
  import opened Decimal
  import FeeMath

  datatype Params = Params(
    nativeDenom: string, nativeOracleDenom: string, clampFactor: Dec, fallbackNativePrice: Dec,
    twapLookbackWindow: nat, enabled: bool)

  datatype FeeToken = FeeToken(denom: string, oracleDenom: string, decimals: nat, price: Dec, enabled: bool)

  datatype Twap = Twap(denom: string, price: Dec)

  datatype Error =
    | InvalidParams | InvalidFeeTokenMetadata | InvalidAuthority | InvalidLookback | UnknownOracleDenom
    | ZeroBasePrice

  datatype State = State(params: Params, tokens: seq<FeeToken>)

  // ----- validation

  predicate IsLetter(c: char) { 'a' <= c <= 'z' || 'A' <= c <= 'Z' }

  /** The SDK's denom expression: a letter, then 2 to 127 letters, digits or one of `/:._-`. */
  predicate ValidDenom(s: string) {
    && 3 <= |s| <= 128
    && IsLetter(s[0])
    && forall i | 1 <= i < |s| :: IsLetter(s[i]) || '0' <= s[i] <= '9' || s[i] in "/:._-"
  }

  predicate ValidParams(p: Params) {
    && ValidDenom(p.nativeDenom) && ValidDenom(p.nativeOracleDenom)
    && 0 <= p.clampFactor <= ONE
    && p.fallbackNativePrice > 0
    && p.twapLookbackWindow != 0
  }

  predicate ValidToken(t: FeeToken) {
    ValidDenom(t.denom) && ValidDenom(t.oracleDenom) && 1 <= t.decimals <= 18 && t.price > 0
  }

  predicate DistinctDenoms(ts: seq<FeeToken>) {
    forall i, j | 0 <= i < j < |ts| :: ts[i].denom != ts[j].denom
  }

  predicate ValidCollection(ts: seq<FeeToken>) {
    (forall t | t in ts :: ValidToken(t)) && DistinctDenoms(ts)
  }

  /** The loop of `FeeTokenMetadataCollection.Validate`, also the one of the genesis check. */
  method ValidateCollection(items: seq<FeeToken>) returns (ok: bool)
    ensures ok <==> ValidCollection(items)
  {
    var denomSet: set<string> := {};
    for i := 0 to |items|
      invariant ValidCollection(items[..i])
      invariant forall d :: d in denomSet <==> exists k :: 0 <= k < i && items[k].denom == d
    {
      var token := items[i];
      assert token in items;
      if !ValidToken(token) {
        return false;
      }
      if token.denom in denomSet {
        return false;
      }
      denomSet := denomSet + {token.denom};
      assert items[..i + 1] == items[..i] + [token];
    }
    assert items[..|items|] == items;
    return true;
  }

  // ----- repricing

  /** Later entries for a denom replace earlier ones. */
  function TwapMap(twaps: seq<Twap>): map<string, Dec> {
    if twaps == [] then map[] else TwapMap(twaps[..|twaps| - 1])[twaps[|twaps| - 1].denom := twaps[|twaps| - 1].price]
  }

  function Reprice(t: FeeToken, twaps: map<string, Dec>, base: Dec, clampFactor: Dec): Result<FeeToken, Error> {
    if !t.enabled then Ok(t)
    else
      var tokenPrice := if t.oracleDenom in twaps then twaps[t.oracleDenom] else 0;
      if tokenPrice == 0 then Ok(t.(enabled := false, price := 0))
      else
        match FeeMath.CalculateTokenPrice(base, tokenPrice)
        case Err(_) => Err(ZeroBasePrice)
        case Ok(price) => Ok(t.(price := FeeMath.ClampPrice(t.price, price, clampFactor)))
  }

  function RepriceAll(ts: seq<FeeToken>, twaps: map<string, Dec>, base: Dec,
          clampFactor: Dec): (r: Result<seq<FeeToken>, Error>)
    ensures r.Ok? ==> |r.value| == |ts|
  {
    if ts == [] then Ok([])
    else
      var init :- RepriceAll(ts[..|ts| - 1], twaps, base, clampFactor);
      var last :- Reprice(ts[|ts| - 1], twaps, base, clampFactor);
      Ok(init + [last])
  }

  function BasePrice(p: Params, twaps: map<string, Dec>): Dec {
    if p.nativeOracleDenom in twaps then twaps[p.nativeOracleDenom] else p.fallbackNativePrice
  }

  /** The block step; `None` stands for a TWAP computation that failed, which counts as no TWAPs. */
  function BeginBlock(s: State, twaps: Option<seq<Twap>>): Result<State, Error> {
    if !s.params.enabled then Ok(s)
    else
      var prices := TwapMap(if twaps.Some? then twaps.value else []);
      var tokens :- RepriceAll(s.tokens, prices, BasePrice(s.params, prices), s.params.clampFactor);
      Ok(s.(tokens := tokens))
  }

  /** Success means every token was repriced on its own; failure is the first failing token's. */
  lemma {:induction false} RepriceAllPointwise(ts: seq<FeeToken>, twaps: map<string, Dec>, base: Dec, c: Dec)
    ensures var r := RepriceAll(ts, twaps, base, c);
            && (r.Ok? <==> forall i | 0 <= i < |ts| :: Reprice(ts[i], twaps, base, c).Ok?)
            && (r.Ok? ==> forall i | 0 <= i < |ts| :: Reprice(ts[i], twaps, base, c) == Ok(r.value[i]))
    decreases |ts|
  {
    hide Reprice;
    if ts != [] {
      var init := ts[..|ts| - 1];
      RepriceAllPointwise(init, twaps, base, c);
      assert forall i | 0 <= i < |init| :: init[i] == ts[i];
    }
  }

  /** The block step fails exactly when the native price is zero and some enabled token has a
      non-zero TWAP to be divided by. */
  lemma BeginBlockFailsIff(s: State, twaps: Option<seq<Twap>>)
    ensures var prices := TwapMap(if twaps.Some? then twaps.value else []);
            BeginBlock(s, twaps).Err? <==>
              && s.params.enabled && BasePrice(s.params, prices) == 0
              && exists t :: t in s.tokens && t.enabled && t.oracleDenom in prices && prices[t.oracleDenom] != 0
  {
    hide FeeMath.ClampPrice, Quo;
    var prices := TwapMap(if twaps.Some? then twaps.value else []);
    RepriceAllPointwise(s.tokens, prices, BasePrice(s.params, prices), s.params.clampFactor);
  }

  /** A block step keeps the tokens' order and identity, enables none, and disables (at price zero)
      exactly those whose TWAP is missing or zero. */
  lemma BeginBlockKeepsTokens(s: State, twaps: Option<seq<Twap>>)
    requires s.params.enabled && BeginBlock(s, twaps).Ok?
    ensures var prices := TwapMap(if twaps.Some? then twaps.value else []);
            var s' := BeginBlock(s, twaps).value;
            && s'.params == s.params && |s'.tokens| == |s.tokens|
            && forall i | 0 <= i < |s.tokens| ::
                 var t, t' := s.tokens[i], s'.tokens[i];
                 && t'.denom == t.denom && t'.oracleDenom == t.oracleDenom && t'.decimals == t.decimals
                 && (t'.enabled <==> t.enabled && t.oracleDenom in prices && prices[t.oracleDenom] != 0)
                 && (t.enabled && !t'.enabled ==> t'.price == 0)
                 && (!t.enabled ==> t' == t)
  {
    hide FeeMath.ClampPrice, Quo;
    var prices := TwapMap(if twaps.Some? then twaps.value else []);
    RepriceAllPointwise(s.tokens, prices, BasePrice(s.params, prices), s.params.clampFactor);
  }

  // ----- runs

  /** Anything that can happen to the registry after genesis. */
  datatype Action =
    | Block(twaps: Option<seq<Twap>>)
    | UpdateParams(authorized: bool, params: Params, lookbackAccepted: bool)
    | UpdateFeeTokens(authorized: bool, tokens: seq<FeeToken>, voteTargets: seq<string>)

  function Apply(s: State, a: Action): Result<State, Error> {
    match a
    case Block(twaps) => BeginBlock(s, twaps)
    case UpdateParams(authorized, params, lookbackAccepted) =>
      if !authorized then Err(InvalidAuthority)
      else if !ValidParams(params) then Err(InvalidParams)
      else if !lookbackAccepted then Err(InvalidLookback)
      else Ok(s.(params := params))
    case UpdateFeeTokens(authorized, tokens, voteTargets) =>
      if !authorized then Err(InvalidAuthority)
      else if !ValidCollection(tokens) then Err(InvalidFeeTokenMetadata)
      else if exists t | t in tokens :: t.oracleDenom !in voteTargets then Err(UnknownOracleDenom)
      else Ok(s.(tokens := tokens))
  }

  /** A step that fails leaves the state as it was. */
  function Step(s: State, a: Action): State {
    if Apply(s, a).Ok? then Apply(s, a).value else s
  }

  function Run(s: State, actions: seq<Action>): State {
    if actions == [] then s else Step(Run(s, actions[..|actions| - 1]), actions[|actions| - 1])
  }

  predicate Genesis(s: State) { ValidParams(s.params) && ValidCollection(s.tokens) }

  predicate NonNegativeTwaps(a: Action) {
    a.Block? && a.twaps.Some? ==> forall t | t in a.twaps.value :: t.price >= 0
  }

  /** What every reachable registry satisfies; an auto-disabled token has price zero, so tokens
      need not be valid any more. */
  predicate Inv(s: State) {
    && ValidParams(s.params)
    && DistinctDenoms(s.tokens)
    && forall t | t in s.tokens :: ValidDenom(t.denom) && ValidDenom(t.oracleDenom) && 1 <= t.decimals <= 18
        && t.price >= 0
  }

  /** Every token that can be charged has a price above zero. */
  predicate EnabledArePriced(s: State) {
    forall t | t in s.tokens :: t.enabled ==> t.price > 0
  }

  /** The factors for which the clamp cannot round a price away. */
  predicate SafeFactor(p: Params) { 0 < p.clampFactor && 2 * p.clampFactor < ONE }

  lemma {:induction false} TwapMapNonNegative(twaps: seq<Twap>)
    requires forall t | t in twaps :: t.price >= 0
    ensures forall d | d in TwapMap(twaps) :: TwapMap(twaps)[d] >= 0
    decreases |twaps|
  {
    if twaps != [] {
      TwapMapNonNegative(twaps[..|twaps| - 1]);
    }
  }

  lemma RepriceKeeps(t: FeeToken, twaps: map<string, Dec>, base: Dec, c: Dec)
    requires t.price >= 0 && base >= 0 && 0 <= c <= ONE
    requires t.oracleDenom in twaps ==> twaps[t.oracleDenom] >= 0
    requires Reprice(t, twaps, base, c).Ok?
    ensures var t' := Reprice(t, twaps, base, c).value;
            && t'.denom == t.denom && t'.oracleDenom == t.oracleDenom && t'.decimals == t.decimals && t'.price >= 0
            && (t.enabled && t.price > 0 && 0 < c && 2 * c < ONE && t'.enabled ==> t'.price > 0)
  {
    hide FeeMath.ClampPrice, Quo;
    if t.enabled && t.oracleDenom in twaps && twaps[t.oracleDenom] != 0 {
      var price := Quo(base, twaps[t.oracleDenom]);
      QuoNonNegative(base, twaps[t.oracleDenom]);
      FeeMath.ClampNonNegative(t.price, price, c);
      if t.price > 0 && 0 < c && 2 * c < ONE {
        FeeMath.ClampPositive(t.price, price, c);
      }
    }
  }

  lemma BeginBlockKeepsInv(s: State, twaps: Option<seq<Twap>>)
    requires Inv(s) && NonNegativeTwaps(Block(twaps)) && BeginBlock(s, twaps).Ok?
    ensures Inv(BeginBlock(s, twaps).value)
    ensures SafeFactor(s.params) && EnabledArePriced(s) ==> EnabledArePriced(BeginBlock(s, twaps).value)
  {
    hide Reprice, ValidDenom;
    var list := if twaps.Some? then twaps.value else [];
    var prices := TwapMap(list);
    var base, c := BasePrice(s.params, prices), s.params.clampFactor;
    TwapMapNonNegative(list);
    RepriceAllPointwise(s.tokens, prices, base, c);
    var s' := BeginBlock(s, twaps).value;
    if s.params.enabled {
      forall i | 0 <= i < |s.tokens|
        ensures var t, t' := s.tokens[i], s'.tokens[i];
                && t'.denom == t.denom && t'.oracleDenom == t.oracleDenom && t'.decimals == t.decimals && t'.price >= 0
                && (t.enabled && t.price > 0 && SafeFactor(s.params) && t'.enabled ==> t'.price > 0)
                && (t'.enabled ==> t.enabled)
      {
        assert s.tokens[i] in s.tokens;
        RepriceKeeps(s.tokens[i], prices, base, c);
        RepriceNeverEnables(s.tokens[i], prices, base, c);
      }
    }
  }

  lemma RepriceNeverEnables(t: FeeToken, twaps: map<string, Dec>, base: Dec, c: Dec)
    requires Reprice(t, twaps, base, c).Ok?
    ensures Reprice(t, twaps, base, c).value.enabled ==> t.enabled
  {
  }

  /** Every reachable registry satisfies the invariant, whatever blocks, governance messages and
      failures the run interleaves. */
  lemma {:induction false} ReachableInv(s: State, actions: seq<Action>)
    requires Genesis(s) && forall a | a in actions :: NonNegativeTwaps(a)
    ensures Inv(Run(s, actions))
    decreases |actions|
  {
    hide BeginBlock, ValidDenom;
    if actions != [] {
      var before := actions[..|actions| - 1];
      var a := actions[|actions| - 1];
      ReachableInv(s, before);
      if a.Block? && Apply(Run(s, before), a).Ok? {
        BeginBlockKeepsInv(Run(s, before), a.twaps);
      }
    }
  }

  /** While all factors ever set are safe, no enabled token is ever reachable at price zero. */
  lemma {:induction false} ReachablePriced(s: State, actions: seq<Action>)
    requires Genesis(s) && forall a | a in actions :: NonNegativeTwaps(a)
    requires SafeFactor(s.params) && forall a | a in actions && a.UpdateParams? :: SafeFactor(a.params)
    ensures EnabledArePriced(Run(s, actions)) && SafeFactor(Run(s, actions).params)
    decreases |actions|
  {
    hide BeginBlock, ValidDenom;
    if actions != [] {
      var before := actions[..|actions| - 1];
      var a := actions[|actions| - 1];
      ReachablePriced(s, before);
      ReachableInv(s, before);
      if a.Block? && Apply(Run(s, before), a).Ok? {
        BeginBlockKeepsInv(Run(s, before), a.twaps);
        BlockKeepsParams(Run(s, before), a.twaps);
      }
    }
  }

  lemma BlockKeepsParams(s: State, twaps: Option<seq<Twap>>)
    requires BeginBlock(s, twaps).Ok?
    ensures BeginBlock(s, twaps).value.params == s.params
  {
  }

  /** A message or block that fails leaves parameters and registry as they were. */
  lemma FailureKeepsState(s: State, actions: seq<Action>, a: Action)
    ensures var before := Run(s, actions);
            Run(s, actions + [a]) == if Apply(before, a).Ok? then Apply(before, a).value else before
  {
    hide Apply;
    assert (actions + [a])[..|actions|] == actions;
  }

  // ----- what governance can do

  /** A parameter message takes effect exactly when it comes from the authority and each of its values
      is in range; then the parameters are the message's, and nothing else changes. */
  lemma ParamsTakeEffectIff(s: State, authorized: bool, p: Params, lookbackAccepted: bool)
    ensures var r := Apply(s, UpdateParams(authorized, p, lookbackAccepted));
            && (r.Ok? <==>
                  && authorized && lookbackAccepted
                  && ValidDenom(p.nativeDenom) && ValidDenom(p.nativeOracleDenom)
                  && p.clampFactor >= 0 && p.clampFactor <= ONE
                  && p.fallbackNativePrice > 0 && p.twapLookbackWindow > 0)
            && (r.Ok? ==> r.value.params == p && r.value.tokens == s.tokens)
            && (!authorized ==> r == Err(InvalidAuthority))
            && (authorized && r.Err? ==>
                  r.error == if Apply(s, UpdateParams(true, p, true)).Ok? then InvalidLookback else InvalidParams)
  {
  }

  /** A token message takes effect exactly when it comes from the authority and its tokens are valid, of
      distinct denoms and known to the oracle; then the registry is the message's list, in its order. */
  lemma TokensTakeEffectIff(s: State, authorized: bool, ts: seq<FeeToken>, voteTargets: seq<string>)
    ensures var r := Apply(s, UpdateFeeTokens(authorized, ts, voteTargets));
            && (r.Ok? <==>
                  && authorized
                  && (forall i | 0 <= i < |ts| ::
                        && ValidDenom(ts[i].denom) && ValidDenom(ts[i].oracleDenom) && ts[i].oracleDenom in voteTargets
                        && ts[i].decimals >= 1 && ts[i].decimals <= 18 && ts[i].price > 0)
                  && (forall i, j | 0 <= i < |ts| && 0 <= j < |ts| && ts[i].denom == ts[j].denom :: i == j))
            && (r.Ok? ==> r.value.params == s.params && r.value.tokens == ts)
            && (!authorized ==> r == Err(InvalidAuthority))
            && (authorized && r.Err? ==>
                  r.error == if ValidCollection(ts) then UnknownOracleDenom else InvalidFeeTokenMetadata)
  {
    hide ValidDenom;
    assert forall i | 0 <= i < |ts| :: ts[i] in ts;
  }
}
