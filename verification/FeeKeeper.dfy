/** The module's keeper: its two stored items, and the balances its conversions move. */
module FeeKeeper {
  import opened Wrappers
  import opened Decimal
  import FeeMath
  import opened FeeState
  import C = FeeConversion

  class Keeper {
    const authority: string
    const validAddress: string -> bool
    var params: Params
    var feeTokens: seq<FeeToken>
    var ledger: C.Ledger

    constructor (authority: string, validAddress: string -> bool, params: Params, ledger: C.Ledger)
      ensures this.authority == authority && this.validAddress == validAddress
      ensures this.params == params && feeTokens == [] && this.ledger == ledger
    {
      this.authority, this.validAddress, this.params, this.feeTokens, this.ledger :=
          authority, validAddress, params, [], ledger;
    }

    function State(): FeeState.State
      reads this
    {
      FeeState.State(params, feeTokens)
    }

    predicate Authorized(a: string) { validAddress(a) && a == authority }

    /** An invalid genesis is refused; a missing token collection passes the parameters' check and
        then dereferences a nil pointer. */
    method InitGenesis(gsParams: Params, gsTokens: Option<seq<FeeToken>>) returns (err: Option<Error>, panicked: bool)
      modifies this`params, this`feeTokens
      ensures panicked <==> ValidParams(gsParams) && gsTokens.None?
      ensures err.None? && !panicked ==>
                gsTokens.Some? && State() == FeeState.State(gsParams, gsTokens.value) && Genesis(State())
      ensures err.Some? || panicked ==> State() == old(State())
      ensures err.Some? <==> !ValidParams(gsParams) || (gsTokens.Some? && !ValidCollection(gsTokens.value))
    {
      if !ValidParams(gsParams) {
        return Some(InvalidParams), false;
      }
      if gsTokens.None? {
        return None, true;
      }
      var ok := ValidateCollection(gsTokens.value);
      if !ok {
        return Some(InvalidFeeTokenMetadata), false;
      }
      params := gsParams;
      feeTokens := gsTokens.value;
      return None, false;
    }

    /** The loop over the stored tokens; nothing is written. */
    method CalculatePriceTokens(twapPriceMap: map<string, Dec>, baseTokenPrice: Dec, clampFactor: Dec)
      returns (r: Result<seq<FeeToken>, Error>)
      ensures r == RepriceAll(feeTokens, twapPriceMap, baseTokenPrice, clampFactor)
    {
      hide FeeMath.ClampPrice, Quo;
      var updateTokens: seq<FeeToken> := [];
      for i := 0 to |feeTokens|
        invariant RepriceAll(feeTokens[..i], twapPriceMap, baseTokenPrice, clampFactor) == Ok(updateTokens)
      {
        var token := feeTokens[i];
        RepricePrefix(feeTokens, i, twapPriceMap, baseTokenPrice, clampFactor);
        if !token.enabled {
          updateTokens := updateTokens + [token];
          continue;
        }
        var tokenPrice := if token.oracleDenom in twapPriceMap then twapPriceMap[token.oracleDenom] else 0;
        if tokenPrice == 0 {
          token := token.(enabled := false);
          token := token.(price := 0);
          updateTokens := updateTokens + [token];
          continue;
        }
        var price := FeeMath.CalculateTokenPrice(baseTokenPrice, tokenPrice);
        if price.Err? {
          return Err(ZeroBasePrice);
        }
        token := token.(price := FeeMath.ClampPrice(token.price, price.value, clampFactor));
        updateTokens := updateTokens + [token];
      }
      assert feeTokens[..|feeTokens|] == feeTokens;
      return Ok(updateTokens);
    }

    method CalculateFeeTokenPrices(twaps: Option<seq<Twap>>) returns (err: Option<Error>)
      requires params.enabled
      modifies this`feeTokens
      ensures match BeginBlock(old(State()), twaps)
              case Ok(s) => err.None? && State() == s
              case Err(e) => err == Some(e) && State() == old(State())
    {
      hide RepriceAll;
      var list := if twaps.Some? then twaps.value else [];
      var twapPriceMap: map<string, Dec> := map[];
      for i := 0 to |list|
        invariant twapPriceMap == TwapMap(list[..i])
      {
        assert list[..i + 1][..i] == list[..i];
        twapPriceMap := twapPriceMap[list[i].denom := list[i].price];
      }
      assert list[..|list|] == list;
      var baseTokenPrice :=
        if params.nativeOracleDenom in twapPriceMap then twapPriceMap[params.nativeOracleDenom]
        else params.fallbackNativePrice;
      var updateTokens := CalculatePriceTokens(twapPriceMap, baseTokenPrice, params.clampFactor);
      if updateTokens.Err? {
        return Some(updateTokens.error);
      }
      feeTokens := updateTokens.value;
      return None;
    }

    method BeginBlocker(twaps: Option<seq<Twap>>) returns (err: Option<Error>)
      modifies this`feeTokens
      ensures match BeginBlock(old(State()), twaps)
              case Ok(s) => err.None? && State() == s
              case Err(e) => err == Some(e) && State() == old(State())
    {
      if !params.enabled {
        return None;
      }
      err := CalculateFeeTokenPrices(twaps);
    }

    method UpdateParams(msgAuthority: string, msgParams: Params, lookbackDuration: nat) returns (err: Option<Error>)
      modifies this`params
      ensures var accepted := msgParams.twapLookbackWindow <= lookbackDuration && msgParams.twapLookbackWindow != 0;
              match Apply(old(State()), Action.UpdateParams(Authorized(msgAuthority), msgParams, accepted))
              case Ok(s) => err.None? && State() == s
              case Err(e) => err == Some(e) && State() == old(State())
      ensures err.None? ==> validAddress(msgAuthority) && msgAuthority == authority
    {
      if !validAddress(msgAuthority) || authority != msgAuthority {
        return Some(InvalidAuthority);
      }
      if !ValidParams(msgParams) {
        return Some(InvalidParams);
      }
      if msgParams.twapLookbackWindow > lookbackDuration || msgParams.twapLookbackWindow == 0 {
        return Some(InvalidLookback);
      }
      params := msgParams;
      return None;
    }

    method UpdateFeeTokens(msgAuthority: string, msgTokens: seq<FeeToken>, voteTargets: seq<string>)
      returns (err: Option<Error>)
      modifies this`feeTokens
      ensures match Apply(old(State()), Action.UpdateFeeTokens(Authorized(msgAuthority), msgTokens, voteTargets))
              case Ok(s) => err.None? && State() == s
              case Err(e) => err == Some(e) && State() == old(State())
      ensures err.None? ==> validAddress(msgAuthority) && msgAuthority == authority
    {
      if !validAddress(msgAuthority) || authority != msgAuthority {
        return Some(InvalidAuthority);
      }
      var ok := ValidateCollection(msgTokens);
      if !ok {
        return Some(InvalidFeeTokenMetadata);
      }
      var voteTargetMap: set<string> := {};
      for i := 0 to |voteTargets|
        invariant forall d :: d in voteTargetMap <==> d in voteTargets[..i]
      {
        assert voteTargets[..i + 1] == voteTargets[..i] + [voteTargets[i]];
        voteTargetMap := voteTargetMap + {voteTargets[i]};
      }
      assert voteTargets[..|voteTargets|] == voteTargets;
      for i := 0 to |msgTokens|
        invariant forall k | 0 <= k < i :: msgTokens[k].oracleDenom in voteTargets
      {
        if msgTokens[i].oracleDenom !in voteTargetMap {
          assert msgTokens[i] in msgTokens;
          return Some(UnknownOracleDenom);
        }
      }
      feeTokens := msgTokens;
      return None;
    }

    // ----- paying fees

    /** Makes `amount` of `denom` available in the bank, unwrapping ERC20 tokens if it takes that. */
    method ConvertERC20ToNative(account: string, denom: string, amount: int) returns (r: Result<bool, C.FeeError>)
      modifies this`ledger
      ensures r.Ok? ==> (r.value <==> C.Affordable(old(ledger), account, denom, amount))
      ensures r == Ok(true) ==>
                ledger == if old(ledger).Bank(account, denom) >= amount then old(ledger)
                          else old(ledger).Unwrap(account, denom, amount)
      ensures r != Ok(true) ==> ledger == old(ledger)
      ensures r.Err? <==>
                && old(ledger).Bank(account, denom) < amount
                && C.Affordable(old(ledger), account, denom, amount)
                && denom !in ledger.convertible
      ensures r.Err? ==> r.error == C.ConversionRefused
    {
      if ledger.Bank(account, denom) >= amount {
        return Ok(true);
      }
      if denom !in ledger.pairs {
        return Ok(false);
      }
      if ledger.Erc20(account, denom) >= amount {
        if denom !in ledger.convertible {
          return Err(C.ConversionRefused);
        }
        ledger := ledger.Unwrap(account, denom, amount);
        return Ok(true);
      }
      return Ok(false);
    }

    method ConvertERC20ForFees(account: string, fee: C.Coin) returns (r: Result<seq<C.Coin>, C.FeeError>)
      modifies this`ledger
      ensures C.Paid(r, ledger) == C.PayInTokens(old(ledger), account, feeTokens, fee.amount)
    {
      hide FeeMath.CalculateTokenAmountWithDecimals, RoundInt;
      for i := 0 to |feeTokens|
        invariant ledger == old(ledger)
        invariant forall j | 0 <= j < i :: !C.Stops(ledger, account, feeTokens[j], fee.amount)
      {
        var feePrice := feeTokens[i];
        if !feePrice.enabled {
          continue;
        }
        var amountEquivalent :=
          FeeMath.CalculateTokenAmountWithDecimals(feePrice.price, fee.amount, FeeMath.BASE_DENOM_UNIT,
              feePrice.decimals);
        DecimalsAccepted(feePrice.price, fee.amount, feePrice.decimals);
        if amountEquivalent.Err? {
          return Err(C.BadDecimals);
        }
        var amountEquivalentInt := RoundInt(amountEquivalent.value);
        assert amountEquivalentInt == C.Charged(feePrice, fee.amount);
        if amountEquivalentInt == 0 {
          continue;
        }
        var ok :- ConvertERC20ToNative(account, feePrice.denom, amountEquivalentInt);
        if ok {
          if amountEquivalentInt < 0 {
            return Err(C.NegativeCoin);
          }
          return Ok([C.Coin(feePrice.denom, amountEquivalentInt)]);
        }
      }
      return Err(C.InsufficientFunds);
    }

    method ConvertNativeFee(account: string, fees: seq<C.Coin>) returns (r: Result<seq<C.Coin>, C.FeeError>)
      modifies this`ledger
      ensures C.Paid(r, ledger) == C.ConvertNativeFee(State(), old(ledger), account, fees)
    {
      hide C.PayInTokens;
      if !params.enabled {
        return Ok(fees);
      }
      if forall c | c in fees :: c.amount == 0 {
        return Ok(fees);
      }
      if |fees| != 1 {
        return Ok(fees);
      }
      var fee := fees[0];
      if fee.denom != params.nativeDenom {
        return Ok(fees);
      }
      if ledger.Bank(account, fee.denom) >= fee.amount {
        return Ok(fees);
      }
      r := ConvertERC20ForFees(account, fee);
    }
  }

  lemma RepricePrefix(ts: seq<FeeToken>, i: nat, twaps: map<string, Dec>, base: Dec, c: Dec)
    requires i < |ts|
    requires RepriceAll(ts[..i], twaps, base, c).Ok?
    ensures RepriceAll(ts[..i + 1], twaps, base, c) ==
            match Reprice(ts[i], twaps, base, c)
            case Ok(t) => Ok(RepriceAll(ts[..i], twaps, base, c).value + [t])
            case Err(e) => Err(e)
    ensures Reprice(ts[i], twaps, base, c).Err?
        ==> RepriceAll(ts, twaps, base, c) == Err(Reprice(ts[i], twaps, base, c).error)
  {
    hide Reprice;
    assert ts[..i + 1][..i] == ts[..i];
    if Reprice(ts[i], twaps, base, c).Err? {
      FirstFailure(ts, i + 1, twaps, base, c);
    }
  }

  lemma {:induction false} FirstFailure(ts: seq<FeeToken>, n: nat, twaps: map<string, Dec>, base: Dec, c: Dec)
    requires n <= |ts| && RepriceAll(ts[..n], twaps, base, c).Err?
    ensures RepriceAll(ts, twaps, base, c) == RepriceAll(ts[..n], twaps, base, c)
    decreases |ts|
  {
    hide Reprice;
    if n == |ts| {
      assert ts[..n] == ts;
    } else {
      assert ts[..|ts| - 1][..n] == ts[..n];
      FirstFailure(ts[..|ts| - 1], n, twaps, base, c);
    }
  }

  lemma DecimalsAccepted(price: Dec, amount: int, d: nat)
    ensures FeeMath.CalculateTokenAmountWithDecimals(price, amount, FeeMath.BASE_DENOM_UNIT, d).Ok? <==> d > 0
  {
  }
}
