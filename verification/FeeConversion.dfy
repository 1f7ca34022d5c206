/** Paying a native fee in another token: which token is taken, and what moves between the ERC20
    and the bank side of an account. */
module FeeConversion {
  import opened Wrappers
  import opened Decimal
  import FeeMath
  import opened FeeState

  datatype Coin = Coin(denom: string, amount: nat)

  /** Balances by account and denom; `pairs` are the registered token pairs, `convertible` those the
      ERC20 module agrees to convert. A missing ERC20 balance also stands for an unreadable one. */
  datatype Ledger = Ledger(
    bank: map<(string, string), nat>, erc20: map<(string, string), nat>, pairs: set<string>, convertible: set<string>)
  {
    function Bank(account: string, denom: string): nat {
      if (account, denom) in bank then bank[(account, denom)] else 0
    }

    function Erc20(account: string, denom: string): nat {
      if (account, denom) in erc20 then erc20[(account, denom)] else 0
    }

    /** Both sides together. */
    function Holdings(account: string, denom: string): nat {
      Bank(account, denom) + Erc20(account, denom)
    }

    /** `ConvertERC20`: `amount` leaves the ERC20 side and arrives in the bank. */
    function Unwrap(account: string, denom: string, amount: nat): Ledger
      requires amount <= Erc20(account, denom)
    {
      var k := (account, denom);
      this.(bank := bank[k := Bank(account, denom) + amount], erc20 := erc20[k := Erc20(account, denom) - amount])
    }
  }

  /** `NegativeCoin` stands for the panic of building a coin with a negative amount. */
  datatype FeeError = InsufficientFunds | ConversionRefused | BadDecimals | NegativeCoin

  // ----- one token

  predicate Affordable(l: Ledger, account: string, denom: string, amount: int) {
    l.Bank(account, denom) >= amount || (denom in l.pairs && l.Erc20(account, denom) >= amount)
  }

  /** The walk over the tokens ends at this one: it has a charge the account can pay, or no decimals
      to compute a charge with. */
  predicate Stops(l: Ledger, account: string, t: FeeToken, fee: nat) {
    t.enabled && (t.decimals == 0 || (Charged(t, fee) != 0 && Affordable(l, account, t.denom, Charged(t, fee))))
  }

  function Charged(t: FeeToken, fee: nat): int
    requires t.decimals > 0
  {
    FeeMath.Charge(t.price, fee, t.decimals)
  }

  /** Position of the first token the walk ends at, or the length of the list. */
  function FirstStop(l: Ledger, account: string, ts: seq<FeeToken>, fee: nat): (k: nat)
    ensures k <= |ts|
    ensures forall i | 0 <= i < k :: !Stops(l, account, ts[i], fee)
    ensures k < |ts| ==> Stops(l, account, ts[k], fee)
  {
    if ts == [] then 0
    else if Stops(l, account, ts[0], fee) then 0
    else
      assert forall i | 0 <= i < |ts| - 1 :: ts[i + 1] == ts[1..][i];
      1 + FirstStop(l, account, ts[1..], fee)
  }

  // ----- the whole conversion

  datatype Paid = Paid(result: Result<seq<Coin>, FeeError>, ledger: Ledger)

  /** What taking token `t` for `fee` does. */
  function PayWith(l: Ledger, account: string, t: FeeToken, fee: nat): Paid
    requires Stops(l, account, t, fee)
  {
    if t.decimals == 0 then Paid(Err(BadDecimals), l)
    else
      var charge := Charged(t, fee);
      if charge < 0 then Paid(Err(NegativeCoin), l)
      else if l.Bank(account, t.denom) >= charge then Paid(Ok([Coin(t.denom, charge)]), l)
      else if t.denom !in l.convertible then Paid(Err(ConversionRefused), l)
      else Paid(Ok([Coin(t.denom, charge)]), l.Unwrap(account, t.denom, charge))
  }

  function PayInTokens(l: Ledger, account: string, ts: seq<FeeToken>, fee: nat): Paid {
    var k := FirstStop(l, account, ts, fee);
    if k == |ts| then Paid(Err(InsufficientFunds), l) else PayWith(l, account, ts[k], fee)
  }

  function ConvertNativeFee(s: State, l: Ledger, account: string, fees: seq<Coin>): Paid {
    if !s.params.enabled || (forall c | c in fees :: c.amount == 0) || |fees| != 1
       || fees[0].denom != s.params.nativeDenom || l.Bank(account, fees[0].denom) >= fees[0].amount
    then Paid(Ok(fees), l)
    else PayInTokens(l, account, s.tokens, fees[0].amount)
  }

  // ----- what the conversion guarantees

  /** The fees go through as they are, and no balance moves, whenever the module is disabled, nothing is
      to be paid, there is not exactly one coin, it is not the native one, or the bank covers it. */
  lemma FeesPassThrough(s: State, l: Ledger, account: string, fees: seq<Coin>)
    requires || !s.params.enabled
             || (forall c | c in fees :: c.amount == 0)
             || |fees| != 1
             || fees[0].denom != s.params.nativeDenom
             || l.Bank(account, fees[0].denom) >= fees[0].amount
    ensures ConvertNativeFee(s, l, account, fees) == Paid(Ok(fees), l)
  {
  }

  /** The account has `amount` in the bank, or in ERC20 tokens of a registered pair. */
  lemma AffordableMeans(l: Ledger, account: string, denom: string, amount: int)
    ensures Affordable(l, account, denom, amount) <==>
              amount <= l.Bank(account, denom) || (amount <= l.Erc20(account, denom) && denom in l.pairs)
  {
  }

  /** For one positive native coin, success returns one positive coin that the account can pay from
      its bank balance afterwards; if native funds were short it is the charge of the first token in
      list order that is enabled, has a non-zero charge and is affordable. */
  lemma PaymentIsCovered(s: State, l: Ledger, account: string, fee: Coin)
    requires s.params.enabled && fee.denom == s.params.nativeDenom && fee.amount > 0
    ensures var paid := ConvertNativeFee(s, l, account, [fee]);
            paid.result.Ok? ==>
              && |paid.result.value| == 1
              && var coin := paid.result.value[0];
              && coin.amount > 0 && paid.ledger.Bank(account, coin.denom) >= coin.amount
              && (l.Bank(account, fee.denom) >= fee.amount ==> coin == fee && paid.ledger == l)
              && (l.Bank(account, fee.denom) < fee.amount
                  ==> exists k :: PaidBy(s.tokens, k, l, account, fee.amount, coin))
  {
    hide FeeMath.Charge;
    assert fee in [fee];
    var k := FirstStop(l, account, s.tokens, fee.amount);
    var paid := ConvertNativeFee(s, l, account, [fee]);
    if paid.result.Ok? && l.Bank(account, fee.denom) < fee.amount {
      assert PaidBy(s.tokens, k, l, account, fee.amount, paid.result.value[0]);
    }
  }

  /** `coin` is the charge of token `k`, payable from the bank or from the ERC20 tokens of a registered
      pair, and no enabled token before it has a charge that is. */
  predicate PaidBy(ts: seq<FeeToken>, k: nat, l: Ledger, account: string, fee: nat, coin: Coin) {
    && k < |ts| && ts[k].enabled && ts[k].decimals > 0 && ts[k].denom == coin.denom
    && Charged(ts[k], fee) == coin.amount
    && (l.Bank(account, coin.denom) >= coin.amount
        || (coin.denom in l.pairs && l.Erc20(account, coin.denom) >= coin.amount))
    && forall i | 0 <= i < k && ts[i].enabled :: ts[i].decimals > 0 && Passed(l, account, ts[i], fee)
  }

  /** The token's charge is zero, or more than the account has on either side. */
  predicate Passed(l: Ledger, account: string, t: FeeToken, fee: nat)
    requires t.decimals > 0
  {
    var charge := Charged(t, fee);
    || charge == 0
    || (l.Bank(account, t.denom) < charge && (t.denom !in l.pairs || l.Erc20(account, t.denom) < charge))
  }

  /** Paying with token `t` fails: no decimals, a negative charge, or a conversion that is needed and refused. */
  predicate Unpayable(l: Ledger, account: string, t: FeeToken, fee: nat) {
    t.decimals == 0 || Charged(t, fee) < 0 || (l.Bank(account, t.denom) < Charged(t, fee) && t.denom !in l.convertible)
  }

  /** For every state and fee list: refusal means one positive native coin, an enabled module and a bank
      that does not cover it, and a walk that ends at no token, or at one that cannot be paid with after
      all; later tokens are then not tried. */
  lemma RefusedIff(s: State, l: Ledger, account: string, fees: seq<Coin>)
    ensures ConvertNativeFee(s, l, account, fees).result.Err? <==>
              && s.params.enabled && |fees| == 1 && fees[0].amount > 0 && fees[0].denom == s.params.nativeDenom
              && l.Bank(account, fees[0].denom) < fees[0].amount
              && ((forall i | 0 <= i < |s.tokens| :: !Stops(l, account, s.tokens[i], fees[0].amount))
                  || exists i | 0 <= i < |s.tokens| ::
                       && Stops(l, account, s.tokens[i], fees[0].amount)
                       && (forall j | 0 <= j < i :: !Stops(l, account, s.tokens[j], fees[0].amount))
                       && Unpayable(l, account, s.tokens[i], fees[0].amount))
  {
    hide FeeMath.Charge;
    if |fees| == 1 {
      assert fees == [fees[0]] && fees[0] in fees;
    }
  }

  /** Why a fee is refused: no token ends the walk; or the first that does has no decimals, or a negative
      charge, or needs a conversion that is refused. */
  lemma WhyRefused(s: State, l: Ledger, account: string, fees: seq<Coin>)
    requires ConvertNativeFee(s, l, account, fees).result.Err?
    ensures |fees| == 1
    ensures var fee, error := fees[0].amount, ConvertNativeFee(s, l, account, fees).result.error;
            var k := FirstStop(l, account, s.tokens, fee);
            error == if k == |s.tokens| then InsufficientFunds
                     else if s.tokens[k].decimals == 0 then BadDecimals
                     else if Charged(s.tokens[k], fee) < 0 then NegativeCoin
                     else ConversionRefused
  {
    hide FeeMath.Charge;
  }

  /** Exactly the coin paid moves, and only if the bank was short of it: from the ERC20 side of the
      account's own balance in that denom to its bank side. */
  lemma TransferIsExact(s: State, l: Ledger, account: string, fee: Coin, who: string, denom: string)
    requires s.params.enabled && fee.denom == s.params.nativeDenom && l.Bank(account, fee.denom) < fee.amount
    requires ConvertNativeFee(s, l, account, [fee]).result.Ok?
    ensures var paid := ConvertNativeFee(s, l, account, [fee]);
            && |paid.result.value| == 1
            && var coin := paid.result.value[0];
            var moved :=
              if who == account && denom == coin.denom && l.Bank(account, denom) < coin.amount then coin.amount else 0;
            && paid.ledger.Bank(who, denom) == l.Bank(who, denom) + moved
            && paid.ledger.Erc20(who, denom) == l.Erc20(who, denom) - moved
            && paid.ledger.pairs == l.pairs && paid.ledger.convertible == l.convertible
  {
    hide FeeMath.Charge;
    assert fee in [fee];
  }

  /** Nobody gains or loses anything in any denom, other accounts and denoms are untouched on
      either side, and a refusal changes no balance at all. */
  lemma HoldingsConserved(s: State, l: Ledger, account: string, fees: seq<Coin>, who: string, denom: string)
    ensures var paid := ConvertNativeFee(s, l, account, fees);
            && paid.ledger.Holdings(who, denom) == l.Holdings(who, denom)
            && (who != account ==> paid.ledger.Bank(who, denom) == l.Bank(who, denom))
            && paid.ledger.Bank(who, denom) >= l.Bank(who, denom)
            && (paid.result.Err? ==> paid.ledger == l)
            && (paid.result.Ok? && (forall c | c in paid.result.value :: c.denom != denom) ==>
                  paid.ledger.Bank(who, denom) == l.Bank(who, denom))
  {
    hide FeeMath.Charge;
  }

  /** With a registry any run can reach, a refusal is for want of funds or by the ERC20 module: the
      decimals error and the negative coin do not occur. */
  lemma ReachableErrors(s: State, actions: seq<Action>, l: Ledger, account: string, fees: seq<Coin>)
    requires Genesis(s) && forall a | a in actions :: NonNegativeTwaps(a)
    ensures var r := ConvertNativeFee(Run(s, actions), l, account, fees).result;
            r.Err? ==> r.error == InsufficientFunds || r.error == ConversionRefused
  {
    hide FeeMath.Charge, Run;
    ReachableInv(s, actions);
    if |fees| == 1 {
      var ts, fee := Run(s, actions).tokens, fees[0].amount;
      var k := FirstStop(l, account, ts, fee);
      if k < |ts| {
        assert ts[k] in ts;
        FeeMath.ChargeNonNegative(ts[k].price, fee, ts[k].decimals);
      }
    }
  }
}
