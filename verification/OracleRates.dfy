/** Which exchange rates a close of the period publishes, and what they are worth. */
module OracleRates {
  import opened Decimal
  import opened Ordering
  import opened OracleBallot
  import opened OracleTally
  import opened OracleState
  import opened OracleVerdict

  lemma {:induction false} RatesPointwise(rates: map<string, Rate>, ds: seq<string>, voteMap: VoteMap, ref: string,
          env: Env, d: string)
    requires ref in voteMap && forall x | x in ds :: x in voteMap
    ensures var after := RatesAfter(rates, ds, voteMap, ref, env);
            if d in ds && Median(Seen(voteMap, ref, d, env.overflows)) != 0
            then d in after && after[d] == Rate(NewRate(voteMap, ref, d, env), env.height, env.timestamp)
            else (d in after <==> d in rates) && (d in after ==> after[d] == rates[d])
    decreases |ds|
  {
    hide Seen, NewRate, Median;
    if ds != [] {
      RatesPointwise(rates, ds[..|ds| - 1], voteMap, ref, env, d);
      assert ds == ds[..|ds| - 1] + [ds[|ds| - 1]];
    }
  }

  /** Seen through the reference rates no vote is negative, so neither is the median. */
  lemma CrossMedianNonNegative(voteMap: VoteMap, ref: string, d: string, env: Env)
    requires ref in voteMap && d in voteMap && d != ref
    ensures Median(Seen(voteMap, ref, d, env.overflows)) >= 0
  {
    hide ToMap, SortOf, Quo;
    var bases := ToMap(SortOf(voteMap[ref]));
    var b := Seen(voteMap, ref, d, env.overflows);
    if b != [] {
      var v :| v in b && v.rate == Median(b);
      var i :| 0 <= i < |b| && b[i] == v;
      var w := voteMap[d][i];
      assert v == Cross(bases, env.overflows)(w);
      if w.voter in bases && w.rate > 0 {
        ToMapWasGiven(SortOf(voteMap[ref]), w.voter);
        QuoNonNegative(bases[w.voter], w.rate);
      }
    }
  }

  lemma SeenAsItIs(voteMap: VoteMap, ref: string, env: Env)
    requires ref in voteMap
    ensures Seen(voteMap, ref, ref, env.overflows) == voteMap[ref]
  {
  }

  /** Exactly the passing denoms with a non-zero median get a new rate, stamped with this block; all
      others keep what they had. The reference's rate is its median. Any other rate is in the form
      voters gave it: multiplied by the median of the cross rates it is the reference's, up to rounding. */
  lemma PublishedRates(s: Store, p: Params, env: Env, d: string)
    ensures var passing, ref := PassingOf(s, p, env), RefOf(s, p, env);
            var after := Close(s, p, env).rates;
            if ref == "" || d !in passing || Median(Seen(passing, ref, d, env.overflows)) == 0
            then (d in after <==> d in s.rates) && (d in after ==> after[d] == s.rates[d])
            else
              var median := Median(Seen(passing, ref, d, env.overflows));
              && d in after && after[d].height == env.height && after[d].timestamp == env.timestamp
              && (d == ref ==> after[d].rate == median == Median(passing[ref]))
              && (d != ref ==>
                    && median > 0
                    && Abs(2 * (after[d].rate * median - Median(passing[ref]) * ONE)) * ONE <= (ONE + 2) * median)
  {
    hide PassingOf, RefOf, Seen, Median, RatesAfter, TargetsAfter, CountersAfter, FinalClaims, ReducedTargets, Quo;
    var passing, ref := PassingOf(s, p, env), RefOf(s, p, env);
    ReferencePasses(s, p, env);
    if ref != "" {
      SeenAsItIs(passing, ref, env);
      RatesPointwise(s.rates, SortedSeq(passing.Keys), passing, ref, env, d);
      if d in passing && d != ref && Median(Seen(passing, ref, d, env.overflows)) != 0 {
        CrossMedianNonNegative(passing, ref, d, env);
        QuoErrorBound(Median(passing[ref]), Median(Seen(passing, ref, d, env.overflows)));
      }
    }
  }

  // ----- where the voters agree

  /** The voter gave some positive rate for the reference. */
  predicate HasBase(refBallot: ExchangeRateBallot, a: Addr) { exists u | u in refBallot :: u.voter == a && u.rate > 0 }

  /** A vote that can count: a positive rate by a voter who also rated the reference. */
  predicate CanCount(refBallot: ExchangeRateBallot, v: Vote) { v.rate > 0 && HasBase(refBallot, v.voter) }

  function CountedPower(refBallot: ExchangeRateBallot): Vote -> int {
    (v: Vote) => if CanCount(refBallot, v) then v.power else 0
  }

  /** All votes that can count give `d` the rate `r` and the reference the rate `a`. */
  predicate Agree(ballot: ExchangeRateBallot, refBallot: ExchangeRateBallot, r: Dec, a: Dec) {
    && (forall v | v in ballot && CanCount(refBallot, v) :: v.rate == r)
    && (forall v, u | v in ballot && CanCount(refBallot, v) && u in refBallot && u.voter == v.voter && u.rate > 0 ::
          u.rate == a)
  }

  /** They decide the ballot: they hold at least two units of power, or there are no others. */
  predicate Decide(ballot: ExchangeRateBallot, refBallot: ExchangeRateBallot) {
    || Sum(CountedPower(refBallot), ballot) >= 2
    || (ballot != [] && forall v | v in ballot :: CanCount(refBallot, v))
  }

  lemma BaseOf(refBallot: ExchangeRateBallot, a: Addr)
    ensures var bases := ToMap(SortOf(refBallot));
            && (a in bases <==> HasBase(refBallot, a))
            && (a in bases ==> exists u :: u in refBallot && u.voter == a && u.rate > 0 && u.rate == bases[a])
  {
    hide ToMap;
    var sorted := SortOf(refBallot);
    SameMembers(sorted, refBallot);
    if HasBase(refBallot, a) {
      var u :| u in refBallot && u.voter == a && u.rate > 0;
      ToMapIsHighest(sorted, u);
    }
    if a in ToMap(sorted) {
      ToMapWasGiven(sorted, a);
      var u :| u in sorted && u.voter == a && u.rate == ToMap(sorted)[a];
      assert u in refBallot;
    }
  }

  /** Where the votes agree each has the rate `Quo(a, r)` and its power after crossing, or neither. */
  lemma AgreedVote(ballot: ExchangeRateBallot, refBallot: ExchangeRateBallot, r: Dec, a: Dec, v: Vote, env: Env)
    requires Agree(ballot, refBallot, r, a) && v in ballot && r > 0 && !env.overflows(Quo(a, r))
    ensures var v' := Cross(ToMap(SortOf(refBallot)), env.overflows)(v);
            if CanCount(refBallot, v) then v'.rate == Quo(a, r) && v'.power == v.power
            else v'.rate == 0 && v'.power == 0
  {
    hide ToMap, SortOf, Quo;
    BaseOf(refBallot, v.voter);
  }

  lemma {:induction false} CrossedPowers(part: ExchangeRateBallot, ballot: ExchangeRateBallot,
          refBallot: ExchangeRateBallot, r: Dec, a: Dec, env: Env)
    requires Agree(ballot, refBallot, r, a) && r > 0 && Quo(a, r) > 0 && !env.overflows(Quo(a, r))
    requires forall v | v in part :: v in ballot
    ensures var crossed := MapVotes(Cross(ToMap(SortOf(refBallot)), env.overflows), part);
            Power(crossed) == Sum(CountedPower(refBallot), part) && Sum(UpTo(0), crossed) == 0
    decreases |part|
  {
    hide ToMap, SortOf, Quo, Agree, CanCount, Cross;
    if part != [] {
      var init, v := part[..|part| - 1], part[|part| - 1];
      var f := Cross(ToMap(SortOf(refBallot)), env.overflows);
      assert v in part;
      CrossedPowers(init, ballot, refBallot, r, a, env);
      AgreedVote(ballot, refBallot, r, a, v, env);
      assert MapVotes(f, part)[..|part| - 1] == MapVotes(f, init);
    }
  }

  /** The median of the crossed ballot is then the one cross rate. */
  lemma AgreedMedian(ballot: ExchangeRateBallot, refBallot: ExchangeRateBallot, r: Dec, a: Dec, env: Env)
    requires Agree(ballot, refBallot, r, a) && Decide(ballot, refBallot)
    requires r > 0 && Quo(a, r) > 0 && !env.overflows(Quo(a, r))
    ensures Median(MapVotes(Cross(ToMap(SortOf(refBallot)), env.overflows), ballot)) == Quo(a, r)
  {
    hide ToMap, SortOf, Quo, Agree, CanCount, Cross, Sum, Power;
    var f := Cross(ToMap(SortOf(refBallot)), env.overflows);
    var crossed := MapVotes(f, ballot);
    CrossedPowers(ballot, ballot, refBallot, r, a, env);
    NonEmptyIfDeciding(ballot, refBallot);
    var v :| v in crossed && v.rate == Median(crossed);
    var i :| 0 <= i < |crossed| && crossed[i] == v;
    assert ballot[i] in ballot && v == f(ballot[i]);
    AgreedVote(ballot, refBallot, r, a, ballot[i], env);
  }

  lemma NonEmptyIfDeciding(ballot: ExchangeRateBallot, refBallot: ExchangeRateBallot)
    requires Decide(ballot, refBallot)
    ensures ballot != []
  {
  }

  /** At a close, where all votes that can count give `d` one rate `r` and the reference one rate `a`,
      decide the ballot, and `a` is the reference's median, the rate published for `d` is `r`: off by at
      most half a unit, and two parts in ten to the eighteenth of it, for every `x + r` over `x`, the
      cross rate. */
  lemma UnanimousRate(s: Store, p: Params, env: Env, d: string, r: Dec, a: Dec)
    requires var passing, ref := PassingOf(s, p, env), RefOf(s, p, env);
             && ref != "" && ref in passing && d in passing && d != ref
             && Agree(passing[d], passing[ref], r, a) && Decide(passing[d], passing[ref])
             && Median(passing[ref]) == a
    requires r > 0 && Quo(a, r) > 0 && !env.overflows(Quo(a, r))
    ensures var x, after := Quo(a, r), Close(s, p, env).rates;
            && d in after && after[d].height == env.height && after[d].timestamp == env.timestamp
            && 2 * ONE * Abs(after[d].rate - r) * x <= (ONE + 2) * (x + r)
  {
    hide PassingOf, RefOf, Median, Quo, Agree, Decide, Close, Seen;
    var passing, ref := PassingOf(s, p, env), RefOf(s, p, env);
    SeenMedian(passing, ref, d, r, a, env);
    PublishedRates(s, p, env, d);
    QuoErrorBound(a, r);
    var rate, x := Close(s, p, env).rates[d].rate, Quo(a, r);
    BothWays(rate, r, x, a * ONE);
    Together(Abs(rate - r), x, r, Abs(2 * (rate * x - a * ONE)), Abs(2 * (x * r - a * ONE)));
  }

  lemma SeenMedian(voteMap: VoteMap, ref: string, d: string, r: Dec, a: Dec, env: Env)
    requires ref in voteMap && d in voteMap && d != ref
    requires Agree(voteMap[d], voteMap[ref], r, a) && Decide(voteMap[d], voteMap[ref])
    requires r > 0 && Quo(a, r) > 0 && !env.overflows(Quo(a, r))
    ensures Median(Seen(voteMap, ref, d, env.overflows)) == Quo(a, r)
  {
    hide Agree, Decide, Quo, Median, ToMap, SortOf;
    AgreedMedian(voteMap[d], voteMap[ref], r, a, env);
  }

  lemma BothWays(published: Dec, r: Dec, x: nat, c: int)
    ensures 2 * (Abs(published - r) * x) <= Abs(2 * (published * x - c)) + Abs(2 * (x * r - c))
  {
    hide Abs;
    AbsTimes(published - r, x);
    Apart(published * x, x * r, c);
    assert (published - r) * x == published * x - x * r;
  }

  lemma Together(m: nat, x: int, r: int, n1: nat, n2: nat)
    requires 2 * (m * x) <= n1 + n2 && n1 * ONE <= (ONE + 2) * x && n2 * ONE <= (ONE + 2) * r
    ensures 2 * ONE * m * x <= (ONE + 2) * (x + r)
  {
    assert 2 * ONE * m * x == ONE * (2 * (m * x));
  }

  lemma AbsTimes(y: int, x: nat)
    ensures Abs(y * x) == Abs(y) * x
  {
  }

  lemma Apart(u: int, v: int, c: int)
    ensures 2 * Abs(u - v) <= Abs(2 * (u - c)) + Abs(2 * (v - c))
  {
  }
}
