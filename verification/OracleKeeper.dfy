/** The oracle keeper, its begin and end of block. Every `range` over a Go map is a loop over an
    arbitrarily chosen order, and every unstable sort an arbitrary sorted arrangement; the end
    state is nevertheless one function of the old state. */
module OracleKeeper {
  import opened Wrappers
  import opened Decimal
  import opened Ordering
  import opened OracleBallot
  import opened OracleTally
  import opened OracleState
  import opened OracleSlash
  import opened OracleGrouping
  import opened OracleVotes

  // ----- collecting claims and ballots

  method CollectClaims(powerStore: seq<Validator>) returns (claims: Claims)
    ensures claims == ClaimsOf(powerStore)
  {
    claims := map[];
    for i := 0 to |powerStore|
      invariant claims == ClaimsOf(powerStore[..i])
    {
      var validator := powerStore[i];
      assert powerStore[..i + 1][..i] == powerStore[..i];
      if validator.bonded {
        claims := claims[validator.operator := NewClaim(validator.power, validator.operator)];
      }
    }
    assert powerStore[..|powerStore|] == powerStore;
  }

  /** `now` is `start` with the tuples' votes appended to the ballots of their denoms. */
  ghost predicate Grown(start: VoteMap, now: VoteMap, ts: seq<Tuple>, voter: Addr, power: nat) {
    forall d :: (d in now <==> d in start || TupleVotes(ts, voter, power, d) != [])
                && BallotIn(now, d) == BallotIn(start, d) + TupleVotes(ts, voter, power, d)
  }

  lemma GrownStep(start: VoteMap, now: VoteMap, ts: seq<Tuple>, i: nat, voter: Addr, power: nat, vote: Vote)
    requires i < |ts| && Grown(start, now, ts[..i], voter, power) && vote == AsVote(ts[i], voter, power)
    ensures Grown(start, now[vote.denom := BallotIn(now, vote.denom) + [vote]], ts[..i + 1], voter, power)
  {
    var after := now[vote.denom := BallotIn(now, vote.denom) + [vote]];
    assert ts[..i + 1][..i] == ts[..i];
    forall d
      ensures (d in after <==> d in start || TupleVotes(ts[..i + 1], voter, power, d) != [])
              && BallotIn(after, d) == BallotIn(start, d) + TupleVotes(ts[..i + 1], voter, power, d)
    {
      var got := TupleVotes(ts[..i], voter, power, d);
      assert (d in now <==> d in start || got != []) && BallotIn(now, d) == BallotIn(start, d) + got;
      if d == vote.denom {
        assert TupleVotes(ts[..i + 1], voter, power, d) == got + [vote];
        assert (BallotIn(start, d) + got) + [vote] == BallotIn(start, d) + (got + [vote]);
      } else {
        assert TupleVotes(ts[..i + 1], voter, power, d) == got;
      }
    }
  }

  /** Appends one validator's tuples to the ballots of their denoms. */
  method AppendTuples(votes: VoteMap, tuples: seq<Tuple>, voter: Addr, power: nat) returns (votes': VoteMap)
    ensures Grown(votes, votes', tuples, voter, power)
  {
    hide Grown, TupleVotes;
    votes' := votes;
    NothingGrown(votes, voter, power);
    for i := 0 to |tuples|
      invariant Grown(votes, votes', tuples[..i], voter, power)
    {
      var tuple := tuples[i];
      var tmpPower := power;
      if !(tuple.rate > 0) {
        tmpPower := 0;
      }
      var vote := Vote(tuple.denom, tuple.rate, voter, tmpPower);
      GrownStep(votes, votes', tuples, i, voter, power, vote);
      votes' := votes'[tuple.denom := BallotIn(votes', tuple.denom) + [vote]];
    }
    assert tuples[..|tuples|] == tuples;
  }

  lemma NothingGrown(votes: VoteMap, voter: Addr, power: nat)
    ensures Grown(votes, votes, [], voter, power)
  {
  }

  /** The map holds exactly the non-empty ballots the walk over `keys` collects. */
  ghost predicate Collected(m: VoteMap, keys: seq<Addr>, votes: Votes, claims: Claims)
    requires forall k | k in keys :: k in votes
  {
    forall d :: (d in m <==> BallotFor(keys, votes, claims, d) != [])
        && BallotIn(m, d) == BallotFor(keys, votes, claims, d)
  }

  lemma CollectedStep(m: VoteMap, m': VoteMap, keys: seq<Addr>, i: nat, votes: Votes, claims: Claims)
    requires i < |keys| && (forall k | k in keys :: k in votes) && Collected(m, keys[..i], votes, claims)
    requires var agg := votes[keys[i]];
             if agg.voter in claims then Grown(m, m', agg.tuples, keys[i], claims[agg.voter].power) else m' == m
    ensures Collected(m', keys[..i + 1], votes, claims)
  {
    hide TupleVotes, BallotIn, BallotFor;
    forall d
      ensures (d in m' <==> BallotFor(keys[..i + 1], votes, claims, d) != [])
              && BallotIn(m', d) == BallotFor(keys[..i + 1], votes, claims, d)
    {
      BallotStep(keys, i, votes, claims, d);
      assert (d in m <==> BallotFor(keys[..i], votes, claims, d) != [])
          && BallotIn(m, d) == BallotFor(keys[..i], votes, claims, d);
    }
  }

  lemma BallotStep(keys: seq<Addr>, i: nat, votes: Votes, claims: Claims, d: string)
    requires i < |keys| && forall k | k in keys :: k in votes
    ensures BallotFor(keys[..i + 1], votes, claims, d)
        == BallotFor(keys[..i], votes, claims, d) + VotesBy(keys[i], votes, claims, d)
  {
    hide VotesBy;
    assert keys[..i + 1][..i] == keys[..i];
  }

  lemma CollectedIsGrouped(m: VoteMap, votes: Votes, claims: Claims)
    requires Collected(m, SortedSeq(votes.Keys), votes, claims)
    ensures m == Grouped(votes, claims)
  {
    hide BallotFor, DenomsIn;
    var keys := SortedSeq(votes.Keys);
    forall d | BallotFor(keys, votes, claims, d) != []
      ensures d in DenomsIn(votes)
    {
      BallotDenoms(keys, votes, claims, d);
    }
    var g := Grouped(votes, claims);
    assert forall d :: d in m <==> d in g;
    assert forall d | d in m :: m[d] == BallotIn(m, d) == g[d];
  }

  lemma NothingCollected(votes: Votes, claims: Claims)
    ensures Collected(map[], [], votes, claims)
  {
  }

  /** `OrganizeBallotByDenom`: the walk, then every ballot sorted in the order the map yields them. */
  method OrganizeBallotByDenom(aggregateVotes: Votes, claims: Claims) returns (votes: VoteMap)
    ensures Rearranged(votes, Grouped(aggregateVotes, claims))
    ensures forall d | d in votes :: SortedByRate(votes[d])
  {
    hide Collected, Grown, Grouped, Rearranged, SortedByRate;
    votes := map[];
    var walk := CollectAndSort(aggregateVotes.Keys);
    NothingCollected(aggregateVotes, claims);
    for i := 0 to |walk|
      invariant Collected(votes, walk[..i], aggregateVotes, claims)
    {
      var voterAddr := walk[i];
      var aggregateVote := aggregateVotes[voterAddr];
      ghost var before := votes;
      if aggregateVote.voter in claims {
        votes := AppendTuples(votes, aggregateVote.tuples, voterAddr, claims[aggregateVote.voter].power);
      }
      CollectedStep(before, votes, walk, i, aggregateVotes, claims);
    }
    assert walk[..|walk|] == walk;
    CollectedIsGrouped(votes, aggregateVotes, claims);
    votes := SortBallots(votes);
  }

  method SortBallots(votes: VoteMap) returns (sorted: VoteMap)
    ensures Rearranged(sorted, votes)
    ensures forall d | d in sorted :: SortedByRate(sorted[d])
  {
    sorted := votes;
    var todo := votes.Keys;
    while todo != {}
      invariant todo <= votes.Keys && Rearranged(sorted, votes)
      invariant forall d | d in sorted && d !in todo :: SortedByRate(sorted[d])
      decreases todo
    {
      var denom :| denom in todo;
      todo := todo - {denom};
      var ballot := Sort(sorted[denom]);
      sorted := sorted[denom := ballot];
    }
  }

  lemma {:induction false} TupleDenoms(ts: seq<Tuple>, voter: Addr, power: nat, d: string)
    requires TupleVotes(ts, voter, power, d) != []
    ensures exists i | 0 <= i < |ts| :: ts[i].denom == d
    decreases |ts|
  {
    if ts[|ts| - 1].denom != d {
      TupleDenoms(ts[..|ts| - 1], voter, power, d);
      var i :| 0 <= i < |ts| - 1 && ts[..|ts| - 1][i].denom == d;
      assert ts[i].denom == d;
    }
  }

  lemma {:induction false} BallotDenoms(keys: seq<Addr>, votes: Votes, claims: Claims, d: string)
    requires (forall k | k in keys :: k in votes) && BallotFor(keys, votes, claims, d) != []
    ensures d in DenomsIn(votes)
    decreases |keys|
  {
    var k := keys[|keys| - 1];
    if VotesBy(k, votes, claims, d) != [] {
      TupleDenoms(votes[k].tuples, k, claims[votes[k].voter].power, d);
      var i :| 0 <= i < |votes[k].tuples| && votes[k].tuples[i].denom == d;
    } else {
      BallotDenoms(keys[..|keys| - 1], votes, claims, d);
    }
  }

  // ----- the ballots that pass, and those below the threshold

  /** A ballot as tallied, in any sorted arrangement, gives the median and the claims of the specification's. */
  lemma TallyAgrees(claims: Claims, a: ExchangeRateBallot, b: ExchangeRateBallot, rewardBand: Dec, root: Dec -> Dec)
    requires SameVotes(a, b)
    ensures Median(a) == Median(b)
    ensures TallyVotes(claims, a, BandOf(a, rewardBand, root)) == TallyVotes(claims, b, BandOf(b, rewardBand, root))
  {
    BandOfRearranged(a, b, rewardBand, root);
    TallyOfRearranged(claims, a, b, BandOf(a, rewardBand, root));
  }

  lemma ReferenceRatesAgree(actual: VoteMap, spec: VoteMap, ref: string)
    requires Rearranged(actual, spec) && ref in actual && SortedByRate(actual[ref])
    ensures ToMap(actual[ref]) == ToMap(SortOf(spec[ref]))
  {
    ToMapOfRearranged(actual[ref], SortOf(spec[ref]));
  }

  /** One ballot of the period, the reference's own or seen through its rates and sorted again. */
  method TallyDenom(claims: Claims, voteMap: VoteMap, ghost spec: VoteMap, ref: string, denom: string,
          votingMapRD: map<Addr, Dec>, rewardBand: Dec, env: Env)
    returns (exchangeRate: Dec, claims': Claims)
    requires Rearranged(voteMap, spec) && (forall d | d in voteMap :: SortedByRate(voteMap[d])) && ref in voteMap
        && denom in voteMap
    requires votingMapRD == ToMap(SortOf(spec[ref]))
    ensures var seen := Seen(spec, ref, denom, env.overflows);
            exchangeRate == Median(seen) && claims' == TallyVotes(claims, seen, BandOf(seen, rewardBand, env.root))
  {
    hide SortedByRate, Cross, ToMap, TallyVotes, BandOf;
    var votingTally := voteMap[denom];
    if denom != ref {
      MapRearranged(Cross(votingMapRD, env.overflows), votingTally, spec[denom]);
      votingTally := ToCrossRate(votingTally, votingMapRD, env.overflows);
      votingTally := Sort(votingTally);
    }
    TallyAgrees(claims, votingTally, Seen(spec, ref, denom, env.overflows), rewardBand, env.root);
    exchangeRate, claims' := Tally(votingTally, rewardBand, env.root, claims);
  }

  lemma NothingTallied(claims: Claims, rates: map<string, Rate>, spec: VoteMap, ref: string, rewardBand: Dec, env: Env)
    requires ref in spec
    ensures TallyPassing(claims, [], spec, ref, rewardBand, env) == claims
        && RatesAfter(rates, [], spec, ref, env) == rates
  {
  }

  /** What one more denom adds to the claims and to the rates. */
  lemma PassingStep(claims: Claims, rates: map<string, Rate>, ds: seq<string>, i: nat, spec: VoteMap, ref: string,
          rewardBand: Dec, env: Env)
    requires i < |ds| && ref in spec && forall d | d in ds :: d in spec
    ensures var seen := Seen(spec, ref, ds[i], env.overflows);
            TallyPassing(claims, ds[..i + 1], spec, ref, rewardBand, env)
            == TallyVotes(TallyPassing(claims, ds[..i], spec, ref, rewardBand, env), seen,
                BandOf(seen, rewardBand, env.root))
    ensures var median, before :=
        Median(Seen(spec, ref, ds[i], env.overflows)), RatesAfter(rates, ds[..i], spec, ref, env);
            RatesAfter(rates, ds[..i + 1], spec, ref, env) ==
              if median == 0 then before
              else before[ds[i] :=
                  Rate(if ds[i] == ref then median else Quo(Median(spec[ref]), median), env.height, env.timestamp)]
  {
    hide Seen, TallyVotes, BandOf, Quo;
    assert ds[..i + 1][..i] == ds[..i];
  }

  /** The loop over the passing denoms in ascending order: claims tallied, rates recorded. */
  method TallyPassingBallots(claims: Claims, voteMap: VoteMap, ghost spec: VoteMap, ref: string,
          rates: map<string, Rate>, rewardBand: Dec, env: Env)
    returns (claims': Claims, rates': map<string, Rate>)
    requires Rearranged(voteMap, spec) && (forall d | d in voteMap :: SortedByRate(voteMap[d])) && ref in voteMap
    ensures claims' == TallyPassing(claims, SortedSeq(spec.Keys), spec, ref, rewardBand, env)
    ensures rates' == RatesAfter(rates, SortedSeq(spec.Keys), spec, ref, env)
  {
    hide SortedByRate, ToMap, TallyVotes, BandOf, Quo, Seen, RatesAfter, TallyPassing, IsMedian, Rearranged;
    SameBallots(voteMap, spec, ref);
    NothingTallied(claims, rates, spec, ref, rewardBand, env);
    claims', rates' := claims, rates;
    var ballotRD := voteMap[ref];
    var votingMapRD := CollectRates(ballotRD);
    ReferenceRatesAgree(voteMap, spec, ref);
    var exchangeRateRD := WeightedMedian(ballotRD);
    MedianAgrees(ballotRD, spec[ref], exchangeRateRD);
    var denoms := CollectAndSort(voteMap.Keys);
    for i := 0 to |denoms|
      invariant claims' == TallyPassing(claims, denoms[..i], spec, ref, rewardBand, env)
      invariant rates' == RatesAfter(rates, denoms[..i], spec, ref, env)
    {
      var denom := denoms[i];
      PassingStep(claims, rates, denoms, i, spec, ref, rewardBand, env);
      var exchangeRate;
      exchangeRate, claims' := TallyDenom(claims', voteMap, spec, ref, denom, votingMapRD, rewardBand, env);
      if exchangeRate == 0 {
        continue;
      }
      if denom != ref {
        exchangeRate := Quo(exchangeRateRD, exchangeRate);
      }
      rates' := rates'[denom := Rate(exchangeRate, env.height, env.timestamp)];
    }
    assert denoms[..|denoms|] == denoms;
  }

  lemma SameBallots(a: VoteMap, b: VoteMap, d: string)
    requires Rearranged(a, b) && d in a
    ensures a.Keys == b.Keys && SameVotes(a[d], b[d])
  {
  }

  lemma MedianAgrees(a: ExchangeRateBallot, b: ExchangeRateBallot, r: Dec)
    requires SameVotes(a, b) && (a == [] ==> r == 0) && (a != [] ==> IsMedian(a, r))
    ensures r == Median(b)
  {
    SameLength(a, b);
    if a != [] {
      MedianOfRearranged(a, b, r);
      SameMedian(b, r);
    }
  }

  lemma NoneBelow(claims: Claims, spec: VoteMap, rewardBand: Dec, env: Env)
    ensures TallyBelow(claims, [], spec, rewardBand, env) == claims
  {
  }

  lemma BelowStep(claims: Claims, ds: seq<string>, i: nat, spec: VoteMap, rewardBand: Dec, env: Env)
    requires i < |ds| && forall d | d in ds :: d in spec
    ensures TallyBelow(claims, ds[..i + 1], spec, rewardBand, env)
            == TallyVotes(TallyBelow(claims, ds[..i], spec, rewardBand, env), spec[ds[i]],
                BandOf(spec[ds[i]], rewardBand, env.root))
  {
    hide TallyVotes, BandOf;
    assert ds[..i + 1][..i] == ds[..i];
  }

  method TallyBelowBallots(claims: Claims, voteMap: VoteMap, ghost spec: VoteMap, rewardBand: Dec, env: Env)
    returns (claims': Claims)
    requires Rearranged(voteMap, spec) && forall d | d in voteMap :: SortedByRate(voteMap[d])
    ensures claims' == TallyBelow(claims, SortedSeq(spec.Keys), spec, rewardBand, env)
  {
    hide SortedByRate, TallyVotes, BandOf, TallyBelow;
    claims' := claims;
    var denoms := CollectAndSort(voteMap.Keys);
    NoneBelow(claims, spec, rewardBand, env);
    for i := 0 to |denoms|
      invariant claims' == TallyBelow(claims, denoms[..i], spec, rewardBand, env)
    {
      BelowStep(claims, denoms, i, spec, rewardBand, env);
      var ballot := voteMap[denoms[i]];
      TallyAgrees(claims', ballot, spec[denoms[i]], rewardBand, env.root);
      var _, after := Tally(ballot, rewardBand, env.root, claims');
      claims' := after;
    }
    assert denoms[..|denoms|] == denoms;
  }

  // ----- voters are claimants, so tallying keeps the claims' keys and recipients

  ghost predicate KeyedClaims(claims: Claims) { forall w | w in claims :: claims[w].recipient == w }

  lemma {:induction false} ClaimsAreKeyed(vals: seq<Validator>)
    ensures KeyedClaims(ClaimsOf(vals))
    decreases |vals|
  {
    if vals != [] {
      ClaimsAreKeyed(vals[..|vals| - 1]);
    }
  }

  ghost predicate VotersIn(b: ExchangeRateBallot, claims: Claims) { forall v | v in b :: v.voter in claims }

  lemma TallyKeepsKeyed(claims: Claims, ex: ExchangeRateBallot, band: Band)
    requires KeyedClaims(claims) && VotersIn(ex, claims)
    ensures TallyVotes(claims, ex, band).Keys == claims.Keys && KeyedClaims(TallyVotes(claims, ex, band))
  {
    var after := TallyVotes(claims, ex, band);
    TallyConservesWeight(claims, ex, band);
    forall w | w in claims
      ensures after[w].recipient == w
    {
      TallyPointwise(claims, ex, band, w);
      assert after[w] == ClaimOf(after, w);
    }
  }

  lemma {:induction false} BallotVoters(keys: seq<Addr>, votes: Votes, claims: Claims, d: string)
    requires WellKeyed(votes) && forall k | k in keys :: k in votes
    ensures VotersIn(BallotFor(keys, votes, claims, d), claims)
    decreases |keys|
  {
    if keys != [] {
      var k := keys[|keys| - 1];
      BallotVoters(keys[..|keys| - 1], votes, claims, d);
      if k in claims {
        TupleVoters(votes[k].tuples, k, claims[k].power, d);
      }
    }
  }

  lemma SeenVoters(voteMap: VoteMap, ref: string, d: string, overflows: Dec -> bool, claims: Claims)
    requires ref in voteMap && d in voteMap && VotersIn(voteMap[d], claims)
    ensures VotersIn(Seen(voteMap, ref, d, overflows), claims)
  {
    hide ToMap, SortOf;
    var b := Seen(voteMap, ref, d, overflows);
    forall v | v in b
      ensures v.voter in claims
    {
      var i :| 0 <= i < |b| && b[i] == v;
      assert voteMap[d][i] in voteMap[d];
    }
  }

  lemma {:induction false} PassingKeepsKeyed(claims: Claims, ds: seq<string>, voteMap: VoteMap, ref: string,
          rewardBand: Dec, env: Env)
    requires ref in voteMap && (forall d | d in ds :: d in voteMap)
    requires KeyedClaims(claims) && forall d | d in voteMap :: VotersIn(voteMap[d], claims)
    ensures var after := TallyPassing(claims, ds, voteMap, ref, rewardBand, env);
            after.Keys == claims.Keys && KeyedClaims(after)
    decreases |ds|
  {
    hide Seen, BandOf, TallyVotes, KeyedClaims;
    if ds != [] {
      var d := ds[|ds| - 1];
      PassingKeepsKeyed(claims, ds[..|ds| - 1], voteMap, ref, rewardBand, env);
      SeenVoters(voteMap, ref, d, env.overflows, claims);
      var ballot := Seen(voteMap, ref, d, env.overflows);
      TallyKeepsKeyed(TallyPassing(claims, ds[..|ds| - 1], voteMap, ref, rewardBand, env), ballot,
          BandOf(ballot, rewardBand, env.root));
    }
  }

  lemma {:induction false} BelowKeepsKeyed(claims: Claims, ds: seq<string>, voteMap: VoteMap, rewardBand: Dec, env: Env)
    requires forall d | d in ds :: d in voteMap
    requires KeyedClaims(claims) && forall d | d in voteMap :: VotersIn(voteMap[d], claims)
    ensures var after := TallyBelow(claims, ds, voteMap, rewardBand, env);
            after.Keys == claims.Keys && KeyedClaims(after)
    decreases |ds|
  {
    hide BandOf, TallyVotes, KeyedClaims;
    if ds != [] {
      var ballot := voteMap[ds[|ds| - 1]];
      BelowKeepsKeyed(claims, ds[..|ds| - 1], voteMap, rewardBand, env);
      TallyKeepsKeyed(TallyBelow(claims, ds[..|ds| - 1], voteMap, rewardBand, env), ballot,
          BandOf(ballot, rewardBand, env.root));
    }
  }

  lemma GroupedVoters(s: Store, p: Params, env: Env)
    requires WellKeyed(s.votes)
    ensures forall d | d in PassingOf(s, p, env) :: VotersIn(PassingOf(s, p, env)[d], ClaimsOf(env.powerStore))
    ensures forall d | d in BelowOf(s, p, env) :: VotersIn(BelowOf(s, p, env)[d], ClaimsOf(env.powerStore))
  {
    hide VotersIn, ClaimsOf, BallotFor;
    var claims := ClaimsOf(env.powerStore);
    forall d | d in Grouped(s.votes, claims)
      ensures VotersIn(Grouped(s.votes, claims)[d], claims)
    {
      BallotVoters(SortedSeq(s.votes.Keys), s.votes, claims, d);
    }
  }

  /** At the end of the period the claims are still exactly the bonded validators', each paying its own. */
  lemma FinalClaimsAreKeyed(s: Store, p: Params, env: Env)
    requires WellKeyed(s.votes)
    ensures FinalClaims(s, p, env).Keys == ClaimsOf(env.powerStore).Keys && KeyedClaims(FinalClaims(s, p, env))
  {
    hide KeyedClaims, VotersIn, ClaimsOf, TallyPassing, TallyBelow, PassingOf, BelowOf;
    var claims := ClaimsOf(env.powerStore);
    ClaimsAreKeyed(env.powerStore);
    GroupedVoters(s, p, env);
    var passing, below, ref := PassingOf(s, p, env), BelowOf(s, p, env), RefOf(s, p, env);
    var tallied := claims;
    if ref != "" {
      PassingKeepsKeyed(claims, SortedSeq(passing.Keys), passing, ref, p.rewardBand, env);
      tallied := TallyPassing(claims, SortedSeq(passing.Keys), passing, ref, p.rewardBand, env);
      forall d | d in below ensures VotersIn(below[d], tallied) {
        SameVotersIn(below[d], claims, tallied);
      }
    }
    BelowKeepsKeyed(tallied, SortedSeq(below.Keys), below, p.rewardBand, env);
  }

  lemma SameVotersIn(b: ExchangeRateBallot, x: Claims, y: Claims)
    requires VotersIn(b, x) && x.Keys == y.Keys
    ensures VotersIn(b, y)
  {
  }

  lemma NoClaims(counters: Counters, nTargets: nat)
    ensures CountersAfter(counters, map[], nTargets) == counters
  {
  }

  lemma CountersStep(counters: Counters, claims: Claims, todo: set<Addr>, w: Addr, nTargets: nat)
    requires w in todo && w in claims
    ensures var before := CountersAfter(counters, claims - todo, nTargets);
            CountersAfter(counters, claims - (todo - {w}), nTargets)
                == before[w := Bump(CounterOf(before, w), VerdictOn(claims[w], nTargets))]
  {
    hide Bump, VerdictOn;
    var after := CountersAfter(counters, claims - (todo - {w}), nTargets);
    assert after.Keys == CountersAfter(counters, claims - todo, nTargets).Keys + {w};
  }

  // ----- the slash walk

  /** A visit adds its calls behind whatever was recorded before. */
  lemma VisitFrom(start: seq<SlashCall>, w: Walk, k: Addr, c: Counter, p: Params, staking: Staking, height: nat)
    requires w.outcome == Done
    ensures var here, from :=
        Visit(w, k, c, p, staking, height), Visit(Walk(Done, start + w.calls, w.counters), k, c, p, staking, height);
            from == Walk(here.outcome, start + here.calls, here.counters)
    ensures TotalVotes(c) == 0 ==> Visit(w, k, c, p, staking, height) == w
  {
    hide Offends;
    var v := if k in staking.validators then staking.validators[k] else Validator(k, false, false, 0);
    assert start + (w.calls + [CallFor(k, v, p, height)]) == (start + w.calls) + [CallFor(k, v, p, height)];
  }

  function Deleted(m: map<string, Rate>, ks: seq<string>): map<string, Rate> {
    if ks == [] then m else Deleted(m, ks[..|ks| - 1]) - {ks[|ks| - 1]}
  }

  lemma DeletedStep(m: map<string, Rate>, ks: seq<string>, i: nat)
    requires i < |ks|
    ensures Deleted(m, ks[..i + 1]) == Deleted(m, ks[..i]) - {ks[i]}
  {
    assert ks[..i + 1][..i] == ks[..i];
  }

  lemma {:induction false} DeletedIs(m: map<string, Rate>, ks: seq<string>)
    ensures Deleted(m, ks) == map k | k in m && k !in ks :: m[k]
    decreases |ks|
  {
    if ks != [] {
      DeletedIs(m, ks[..|ks| - 1]);
      assert ks == ks[..|ks| - 1] + [ks[|ks| - 1]];
    }
  }

  lemma NothingWalked(counters: Counters, p: Params, staking: Staking, height: nat)
    ensures WalkOver([], counters, p, staking, height) == Walk(Done, [], counters)
  {
  }

  // ----- the keeper

  class Keeper {
    var params: Params
    var exchangeRate: map<string, Rate>
    var votePenaltyCounter: Counters
    var aggregateExchangeRateVote: Votes
    var voteTarget: map<string, Denom>
    var slashes: seq<SlashCall>  // the calls made to the staking module

    constructor (params: Params)
      ensures this.params == params && State() == Store(map[], map[], map[], map[]) && slashes == []
    {
      this.params, exchangeRate, votePenaltyCounter, aggregateExchangeRateVote, voteTarget :=
          params, map[], map[], map[], map[];
      slashes := [];
    }

    function State(): Store
      reads this
    {
      Store(exchangeRate, votePenaltyCounter, aggregateExchangeRateVote, voteTarget)
    }

    /** The callback of the walk for one operator. */
    method VisitCounter(operator: Addr, counter: Counter, staking: Staking, height: nat) returns (outcome: Outcome)
      requires TotalVotes(counter) > 0
      modifies this`votePenaltyCounter, this`slashes
      ensures Walk(outcome, slashes, votePenaltyCounter)
              == Visit(Walk(Done, old(slashes), old(votePenaltyCounter)), operator, counter, params, staking, height)
    {
      hide QuoInt64;
      var totalVotes := counter.success + counter.abstain + counter.miss;
      var validVoteRate := QuoInt64(counter.success * ONE, totalVotes);
      if validVoteRate < params.minValidPerWindow {
        if operator !in staking.validators {
          return Panicked;
        }
        var validator := staking.validators[operator];
        if validator.bonded && !validator.jailed {
          if operator in staking.refusing {
            return Refused;
          }
          slashes := slashes + [SlashCall(operator, height - VALIDATOR_UPDATE_DELAY - 1, validator.power,
              params.slashFraction)];
        }
      }
      votePenaltyCounter := votePenaltyCounter - {operator};
      return Done;
    }

    /** Walks the counters in key order, slashing offenders and removing entries on the way. */
    method SlashAndResetCounters(staking: Staking, height: nat) returns (outcome: Outcome)
      modifies this`votePenaltyCounter, this`slashes
      ensures var w := SlashAndReset(old(votePenaltyCounter), params, staking, height);
              outcome == w.outcome && slashes == old(slashes) + w.calls && votePenaltyCounter == w.counters
    {
      hide WalkOver, Visit;
      ghost var counters, start := votePenaltyCounter, slashes;
      var stored := votePenaltyCounter;
      var walk := CollectAndSort(stored.Keys);
      NothingWalked(counters, params, staking, height);
      ghost var w := Walk(Done, [], counters);
      for i := 0 to |walk|
        invariant w == WalkOver(walk[..i], counters, params, staking, height) && w.outcome == Done
        invariant slashes == start + w.calls && votePenaltyCounter == w.counters
      {
        var operator := walk[i];
        WalkStep(walk, i, counters, params, staking, height);
        BrokenWalk(walk, i + 1, counters, params, staking, height);
        VisitFrom(start, w, operator, stored[operator], params, staking, height);
        w := Visit(w, operator, stored[operator], params, staking, height);
        if TotalVotes(stored[operator]) == 0 {
          continue;
        }
        outcome := VisitCounter(operator, stored[operator], staking, height);
        if outcome != Done {
          return;
        }
      }
      assert walk[..|walk|] == walk;
      return Done;
    }

    /** Deletes the rates of denoms that are no longer targets. */
    method RemoveExcessFeeds()
      modifies this`exchangeRate
      ensures State() == WithoutExcessFeeds(old(State()))
    {
      hide Deleted;
      ghost var start := exchangeRate;
      var activesToClear := CollectAndSort(exchangeRate.Keys - voteTarget.Keys);
      DeletedIs(start, []);
      for i := 0 to |activesToClear|
        invariant exchangeRate == Deleted(start, activesToClear[..i])
      {
        DeletedStep(start, activesToClear, i);
        exchangeRate := exchangeRate - {activesToClear[i]};
      }
      assert activesToClear[..|activesToClear|] == activesToClear;
      DeletedIs(start, activesToClear);
      assert exchangeRate == WithoutExcessFeeds(old(State())).rates;
    }

    method BeginBlocker(staking: Staking, height: nat) returns (outcome: Outcome)
      requires params.slashWindow > 0
      modifies this`votePenaltyCounter, this`slashes, this`exchangeRate
      ensures var (o, calls, s) := BeginBlock(old(State()), params, staking, height);
              outcome == o && slashes == old(slashes) + calls && State() == s
    {
      if IsPeriodLastBlock(height, params.slashWindow) {
        outcome := SlashAndResetCounters(staking, height);
        if outcome != Done {
          return;
        }
        RemoveExcessFeeds();
        return Done;
      }
      return Done;
    }

    method IncrementCount(operator: Addr, v: Verdict)
      modifies this`votePenaltyCounter
      ensures votePenaltyCounter
          == old(votePenaltyCounter)[operator := Bump(CounterOf(old(votePenaltyCounter), operator), v)]
    {
      var current := CounterOf(votePenaltyCounter, operator);
      match v {
        case Success => current := current.(success := current.success + 1);
        case Abstain => current := current.(abstain := current.abstain + 1);
        case Miss => current := current.(miss := current.miss + 1);
      }
      votePenaltyCounter := votePenaltyCounter[operator := current];
    }

    /** The claims in whatever order the map yields them, one increment each. */
    method ValidateMissVoting(claims: Claims, nTargets: nat)
      requires KeyedClaims(claims)
      modifies this`votePenaltyCounter
      ensures votePenaltyCounter == CountersAfter(old(votePenaltyCounter), claims, nTargets)
    {
      hide CountersAfter;
      NoClaims(votePenaltyCounter, nTargets);
      var todo := claims.Keys;
      assert claims - todo == map[];
      while todo != {}
        invariant todo <= claims.Keys
        invariant votePenaltyCounter == CountersAfter(old(votePenaltyCounter), claims - todo, nTargets)
        decreases todo
      {
        var w :| w in todo;
        CountersStep(old(votePenaltyCounter), claims, todo, w, nTargets);
        todo := todo - {w};
        var claim := claims[w];
        if claim.winCount == nTargets {
          IncrementCount(claim.recipient, Success);
          continue;
        }
        if !claim.didVote {
          IncrementCount(claim.recipient, Abstain);
          continue;
        }
        IncrementCount(claim.recipient, Miss);
      }
      assert claims - {} == claims;
    }

    method ApplyWhitelist(whitelist: seq<Denom>, voteTargets: map<string, Denom>)
      modifies this`voteTarget
      ensures voteTarget == TargetsAfter(old(voteTarget), whitelist, voteTargets)
    {
      var updateRequire := false;
      if |voteTargets| != |whitelist| {
        updateRequire := true;
      }
      for i := 0 to |whitelist|
        invariant updateRequire <==>
                    |voteTargets| != |whitelist| || exists k | 0 <= k < i :: whitelist[k].name !in voteTargets
      {
        if whitelist[i].name !in voteTargets {
          updateRequire := true;
          break;
        }
      }
      if updateRequire {
        voteTarget := map[];
        for i := 0 to |whitelist|
          invariant voteTarget == TargetsOf(whitelist[..i])
        {
          assert whitelist[..i + 1][..i] == whitelist[..i];
          voteTarget := voteTarget[whitelist[i].name := whitelist[i]];
        }
        assert whitelist[..|whitelist|] == whitelist;
      }
    }

    /** The message server's handler: on success exactly the validator's own vote is replaced. */
    method AggregateExchangeRateVote(msg: VoteMsg) returns (err: Option<VoteError>)
      modifies this`aggregateExchangeRateVote
      ensures match Cast(voteTarget, old(aggregateExchangeRateVote), msg)
              case Ok(votes) => err.None? && aggregateExchangeRateVote == votes
              case Err(e) => err == Some(e) && aggregateExchangeRateVote == old(aggregateExchangeRateVote)
    {
      if !msg.mayFeed {
        return Some(NoPermission);
      }
      var exchangeRates := ParseExchangeRateTuples(msg.coins);
      if exchangeRates.Err? {
        return Some(exchangeRates.error);
      }
      var tuples := exchangeRates.value;
      for i := 0 to |tuples|
        invariant forall j | 0 <= j < i :: tuples[j].denom in voteTarget
      {
        if tuples[i].denom !in voteTarget {
          assert tuples[i] in tuples;
          return Some(UnknownDenom);
        }
      }
      for i := 0 to |tuples|
        invariant forall j | 0 <= j < i :: tuples[j].rate > 0
      {
        if !(tuples[i].rate > 0) {
          assert tuples[i] in tuples;
          return Some(InvalidRate);
        }
      }
      aggregateExchangeRateVote := aggregateExchangeRateVote[msg.validator := AggregateVote(msg.validator, tuples)];
      return None;
    }

    /** For every state with votes stored under their voters, every order of the maps ranged over and
        every arrangement of tied rates end in the same state. */
    method EndBlocker(env: Env)
      requires params.votePeriod > 0 && WellKeyed(aggregateExchangeRateVote)
      modifies this`exchangeRate, this`votePenaltyCounter, this`aggregateExchangeRateVote, this`voteTarget
      ensures State() == EndBlock(old(State()), params, env)
    {
      hide Rearranged, IsReference, SortedByRate, TallyPassing, TallyBelow, RatesAfter, Grouped, Passing,
           BelowThreshold, CountersAfter, TargetsAfter, KeyedClaims, ClaimsOf, ThresholdVotes;
      if IsPeriodLastBlock(env.height, params.votePeriod) {
        ghost var s := State();
        var claims := CollectClaims(env.powerStore);
        var ballots := OrganizeBallotByDenom(aggregateExchangeRateVote, claims);
        var thresholdVotes := ThresholdVotes(params.voteThreshold, env.totalBondedPower);
        var ref, below, voteTargets, voteMap := PickReferenceDenom(voteTarget, ballots, thresholdVotes);
        ghost var passingSpec, belowSpec := PassingOf(s, params, env), BelowOf(s, params, env);
        PickAgrees(s, params, env, ballots, ref);
        var rates := exchangeRate;
        if ref != "" {
          claims, rates := TallyPassingBallots(claims, voteMap, passingSpec, ref, rates, params.rewardBand, env);
          exchangeRate := rates;
        }
        claims := TallyBelowBallots(claims, below, belowSpec, params.rewardBand, env);
        FinalClaimsAreKeyed(s, params, env);
        ValidateMissVoting(claims, |voteTargets|);
        aggregateExchangeRateVote := map[];
        ApplyWhitelist(params.whitelist, voteTargets);
      }
    }
  }

  /** The picked ballots are arrangements of the specification's, with the same keys and the same reference. */
  lemma PickAgrees(s: Store, p: Params, env: Env, ballots: VoteMap, ref: string)
    requires Rearranged(ballots, Grouped(s.votes, ClaimsOf(env.powerStore)))
    requires forall d | d in ballots :: SortedByRate(ballots[d])
    requires var t := ThresholdVotes(p.voteThreshold, env.totalBondedPower);
             IsReference(ref, Passing(ballots, s.targets.Keys, t))
    ensures var t := ThresholdVotes(p.voteThreshold, env.totalBondedPower);
            var passing, below := Passing(ballots, s.targets.Keys, t), BelowThreshold(ballots, s.targets.Keys, t);
            && Rearranged(passing, PassingOf(s, p, env)) && Rearranged(below, BelowOf(s, p, env))
            && below.Keys == BelowOf(s, p, env).Keys
            && ref == RefOf(s, p, env)
            && (ref != "" ==> ref in passing)
            && (forall d | d in passing :: SortedByRate(passing[d]))
            && (forall d | d in below :: SortedByRate(below[d]))
  {
    hide Power, SortedByRate, Passes, ThresholdVotes;
    var t := ThresholdVotes(p.voteThreshold, env.totalBondedPower);
    var grouped := Grouped(s.votes, ClaimsOf(env.powerStore));
    PickOfRearranged(ballots, grouped, s.targets.Keys, t);
    ReferenceOfRearranged(Passing(ballots, s.targets.Keys, t), PassingOf(s, p, env), ref);
    ReferenceUnique(ref, RefOf(s, p, env), PassingOf(s, p, env));
  }
}
