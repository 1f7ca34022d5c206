/** A period that ordinary messages produce and in which success and the target refresh part from what
    they are taken to mean: two validators vote for `a`, only the smaller one also for `x`. */
module OracleExamples {
  import opened Wrappers
  import opened Decimal
  import opened Ordering
  import opened OracleBallot
  import opened OracleTally
  import opened OracleState
  import opened OracleSlash
  import opened OracleGrouping
  import opened OracleKeeper
  import opened OracleVotes
  import opened OracleVerdict
  import opened OracleWhitelist
  import opened OracleRuns

  const A: Tuple := Tuple("a", ONE)
  const X: Tuple := Tuple("x", ONE)
  const MESSAGES: seq<VoteMsg> := [VoteMsg("big", true, [Some(A)]), VoteMsg("small", true, [Some(A), Some(X)])]
  const VOTES: Votes := map["big" := AggregateVote("big", [A]), "small" := AggregateVote("small", [A, X])]
  const TARGETS: map<string, Denom> := map["a" := Denom("a"), "x" := Denom("x")]

  /** The store holds the example's votes and targets. */
  predicate Holds(s: Store) { s.votes == VOTES && s.targets == TARGETS }

  /** Powers two and one, all of the bonded power; a ballot passes from half of it at the least. */
  predicate Setting(p: Params, env: Env) {
    && env.powerStore == [Validator("big", true, false, 2), Validator("small", true, false, 1)]
    && env.totalBondedPower == 3 && HALF <= p.voteThreshold <= ONE && p.rewardBand >= 0
  }

  // ----- how the state comes about

  lemma MessagesAccepted()
    ensures Deliver(TARGETS, map[], MESSAGES) == VOTES
  {
    var first := MESSAGES[..1];
    assert first == [MESSAGES[0]] && first[..0] == [];
    assert Parsed(MESSAGES[0].coins) == [A] && Parsed(MESSAGES[1].coins) == [A, X];
    assert Deliver(TARGETS, map[], first) == map["big" := AggregateVote("big", [A])];
  }

  /** From an empty genesis, one close under the whitelist `[a, x]` and the two messages in a later block
      lead there; no reset falls into the blocks. */
  lemma ExampleIsReachable(b0: Block, b1: Block)
    requires ValidBlock(b0) && ValidBlock(b1) && !Resets(b0) && !Resets(b1) && ClosesPeriod(b0)
    requires b0.atEnd.whitelist == [Denom("a"), Denom("x")] && b0.messages == [] && b1.messages == MESSAGES
    ensures var genesis := Store(map[], map[], map[], map[]);
            && ValidBlocks([b0]) && Run(genesis, [b0]).Some?
            && Begun(Run(genesis, [b0]).value, b1).Some?
            && Holds(WithVotes(Begun(Run(genesis, [b0]).value, b1).value, b1))
  {
    hide CountersAfter, RatesAfter, FinalClaims, PassingOf, RefOf, BelowOf, IsPeriodLastBlock, SlashAndReset, Deliver;
    var genesis := Store(map[], map[], map[], map[]);
    assert [b0][..0] == [];
    MessagesAccepted();
    NoMessages(genesis);
    FirstTargets(genesis, b0.atEnd, b0.env);
  }

  lemma NoMessages(s: Store)
    ensures Deliver(s.targets, s.votes, []) == s.votes
  {
  }

  lemma FirstTargets(s: Store, p: Params, env: Env)
    requires s.targets == map[] && p.whitelist == [Denom("a"), Denom("x")]
    ensures Close(s, p, env).targets == TARGETS && Close(s, p, env).votes == map[]
  {
    hide CountersAfter, RatesAfter, FinalClaims, PassingOf, RefOf, BelowOf;
    var first := p.whitelist[..1];
    assert first == [Denom("a")] && first[..0] == [];
    assert TargetsOf(first) == map["a" := Denom("a")];
    assert |ReducedTargets(s, p, env)| == 0 by { assert ReducedTargets(s, p, env) == map[]; }
  }

  // ----- its ballots

  lemma ExampleClaims(vals: seq<Validator>)
    requires vals == [Validator("big", true, false, 2), Validator("small", true, false, 1)]
    ensures ClaimsOf(vals) == map["big" := NewClaim(2, "big"), "small" := NewClaim(1, "small")]
  {
    var first := vals[..1];
    assert first == [vals[0]] && first[..0] == [];
    assert ClaimsOf(first) == map["big" := NewClaim(2, "big")];
  }

  lemma ExampleTuples(voter: Addr, power: nat, d: string)
    ensures TupleVotes([A], voter, power, d) == if d == "a" then [Vote("a", ONE, voter, power)] else []
    ensures TupleVotes([A, X], voter, power, d)
            == if d == "a" then [Vote("a", ONE, voter, power)]
               else if d == "x" then [Vote("x", ONE, voter, power)]
               else []
  {
    assert [A, X][..1] == [A] && [A][..0] == [];
  }

  function BallotA(): ExchangeRateBallot { [Vote("a", ONE, "big", 2), Vote("a", ONE, "small", 1)] }

  function BallotX(): ExchangeRateBallot { [Vote("x", ONE, "small", 1)] }

  lemma ExampleWalk(claims: Claims, d: string)
    requires claims == map["big" := NewClaim(2, "big"), "small" := NewClaim(1, "small")]
    ensures BallotFor(["big", "small"], VOTES, claims, d)
            == if d == "a" then BallotA() else if d == "x" then BallotX() else []
  {
    hide TupleVotes;
    ExampleTuples("big", 2, d);
    ExampleTuples("small", 1, d);
    assert ["big", "small"][..1] == ["big"] && ["big"][..0] == [];
    assert BallotFor(["big"], VOTES, claims, d) == VotesBy("big", VOTES, claims, d);
  }

  lemma ExampleOrder()
    ensures SortedSeq(VOTES.Keys) == ["big", "small"]
  {
    assert Less("big", "small");
    AscendingUnique(SortedSeq(VOTES.Keys), ["big", "small"]);
  }

  lemma ExampleBallots(env: Env)
    requires env.powerStore == [Validator("big", true, false, 2), Validator("small", true, false, 1)]
    ensures Grouped(VOTES, ClaimsOf(env.powerStore)) == map["a" := BallotA(), "x" := BallotX()]
  {
    hide BallotFor, ClaimsOf, Grouped;
    var claims, m := ClaimsOf(env.powerStore), map["a" := BallotA(), "x" := BallotX()];
    ExampleClaims(env.powerStore);
    ExampleOrder();
    forall d
      ensures BallotIn(m, d) == BallotFor(["big", "small"], VOTES, claims, d)
      ensures d in m <==> BallotFor(["big", "small"], VOTES, claims, d) != []
    {
      ExampleWalk(claims, d);
    }
    assert Collected(m, SortedSeq(VOTES.Keys), VOTES, claims);
    CollectedIsGrouped(m, VOTES, claims);
  }

  lemma ThresholdRange(voteThreshold: Dec)
    requires HALF <= voteThreshold <= ONE
    ensures 2 <= ThresholdVotes(voteThreshold, 3) <= 3
  {
  }

  lemma ExamplePowers()
    ensures Power(BallotA()) == 3 && Power(BallotX()) == 1
  {
    assert BallotA()[..1] == [BallotA()[0]];
    SumOne(VotePower, BallotA()[0]);
    SumOne(VotePower, BallotX()[0]);
  }

  /** The ballot of `a` passes, that of `x` fails, and `a` is the reference. */
  lemma ExampleSplit(s: Store, p: Params, env: Env)
    requires Holds(s) && Setting(p, env)
    ensures PassingOf(s, p, env) == map["a" := BallotA()] && BelowOf(s, p, env) == map["x" := BallotX()]
    ensures RefOf(s, p, env) == "a"
  {
    hide RefOf, PassingOf, BelowOf;
    ExampleBoth(s, p, env);
    ReferencePasses(s, p, env);
    assert "a" in PassingOf(s, p, env) && "" !in s.targets;
  }

  lemma ExampleBoth(s: Store, p: Params, env: Env)
    requires Holds(s) && Setting(p, env)
    ensures PassingOf(s, p, env) == map["a" := BallotA()] && BelowOf(s, p, env) == map["x" := BallotX()]
  {
    hide Grouped, ClaimsOf, ThresholdVotes, Power, BallotA, BallotX;
    ExampleBallots(env);
    ThresholdRange(p.voteThreshold);
    ExamplePowers();
  }

  // ----- its wins

  /** Where all agree on a rate every vote is in band. */
  lemma {:induction false} AllInBand(b: ExchangeRateBallot, w: Addr, band: Band)
    requires forall v | v in b :: InBand(v, band)
    ensures Wins(b, w, band) == Sum(CountOf(w), b)
    decreases |b|
  {
    if b != [] {
      AllInBand(b[..|b| - 1], w, band);
    }
  }

  lemma UnanimousWins(b: ExchangeRateBallot, rate: Dec, w: Addr, p: Params, env: Env)
    requires b != [] && rate >= 0 && p.rewardBand >= 0 && forall v | v in b :: v.rate == rate
    ensures BallotWins(b, w, p, env) == Sum(CountOf(w), b)
  {
    hide StandardDeviation, Mul, QuoInt64;
    assert Median(b) == rate;
    ShareNonNegative(rate, p.rewardBand);
    AllInBand(b, w, BandOf(b, p.rewardBand, env.root));
  }

  lemma ShareNonNegative(rate: Dec, rewardBand: Dec)
    requires rewardBand >= 0 && rate >= 0
    ensures Mul(rate, QuoInt64(rewardBand, 2)) >= 0
  {
  }

  lemma ExampleCounts()
    ensures Sum(CountOf("small"), BallotA()) == 1 && Sum(CountOf("small"), BallotX()) == 1
  {
    assert BallotA()[..1] == [BallotA()[0]];
    SumOne(CountOf("small"), BallotA()[0]);
    SumOne(CountOf("small"), BallotX()[0]);
  }

  lemma ExampleWins(s: Store, p: Params, env: Env)
    requires Holds(s) && Setting(p, env)
    ensures WonOn(s, p, env, "small", "a")
    ensures PassingWins(s, p, env, "small") == 1 && BelowWins(s, p, env, "small") == 1
  {
    hide PassingOf, BelowOf, RefOf, BallotWins;
    ExampleSplit(s, p, env);
    ExampleCounts();
    UnanimousWins(BallotA(), ONE, "small", p, env);
    UnanimousWins(BallotX(), ONE, "small", p, env);
    var passing, below := PassingOf(s, p, env), BelowOf(s, p, env);
    AscendingUnique(SortedSeq(passing.Keys), ["a"]);
    AscendingUnique(SortedSeq(below.Keys), ["x"]);
    assert ["a"][..0] == [] && ["x"][..0] == [];
    assert Seen(passing, "a", "a", env.overflows) == passing["a"];
    assert WinsPassing(["a"], passing, "a", "small", p, env) == BallotWins(passing["a"], "small", p, env);
    assert WinsBelow(["x"], below, "small", p, env) == BallotWins(below["x"], "small", p, env);
  }

  // ----- what it shows

  /** `a` is the one target left, on it the smaller validator is in band, and for having been in band
      on the failing ballot of `x` as well it is charged with a miss. */
  lemma InBandEverywhereYetMiss(s: Store, p: Params, env: Env)
    requires Holds(s) && Setting(p, env)
    ensures ReducedTargets(s, p, env).Keys == {"a"}
    ensures InBandEverywhere(s, p, env, "small") && VerdictFor(s, p, env, "small") == Miss
  {
    hide PassingOf, BelowOf, RefOf, FinalClaims, WonOn, PassingWins, BelowWins, VerdictFor;
    ExampleSplit(s, p, env);
    ExampleWins(s, p, env);
    var below := BelowOf(s, p, env);
    assert "x" in below && BallotX()[0] in below["x"];
    assert ReducedTargets(s, p, env).Keys == {"a"};
    assert |ReducedTargets(s, p, env)| == |{"a"}|;
    assert env.powerStore[1] in env.powerStore;
    VerdictIs(s, p, env, "small");
  }

  /** Under the whitelist `[a]` the failing ballot keeps `x` a target. */
  lemma FailingBallotKeepsStaleTarget(s: Store, p: Params, env: Env)
    requires Holds(s) && Setting(p, env) && p.whitelist == [Denom("a")]
    ensures BelowOf(s, p, env).Keys == {"x"} && Close(s, p, env).targets == s.targets && Names(p.whitelist) == {"a"}
  {
    hide PassingOf, BelowOf, RefOf, CountersAfter, RatesAfter, FinalClaims, UpdateRequired, TargetsOf;
    ExampleSplit(s, p, env);
    assert Names(p.whitelist) == {"a"} by { assert p.whitelist[..0] == []; }
    DistinctWhitelistExactness(s, p, env);
    NamesAre(p.whitelist);
  }
}
