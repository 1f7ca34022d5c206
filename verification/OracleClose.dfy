/** When a period closes, whose claims it sees, and what it leaves as targets. */
module OracleClose {
  import opened Wrappers
  import opened Decimal
  import opened Ordering
  import opened OracleBallot
  import opened OracleTally
  import opened OracleState
  import opened OracleGrouping
  import opened OracleVotes
  import opened OracleVerdict
  import opened OracleWhitelist
  import opened OracleRuns

  /** A block is its period's last exactly if the next height is a multiple of the period. */
  lemma PeriodEndsBeforeMultiples(height: nat, period: nat)
    requires period > 0
    ensures IsPeriodLastBlock(height, period) <==> exists k: nat :: height + 1 == k * period
  {
    if IsPeriodLastBlock(height, period) {
      assert height + 1 == (height + 1) / period * period;
    }
    if k: nat :| height + 1 == k * period {
      OffsetMod(k, period, 0);
    }
  }

  /** Away from the last block of a vote period the end of a block changes nothing; in it the votes are
      cleared, and every target stored is one that was stored or one of the whitelist, under its name. */
  lemma EndBlockIs(s: Store, p: Params, env: Env)
    requires p.votePeriod > 0
    ensures var after := EndBlock(s, p, env);
            if (env.height + 1) % p.votePeriod != 0 then after == s
            else
              && after == Close(s, p, env) && after.votes == map[]
              && (after.targets == s.targets || (forall n | n in after.targets :: after.targets[n] == Denom(n)))
  {
    hide PassingOf, RefOf, CountersAfter, RatesAfter, FinalClaims, ReducedTargets, TargetsOf;
    TargetsUnderTheirName(p.whitelist);
  }

  lemma {:induction false} TargetsUnderTheirName(whitelist: seq<Denom>)
    ensures forall n | n in TargetsOf(whitelist) :: TargetsOf(whitelist)[n] == Denom(n)
    decreases |whitelist|
  {
    if whitelist != [] {
      TargetsUnderTheirName(whitelist[..|whitelist| - 1]);
    }
  }

  /** A claim starts with the power its validator has in staking, as weight too, without wins or votes,
      and pays to the validator itself. An operator listed twice counts with its last entry. */
  lemma {:induction false} ClaimsStartFromStaking(vals: seq<Validator>, w: Addr) returns (i: nat)
    requires w in ClaimsOf(vals)
    ensures i < |vals| && vals[i].bonded && vals[i].operator == w
    ensures forall j | i < j < |vals| :: !(vals[j].bonded && vals[j].operator == w)
    ensures var c := ClaimsOf(vals)[w];
            c.power == vals[i].power && c.weight == vals[i].power && c.winCount == 0 && !c.didVote && c.recipient == w
    decreases |vals|
  {
    var n := |vals| - 1;
    if vals[n].bonded && vals[n].operator == w {
      i := n;
    } else {
      i := ClaimsStartFromStaking(vals[..n], w);
    }
  }

  /** The reference of a close passes, and no other passing ballot has more power, or as much and a name
      that comes first. */
  lemma ReferenceIsHighest(s: Store, p: Params, env: Env, d: string)
    requires d in PassingOf(s, p, env)
    ensures var ref, passing := RefOf(s, p, env), PassingOf(s, p, env);
            && ref in passing && Power(passing[d]) <= Power(passing[ref])
            && (Power(passing[d]) == Power(passing[ref]) && d != ref ==> Less(ref, d))
  {
    hide PassingOf, Power;
    ReferenceOutranks(RefOf(s, p, env), PassingOf(s, p, env), d);
  }

  /** Every target with a ballot either passes or fails, by its power against the threshold's share of the
      bonded power; no other denom does either. */
  lemma BallotsSplit(s: Store, p: Params, env: Env, d: string)
    ensures var grouped := Grouped(s.votes, ClaimsOf(env.powerStore));
            var power, share := Power(BallotIn(grouped, d)), p.voteThreshold * env.totalBondedPower;
            var reaches := power > 0 && (share < power * ONE + HALF || (share == power * ONE + HALF && power % 2 == 0));
            && (d in PassingOf(s, p, env) <==> d in s.targets && d in grouped && reaches)
            && (d in BelowOf(s, p, env) <==> d in s.targets && d in grouped && !reaches)
            && (d in PassingOf(s, p, env) ==> PassingOf(s, p, env)[d] == grouped[d])
            && (d in BelowOf(s, p, env) ==> BelowOf(s, p, env)[d] == grouped[d])
            && (d in ReducedTargets(s, p, env) <==> d in s.targets && !(d in grouped && !reaches))
  {
    hide Grouped, ClaimsOf, Power, Passes, ThresholdVotes;
    PassesIff(BallotIn(Grouped(s.votes, ClaimsOf(env.powerStore)), d), p.voteThreshold, env.totalBondedPower);
  }

  /** Exactly when a vote message is accepted: its feeder is permitted, all coins can be read, no two share
      a denom, each denom is a target and each rate positive. Then the validator's vote is these coins in
      order, and nobody else's changes. */
  lemma AcceptedIff(targets: map<string, Denom>, votes: Votes, msg: VoteMsg)
    ensures var r := Cast(targets, votes, msg);
            && (r.Ok? <==>
                  && msg.mayFeed
                  && (forall i | 0 <= i < |msg.coins| ::
                        && msg.coins[i].Some?
                        && msg.coins[i].value.denom in targets && msg.coins[i].value.rate > 0)
                  && (forall i, j | 0 <= i < j < |msg.coins| && msg.coins[i].Some? && msg.coins[j].Some? ::
                        msg.coins[i].value.denom != msg.coins[j].value.denom))
            && (r.Ok? ==>
                  && r.value.Keys == votes.Keys + {msg.validator}
                  && (forall k | k in votes && k != msg.validator :: r.value[k] == votes[k])
                  && var own := r.value[msg.validator];
                  && own.voter == msg.validator && |own.tuples| == |msg.coins|
                  && forall i | 0 <= i < |msg.coins| :: Some(own.tuples[i]) == msg.coins[i])
  {
    assert forall i | 0 <= i < |msg.coins| :: msg.coins[i] in msg.coins;
    if forall c | c in msg.coins :: c.Some? {
      var ts := Parsed(msg.coins);
      assert forall i | 0 <= i < |ts| :: Some(ts[i]) == msg.coins[i] && ts[i] in ts;
    }
  }

  /** Which error a refused vote reports: permission first, then coins, denoms and rates. */
  lemma VoteRefusal(targets: map<string, Denom>, votes: Votes, msg: VoteMsg)
    requires Cast(targets, votes, msg).Err?
    ensures Cast(targets, votes, msg).error
            == if !msg.mayFeed then NoPermission
               else if !Parses(msg.coins) then InvalidCoins
               else if exists t | t in Parsed(msg.coins) :: t.denom !in targets then UnknownDenom
               else InvalidRate
  {
    hide Parses;
  }
}
