/** How a vote gets into the store, and what every stored vote therefore satisfies. */
module OracleVotes {
  import opened Wrappers
  import opened Decimal
  import opened OracleBallot
  import opened OracleTally
  import opened OracleState
  import opened OracleGrouping

  /** A vote message: whether its feeder may vote for its validator, and the coins its rate string was
      split into, `None` where one cannot be read. */
  datatype VoteMsg = VoteMsg(validator: Addr, mayFeed: bool, coins: seq<Option<Tuple>>)

  datatype VoteError = NoPermission | InvalidCoins | UnknownDenom | InvalidRate

  // ----- what is accepted, and what is stored

  function Parsed(coins: seq<Option<Tuple>>): (ts: seq<Tuple>)
    requires forall c | c in coins :: c.Some?
    ensures |ts| == |coins| && forall i | 0 <= i < |coins| :: Some(ts[i]) == coins[i]
  {
    assert forall i | 0 <= i < |coins| :: coins[i] in coins;
    seq(|coins|, i requires 0 <= i < |coins| => coins[i].value)
  }

  predicate Parses(coins: seq<Option<Tuple>>) {
    (forall c | c in coins :: c.Some?) && DistinctDenoms(Parsed(coins))
  }

  predicate KnownDenoms(ts: seq<Tuple>, targets: map<string, Denom>) { forall t | t in ts :: t.denom in targets }

  predicate PositiveRates(ts: seq<Tuple>) { forall t | t in ts :: t.rate > 0 }

  /** The votes after a message, or why it is refused; the checks are made in this order. */
  function Cast(targets: map<string, Denom>, votes: Votes, msg: VoteMsg): Result<Votes, VoteError> {
    if !msg.mayFeed then Err(NoPermission)
    else if !Parses(msg.coins) then Err(InvalidCoins)
    else if !KnownDenoms(Parsed(msg.coins), targets) then Err(UnknownDenom)
    else if !PositiveRates(Parsed(msg.coins)) then Err(InvalidRate)
    else Ok(votes[msg.validator := AggregateVote(msg.validator, Parsed(msg.coins))])
  }

  /** `ParseExchangeRateTuples` once the string is split. */
  method ParseExchangeRateTuples(coins: seq<Option<Tuple>>) returns (r: Result<seq<Tuple>, VoteError>)
    ensures r == if Parses(coins) then Ok(Parsed(coins)) else Err(InvalidCoins)
  {
    var tuples: seq<Tuple> := [];
    var duplicateCheckMap: set<string> := {};
    for i := 0 to |coins|
      invariant |tuples| == i && forall k | 0 <= k < i :: coins[k] == Some(tuples[k])
      invariant forall d :: d in duplicateCheckMap <==> exists k :: 0 <= k < i && tuples[k].denom == d
      invariant DistinctDenoms(tuples)
    {
      if coins[i].None? {
        assert coins[i] in coins;
        return Err(InvalidCoins);
      }
      var decCoin := coins[i].value;
      if decCoin.denom in duplicateCheckMap {
        Repeats(coins, tuples, i);
        return Err(InvalidCoins);
      }
      tuples := tuples + [decCoin];
      duplicateCheckMap := duplicateCheckMap + {decCoin.denom};
    }
    assert forall c | c in coins :: c.Some?;
    assert tuples == Parsed(coins);
    return Ok(tuples);
  }

  lemma Repeats(coins: seq<Option<Tuple>>, tuples: seq<Tuple>, i: nat)
    requires i < |coins| && |tuples| == i && (forall k | 0 <= k < i :: coins[k] == Some(tuples[k]))
    requires coins[i].Some? && exists k :: 0 <= k < i && tuples[k].denom == coins[i].value.denom
    ensures !Parses(coins)
  {
    var k :| 0 <= k < i && tuples[k].denom == coins[i].value.denom;
    if forall c | c in coins :: c.Some? {
      var ts := Parsed(coins);
      assert Some(ts[k]) == coins[k] && Some(ts[i]) == coins[i];
    }
  }

  /** The messages of a block, one after the other; a refused one changes nothing. */
  function Deliver(targets: map<string, Denom>, votes: Votes, msgs: seq<VoteMsg>): Votes {
    if msgs == [] then votes
    else
      var before := Deliver(targets, votes, msgs[..|msgs| - 1]);
      var r := Cast(targets, before, msgs[|msgs| - 1]);
      if r.Ok? then r.value else before
  }

  predicate Accepted(targets: map<string, Denom>, msg: VoteMsg) { Cast(targets, map[], msg).Ok? }

  /** After the messages a validator's vote is the coins of the last accepted one of its own, the `i`-th;
      with none accepted (`i` being their number) it is what it was. */
  lemma {:induction false} VoteIsLastAccepted(targets: map<string, Denom>, votes: Votes, msgs: seq<VoteMsg>,
          k: Addr, i: nat)
    requires i <= |msgs| && (i < |msgs| ==> msgs[i].validator == k && Accepted(targets, msgs[i]))
    requires forall j | 0 <= j < |msgs| && (j > i || i == |msgs|) ::
               !(msgs[j].validator == k && Accepted(targets, msgs[j]))
    ensures var after := Deliver(targets, votes, msgs);
            if i == |msgs| then (k in after <==> k in votes) && (k in after ==> after[k] == votes[k])
            else k in after && after[k] == AggregateVote(k, Parsed(msgs[i].coins))
    decreases |msgs|
  {
    hide Parses, KnownDenoms, PositiveRates;
    if msgs != [] {
      var n := |msgs| - 1;
      if i < n {
        VoteIsLastAccepted(targets, votes, msgs[..n], k, i);
      } else if i == n + 1 {
        VoteIsLastAccepted(targets, votes, msgs[..n], k, n);
      }
    }
  }

  // ----- what messages keep

  /** Votes stored under their voter, each denom listed once, at a positive rate, and a target. */
  predicate SoundVotes(votes: Votes, targets: map<string, Denom>) {
    forall k | k in votes ::
      && votes[k].voter == k && DistinctDenoms(votes[k].tuples)
      && PositiveRates(votes[k].tuples) && KnownDenoms(votes[k].tuples, targets)
  }

  lemma {:induction false} DeliverKeepsSound(targets: map<string, Denom>, votes: Votes, msgs: seq<VoteMsg>)
    ensures WellKeyed(votes) ==> WellKeyed(Deliver(targets, votes, msgs))
    ensures SoundVotes(votes, targets) ==> SoundVotes(Deliver(targets, votes, msgs), targets)
    decreases |msgs|
  {
    hide DistinctDenoms, PositiveRates, KnownDenoms;
    if msgs != [] {
      DeliverKeepsSound(targets, votes, msgs[..|msgs| - 1]);
    }
  }

  lemma SoundVotesListOnce(votes: Votes, targets: map<string, Denom>)
    requires SoundVotes(votes, targets)
    ensures WellKeyed(votes) && ListsOnce(votes)
  {
    hide DistinctDenoms, PositiveRates, KnownDenoms;
  }

  /** Where votes are sound no vote counts without its power, and every ballot is a target's. */
  lemma SoundVotesCount(votes: Votes, targets: map<string, Denom>, claims: Claims, d: string, v: Vote)
    requires SoundVotes(votes, targets) && d in Grouped(votes, claims) && v in Grouped(votes, claims)[d]
    ensures d in targets && v.denom == d && v.rate > 0 && v.voter in claims && v.power == claims[v.voter].power
  {
    hide BallotFor, DistinctDenoms;
    assert v in BallotIn(Grouped(votes, claims), d);
    GroupingIsPartition(votes, claims, d, v);
    var s :| s in Sources(votes, claims, d, v);
    var t := votes[s.0].tuples[s.1];
    assert t in votes[s.0].tuples && IsSource(votes, claims, d, v, s.0, s.1);
  }
}
