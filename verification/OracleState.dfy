/** The oracle's stored state, and the outcome of closing a vote period as a function of it. */
module OracleState {
  import opened Wrappers
  import opened Decimal
  import opened Ordering
  import opened OracleBallot
  import opened OracleTally

  datatype Tuple = Tuple(denom: string, rate: Dec)

  datatype AggregateVote = AggregateVote(voter: Addr, tuples: seq<Tuple>)

  type Votes = map<Addr, AggregateVote>

  datatype Validator = Validator(operator: Addr, bonded: bool, jailed: bool, power: nat)

  datatype Counter = Counter(miss: nat, abstain: nat, success: nat)

  type Counters = map<Addr, Counter>

  datatype Rate = Rate(rate: Dec, height: int, timestamp: int)

  datatype Denom = Denom(name: string)

  datatype Params = Params(
    votePeriod: nat, voteThreshold: Dec, rewardBand: Dec, whitelist: seq<Denom>, slashFraction: Dec,
    slashWindow: nat, minValidPerWindow: Dec)

  /** What a block brings from outside the module: its height and time, the staking view, the
      floating-point root of the deviation and the quotients that overflow. */
  datatype Env = Env(
    height: nat, timestamp: int, powerStore: seq<Validator>, totalBondedPower: nat, root: Dec -> Dec,
    overflows: Dec -> bool)

  datatype Store = Store(rates: map<string, Rate>, counters: Counters, votes: Votes, targets: map<string, Denom>)

  predicate IsPeriodLastBlock(height: nat, period: nat)
    requires period > 0
  {
    (height + 1) % period == 0
  }

  /** Votes are stored under their voter, as the message server and genesis both do. */
  predicate WellKeyed(votes: Votes) { forall k | k in votes :: votes[k].voter == k }

  // ----- claims and ballots

  function NewClaim(power: nat, recipient: Addr): Claim { Claim(power, power, 0, false, recipient) }

  /** One claim per bonded validator. */
  function ClaimsOf(vals: seq<Validator>): Claims {
    if vals == [] then map[]
    else
      var before, v := ClaimsOf(vals[..|vals| - 1]), vals[|vals| - 1];
      if v.bonded then before[v.operator := NewClaim(v.power, v.operator)] else before
  }

  function AsVote(t: Tuple, voter: Addr, power: nat): Vote {
    Vote(t.denom, t.rate, voter, if t.rate > 0 then power else 0)
  }

  /** The votes for `denom` among one validator's tuples. */
  function TupleVotes(ts: seq<Tuple>, voter: Addr, power: nat, denom: string): ExchangeRateBallot {
    if ts == [] then []
    else
      var before, t := TupleVotes(ts[..|ts| - 1], voter, power, denom), ts[|ts| - 1];
      if t.denom == denom then before + [AsVote(t, voter, power)] else before
  }

  function VotesBy(k: Addr, votes: Votes, claims: Claims, denom: string): ExchangeRateBallot
    requires k in votes
  {
    if votes[k].voter in claims then TupleVotes(votes[k].tuples, k, claims[votes[k].voter].power, denom) else []
  }

  /** The ballot of `denom` as the walk over `keys` collects it. */
  function BallotFor(keys: seq<Addr>, votes: Votes, claims: Claims, denom: string): ExchangeRateBallot
    requires forall k | k in keys :: k in votes
  {
    if keys == [] then []
    else BallotFor(keys[..|keys| - 1], votes, claims, denom) + VotesBy(keys[|keys| - 1], votes, claims, denom)
  }

  function DenomsIn(votes: Votes): set<string> {
    set k, i | k in votes && 0 <= i < |votes[k].tuples| :: votes[k].tuples[i].denom
  }

  /** All non-empty ballots, each in the order the store is walked. */
  ghost function Grouped(votes: Votes, claims: Claims): VoteMap {
    var keys := SortedSeq(votes.Keys);
    map d | d in DenomsIn(votes) && BallotFor(keys, votes, claims, d) != [] :: BallotFor(keys, votes, claims, d)
  }

  // ----- two vote maps that differ only in the arrangement of their ballots

  ghost predicate Rearranged(a: VoteMap, b: VoteMap) {
    a.Keys == b.Keys && forall d | d in a :: SameVotes(a[d], b[d])
  }

  lemma SamePower(a: ExchangeRateBallot, b: ExchangeRateBallot)
    requires SameVotes(a, b)
    ensures Power(a) == Power(b)
  {
    SumPermutation(VotePower, a, b);
  }

  lemma PickOfRearranged(a: VoteMap, b: VoteMap, targets: set<string>, thresholdVotes: int)
    requires Rearranged(a, b)
    ensures Rearranged(Passing(a, targets, thresholdVotes), Passing(b, targets, thresholdVotes))
    ensures Rearranged(BelowThreshold(a, targets, thresholdVotes), BelowThreshold(b, targets, thresholdVotes))
  {
    hide Power;
    forall d | d in a
      ensures Power(a[d]) == Power(b[d])
    {
      SamePower(a[d], b[d]);
    }
  }

  lemma ReferenceOfRearranged(a: VoteMap, b: VoteMap, ref: string)
    requires Rearranged(a, b) && IsReference(ref, a)
    ensures IsReference(ref, b)
  {
    hide Power;
    forall d | d in a
      ensures Power(a[d]) == Power(b[d])
    {
      SamePower(a[d], b[d]);
    }
  }

  /** Ballots that have power have a reference. */
  lemma {:induction false} ReferenceExists(voteMap: VoteMap)
    requires forall d | d in voteMap :: Power(voteMap[d]) > 0
    ensures exists r :: IsReference(r, voteMap)
    decreases |voteMap|
  {
    hide Power;
    if voteMap == map[] {
      assert IsReference("", voteMap);
    } else {
      var d :| d in voteMap;
      var rest := voteMap - {d};
      ReferenceExists(rest);
      var r :| IsReference(r, rest);
      ReferenceStep(r, if rest == map[] then 0 else Power(rest[r]), rest, d, voteMap[d]);
      assert rest[d := voteMap[d]] == voteMap;
    }
  }

  ghost function ReferenceOf(voteMap: VoteMap): (r: string)
    requires forall d | d in voteMap :: Power(voteMap[d]) > 0
    ensures IsReference(r, voteMap)
  {
    ReferenceExists(voteMap);
    var r :| IsReference(r, voteMap);
    r
  }

  // ----- tallying a period's ballots

  /** The ballot of `d` as it is tallied: the reference's own, the others seen through its rates. */
  ghost function Seen(voteMap: VoteMap, ref: string, d: string, overflows: Dec -> bool): ExchangeRateBallot
    requires ref in voteMap && d in voteMap
  {
    if d == ref then voteMap[d] else MapVotes(Cross(ToMap(SortOf(voteMap[ref])), overflows), voteMap[d])
  }

  ghost function TallyPassing(claims: Claims, ds: seq<string>, voteMap: VoteMap, ref: string, rewardBand: Dec,
          env: Env): Claims
    requires ref in voteMap && forall d | d in ds :: d in voteMap
  {
    if ds == [] then claims
    else
      var ballot := Seen(voteMap, ref, ds[|ds| - 1], env.overflows);
      TallyVotes(TallyPassing(claims, ds[..|ds| - 1], voteMap, ref, rewardBand, env), ballot,
          BandOf(ballot, rewardBand, env.root))
  }

  ghost function TallyBelow(claims: Claims, ds: seq<string>, voteMap: VoteMap, rewardBand: Dec, env: Env): Claims
    requires forall d | d in ds :: d in voteMap
  {
    if ds == [] then claims
    else
      var ballot := voteMap[ds[|ds| - 1]];
      TallyVotes(TallyBelow(claims, ds[..|ds| - 1], voteMap, rewardBand, env), ballot,
          BandOf(ballot, rewardBand, env.root))
  }

  /** The rate recorded for `d`, zero if none is: the median, turned back to base/quote for all but the reference. */
  ghost function NewRate(voteMap: VoteMap, ref: string, d: string, env: Env): Dec
    requires ref in voteMap && d in voteMap
  {
    var median := Median(Seen(voteMap, ref, d, env.overflows));
    if median == 0 || d == ref then median else Quo(Median(voteMap[ref]), median)
  }

  ghost function RatesAfter(rates: map<string, Rate>, ds: seq<string>, voteMap: VoteMap, ref: string,
          env: Env): map<string, Rate>
    requires ref in voteMap && forall d | d in ds :: d in voteMap
  {
    if ds == [] then rates
    else
      var before, d := RatesAfter(rates, ds[..|ds| - 1], voteMap, ref, env), ds[|ds| - 1];
      if Median(Seen(voteMap, ref, d, env.overflows)) == 0 then before
      else before[d := Rate(NewRate(voteMap, ref, d, env), env.height, env.timestamp)]
  }

  // ----- verdicts

  datatype Verdict = Success | Abstain | Miss

  /** Success is winning as often as there are targets left, whether or not one voted. */
  function VerdictOn(c: Claim, nTargets: nat): Verdict {
    if c.winCount == nTargets then Success else if !c.didVote then Abstain else Miss
  }

  function CounterOf(counters: Counters, a: Addr): Counter {
    if a in counters then counters[a] else Counter(0, 0, 0)
  }

  function Bump(c: Counter, v: Verdict): Counter {
    match v
    case Success => c.(success := c.success + 1)
    case Abstain => c.(abstain := c.abstain + 1)
    case Miss => c.(miss := c.miss + 1)
  }

  /** Every claimant's counter moves by its verdict; all others stay. */
  function CountersAfter(counters: Counters, claims: Claims, nTargets: nat): Counters {
    map a | a in counters.Keys + claims.Keys ::
      if a in claims then Bump(CounterOf(counters, a), VerdictOn(claims[a], nTargets)) else counters[a]
  }

  // ----- the whitelist

  function TargetsOf(whitelist: seq<Denom>): map<string, Denom> {
    if whitelist == [] then map[]
    else TargetsOf(whitelist[..|whitelist| - 1])[whitelist[|whitelist| - 1].name := whitelist[|whitelist| - 1]]
  }

  predicate UpdateRequired(whitelist: seq<Denom>, voteTargets: map<string, Denom>) {
    |voteTargets| != |whitelist| || exists item | item in whitelist :: item.name !in voteTargets
  }

  function TargetsAfter(stored: map<string, Denom>, whitelist: seq<Denom>,
          voteTargets: map<string, Denom>): map<string, Denom>
  {
    if UpdateRequired(whitelist, voteTargets) then TargetsOf(whitelist) else stored
  }

  // ----- closing a period

  ghost function PassingOf(s: Store, p: Params, env: Env): VoteMap {
    Passing(Grouped(s.votes, ClaimsOf(env.powerStore)), s.targets.Keys,
        ThresholdVotes(p.voteThreshold, env.totalBondedPower))
  }

  ghost function BelowOf(s: Store, p: Params, env: Env): VoteMap {
    BelowThreshold(Grouped(s.votes, ClaimsOf(env.powerStore)), s.targets.Keys,
        ThresholdVotes(p.voteThreshold, env.totalBondedPower))
  }

  lemma PassingHavePower(voteMap: VoteMap, targets: set<string>, thresholdVotes: int)
    ensures forall d | d in Passing(voteMap, targets, thresholdVotes) ::
        Power(Passing(voteMap, targets, thresholdVotes)[d]) > 0
  {
  }

  ghost function RefOf(s: Store, p: Params, env: Env): string {
    PassingHavePower(Grouped(s.votes, ClaimsOf(env.powerStore)), s.targets.Keys,
        ThresholdVotes(p.voteThreshold, env.totalBondedPower));
    ReferenceOf(PassingOf(s, p, env))
  }

  /** All claims of the period after both rounds of tallying. */
  ghost function FinalClaims(s: Store, p: Params, env: Env): Claims {
    var claims := ClaimsOf(env.powerStore);
    var passing, below, ref := PassingOf(s, p, env), BelowOf(s, p, env), RefOf(s, p, env);
    var tallied :=
      if ref == "" then claims
      else TallyPassing(claims, SortedSeq(passing.Keys), passing, ref, p.rewardBand, env);
    TallyBelow(tallied, SortedSeq(below.Keys), below, p.rewardBand, env)
  }

  /** The targets left when the failing ones have been taken out. */
  ghost function ReducedTargets(s: Store, p: Params, env: Env): map<string, Denom> {
    s.targets - BelowOf(s, p, env).Keys
  }

  /** The state after a period closes: no order of any map, and no way of breaking ties, appears in it. */
  ghost function Close(s: Store, p: Params, env: Env): Store {
    var passing, ref := PassingOf(s, p, env), RefOf(s, p, env);
    Store(
      if ref == "" then s.rates else RatesAfter(s.rates, SortedSeq(passing.Keys), passing, ref, env),
      CountersAfter(s.counters, FinalClaims(s, p, env), |ReducedTargets(s, p, env)|),
      map[],
      TargetsAfter(s.targets, p.whitelist, ReducedTargets(s, p, env)))
  }

  ghost function EndBlock(s: Store, p: Params, env: Env): Store
    requires p.votePeriod > 0
  {
    if IsPeriodLastBlock(env.height, p.votePeriod) then Close(s, p, env) else s
  }
}
