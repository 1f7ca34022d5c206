/** Tallying ballots into claims, and picking the reference denom. */
module OracleTally {
  import opened Wrappers
  import opened Decimal
  import opened Ordering
  import opened OracleBallot

  datatype Claim = Claim(power: nat, weight: nat, winCount: nat, didVote: bool, recipient: Addr)

  type Claims = map<Addr, Claim>

  /** What reading a missing key of the claim map yields. */
  const NO_CLAIM := Claim(0, 0, 0, false, "")

  datatype Band = Band(lo: Dec, hi: Dec)

  predicate InBand(v: Vote, band: Band) { band.lo <= v.rate <= band.hi }

  function ClaimOf(claims: Claims, w: Addr): Claim {
    if w in claims then claims[w] else NO_CLAIM
  }

  function TallyVote(claims: Claims, v: Vote, band: Band): Claims {
    var c := ClaimOf(claims, v.voter);
    var c' := if InBand(v, band) then c.(weight := c.weight + v.power, winCount := c.winCount + 1) else c;
    claims[v.voter := c'.(didVote := true)]
  }

  function TallyVotes(claims: Claims, ex: ExchangeRateBallot, band: Band): Claims {
    if ex == [] then claims else TallyVote(TallyVotes(claims, ex[..|ex| - 1], band), ex[|ex| - 1], band)
  }

  /** The accepted interval around a median: half the reward band of it, or the deviation if larger. */
  function BandAround(b: ExchangeRateBallot, median: Dec, rewardBand: Dec, root: Dec -> Dec): Band {
    var standardDeviation := StandardDeviation(b, median, root);
    var share := Mul(median, QuoInt64(rewardBand, 2));
    var spread := if standardDeviation > share then standardDeviation else share;
    Band(median - spread, median + spread)
  }

  ghost function BandOf(b: ExchangeRateBallot, rewardBand: Dec, root: Dec -> Dec): Band {
    BandAround(b, Median(b), rewardBand, root)
  }

  /** `Tally`: the median, and the claims with every vote counted. */
  method Tally(ex: ExchangeRateBallot, rewardBand: Dec, root: Dec -> Dec, claims: Claims)
    returns (weightedMedian: Dec, claims': Claims)
    requires SortedByRate(ex)
    ensures weightedMedian == Median(ex)
    ensures claims' == TallyVotes(claims, ex, BandOf(ex, rewardBand, root))
  {
    hide IsMedian, StandardDeviation, Mul, QuoInt64, Power;
    weightedMedian := WeightedMedian(ex);
    if ex != [] {
      SameMedian(ex, weightedMedian);
    }
    var standardDeviation := StandardDeviation(ex, weightedMedian, root);
    var rewardSpread := Mul(weightedMedian, QuoInt64(rewardBand, 2));
    if standardDeviation > rewardSpread {
      rewardSpread := standardDeviation;
    }
    assert BandOf(ex, rewardBand, root) == Band(weightedMedian - rewardSpread, weightedMedian + rewardSpread);
    claims' := CountVotes(ex, weightedMedian, rewardSpread, claims);
  }

  /** The loop of `Tally` over the votes. */
  method CountVotes(ex: ExchangeRateBallot, weightedMedian: Dec, rewardSpread: Dec, claims: Claims)
    returns (claims': Claims)
    ensures claims' == TallyVotes(claims, ex, Band(weightedMedian - rewardSpread, weightedMedian + rewardSpread))
  {
    ghost var band := Band(weightedMedian - rewardSpread, weightedMedian + rewardSpread);
    claims' := claims;
    for i := 0 to |ex|
      invariant claims' == TallyVotes(claims, ex[..i], band)
    {
      var vote := ex[i];
      assert ex[..i + 1][..i] == ex[..i];
      var claim := ClaimOf(claims', vote.voter);
      if vote.rate >= weightedMedian - rewardSpread && vote.rate <= weightedMedian + rewardSpread {
        claim := claim.(weight := claim.weight + vote.power);
        claim := claim.(winCount := claim.winCount + 1);
      }
      claim := claim.(didVote := true);
      claims' := claims'[vote.voter := claim];
    }
    assert ex[..|ex|] == ex;
  }

  /** The accepted interval lies evenly around the median. It reaches as far as the deviation, or half the
      reward band's share of the median if that is more. */
  lemma BandIs(b: ExchangeRateBallot, rewardBand: Dec, root: Dec -> Dec)
    ensures var band, median := BandOf(b, rewardBand, root), Median(b);
            var reach, deviation := band.hi - median, StandardDeviation(b, median, root);
            && median - band.lo == reach && reach >= deviation
            && (|| (reach == deviation && 2 * reach * ONE + ONE + Abs(median) >= median * rewardBand)
                || Abs(2 * reach * ONE - median * rewardBand) <= ONE + Abs(median))
  {
    hide StandardDeviation, Chop, Median;
    ShareError(Median(b), rewardBand);
  }

  lemma ShareError(median: Dec, rewardBand: Dec)
    ensures Abs(2 * Mul(median, QuoInt64(rewardBand, 2)) * ONE - median * rewardBand) <= ONE + Abs(median)
  {
    hide Chop;
    var half := QuoInt64(rewardBand, 2);
    ChopError(median * half);
    assert -1 <= 2 * half - rewardBand <= 1;
    var e := 2 * half - rewardBand;
    assert Abs(median * e) <= Abs(median);
    assert 2 * (median * half) - median * rewardBand == median * e;
  }

  lemma SameMedian(b: ExchangeRateBallot, r: Dec)
    requires b != [] && IsMedian(b, r)
    ensures r == Median(b)
  {
    MedianUnique(b, r, Median(b));
  }

  // ----- what a tally does to each claim

  function WinOf(w: Addr, band: Band): Vote -> int {
    (v: Vote) => if v.voter == w && InBand(v, band) then 1 else 0
  }

  function WonPowerOf(w: Addr, band: Band): Vote -> int {
    (v: Vote) => if v.voter == w && InBand(v, band) then v.power else 0
  }

  function Wins(ex: ExchangeRateBallot, w: Addr, band: Band): (n: nat) {
    SumNonNegative(WinOf(w, band), ex);
    Sum(WinOf(w, band), ex)
  }

  function WonPower(ex: ExchangeRateBallot, w: Addr, band: Band): (n: nat) {
    SumNonNegative(WonPowerOf(w, band), ex);
    Sum(WonPowerOf(w, band), ex)
  }

  predicate Voted(ex: ExchangeRateBallot, w: Addr) { exists v | v in ex :: v.voter == w }

  /** The claim `c` of `w` after the ballot: wins and won power added, and the vote noted. */
  function Credited(c: Claim, ex: ExchangeRateBallot, w: Addr, band: Band): Claim {
    c.(weight := c.weight + WonPower(ex, w, band),
       winCount := c.winCount + Wins(ex, w, band),
       didVote := c.didVote || Voted(ex, w))
  }

  lemma VotedStep(ex: ExchangeRateBallot, v: Vote, w: Addr)
    ensures Voted(ex + [v], w) <==> Voted(ex, w) || v.voter == w
  {
    assert v in ex + [v];
    if Voted(ex, w) {
      var x :| x in ex && x.voter == w;
      assert x in ex + [v];
    }
  }

  lemma WinsStep(ex: ExchangeRateBallot, v: Vote, w: Addr, band: Band)
    ensures Wins(ex + [v], w, band) == Wins(ex, w, band) + if v.voter == w && InBand(v, band) then 1 else 0
    ensures WonPower(ex + [v], w, band)
            == WonPower(ex, w, band) + if v.voter == w && InBand(v, band) then v.power else 0
  {
    hide Sum;
    SumStep(WinOf(w, band), ex, v);
    SumStep(WonPowerOf(w, band), ex, v);
  }

  lemma CreditedStep(c: Claim, ex: ExchangeRateBallot, v: Vote, w: Addr, band: Band)
    ensures Voted(ex + [v], w) <==> Voted(ex, w) || v.voter == w
    ensures var before := Credited(c, ex, w, band);
            Credited(c, ex + [v], w, band) ==
              if v.voter != w then before
              else if InBand(v, band) then
                before.(weight := before.weight + v.power, winCount := before.winCount + 1, didVote := true)
              else before.(didVote := true)
  {
    hide Voted, Wins, WonPower, InBand;
    VotedStep(ex, v, w);
    WinsStep(ex, v, w, band);
  }

  lemma {:induction false} TallyPointwise(claims: Claims, ex: ExchangeRateBallot, band: Band, w: Addr)
    ensures w in TallyVotes(claims, ex, band) <==> w in claims || Voted(ex, w)
    ensures ClaimOf(TallyVotes(claims, ex, band), w) == Credited(ClaimOf(claims, w), ex, w, band)
    decreases |ex|
  {
    if ex != [] {
      hide Voted, Credited;
      var init, last := ex[..|ex| - 1], ex[|ex| - 1];
      TallyPointwise(claims, init, band, w);
      CreditedStep(ClaimOf(claims, w), init, last, w, band);
      assert ex == init + [last];
    }
  }

  /** A tally depends on the votes, not on their arrangement. */
  lemma TallyOfRearranged(claims: Claims, a: ExchangeRateBallot, b: ExchangeRateBallot, band: Band)
    requires SameVotes(a, b)
    ensures TallyVotes(claims, a, band) == TallyVotes(claims, b, band)
  {
    SameMembers(a, b);
    forall w
      ensures w in TallyVotes(claims, a, band) <==> w in TallyVotes(claims, b, band)
      ensures ClaimOf(TallyVotes(claims, a, band), w) == ClaimOf(TallyVotes(claims, b, band), w)
    {
      TallyPointwise(claims, a, band, w);
      TallyPointwise(claims, b, band, w);
      SumPermutation(WinOf(w, band), a, b);
      SumPermutation(WonPowerOf(w, band), a, b);
    }
    SameClaims(TallyVotes(claims, a, band), TallyVotes(claims, b, band));
  }

  lemma SameClaims(x: Claims, y: Claims)
    requires forall w :: (w in x <==> w in y) && ClaimOf(x, w) == ClaimOf(y, w)
    ensures x == y
  {
    assert x.Keys == y.Keys;
    forall w | w in x ensures x[w] == y[w] {
      assert ClaimOf(x, w) == ClaimOf(y, w);
    }
  }

  lemma BandOfRearranged(a: ExchangeRateBallot, b: ExchangeRateBallot, rewardBand: Dec, root: Dec -> Dec)
    requires SameVotes(a, b)
    ensures Median(a) == Median(b) && BandOf(a, rewardBand, root) == BandOf(b, rewardBand, root)
  {
    SameLength(a, b);
    if a != [] {
      MedianOfRearranged(a, b, Median(a));
      SameMedian(b, Median(a));
    }
    SumPermutation(SquaredDeviation(Median(a)), a, b);
  }

  /** Ballots may be tallied in either order. */
  lemma TallyCommutes(claims: Claims, a: ExchangeRateBallot, bandA: Band, b: ExchangeRateBallot, bandB: Band)
    ensures TallyVotes(TallyVotes(claims, a, bandA), b, bandB) == TallyVotes(TallyVotes(claims, b, bandB), a, bandA)
  {
    var x, y := TallyVotes(TallyVotes(claims, a, bandA), b, bandB), TallyVotes(TallyVotes(claims, b, bandB), a, bandA);
    forall w
      ensures (w in x <==> w in y) && ClaimOf(x, w) == ClaimOf(y, w)
    {
      TallyPointwise(claims, a, bandA, w);
      TallyPointwise(TallyVotes(claims, a, bandA), b, bandB, w);
      TallyPointwise(claims, b, bandB, w);
      TallyPointwise(TallyVotes(claims, b, bandB), a, bandA, w);
    }
    SameClaims(x, y);
  }

  /** The wins of `w` are its votes with a rate in the interval, bounds included. */
  function WinningVotes(ex: ExchangeRateBallot, n: nat, w: Addr, band: Band): set<nat>
    requires n <= |ex|
  {
    set i: nat | i < n && ex[i].voter == w && ex[i].rate >= band.lo && ex[i].rate <= band.hi
  }

  lemma {:induction false} WinsAre(ex: ExchangeRateBallot, n: nat, w: Addr, band: Band)
    requires n <= |ex|
    ensures Wins(ex[..n], w, band) == |WinningVotes(ex, n, w, band)|
    decreases n
  {
    hide WinningVotes;
    WinningStep(ex, n, w, band);
    if n > 0 {
      WinsAre(ex, n - 1, w, band);
      assert ex[..n] == ex[..n - 1] + [ex[n - 1]];
      SumStep(WinOf(w, band), ex[..n - 1], ex[n - 1]);
    }
  }

  lemma WinningStep(ex: ExchangeRateBallot, n: nat, w: Addr, band: Band)
    requires n <= |ex|
    ensures n == 0 ==> WinningVotes(ex, n, w, band) == {}
    ensures n > 0 ==>
              var v, before := ex[n - 1], WinningVotes(ex, n - 1, w, band);
              && n - 1 !in before
              && WinningVotes(ex, n, w, band)
                 == before + if v.voter == w && band.lo <= v.rate <= band.hi then {n - 1} else {}
  {
  }

  // ----- total weight

  ghost function Weights(claims: Claims): map<string, int> { map w | w in claims :: claims[w].weight as int }

  ghost function TotalWeight(claims: Claims): int { Total(Weights(claims)) }

  function InBandPower(band: Band): Vote -> int { (v: Vote) => if InBand(v, band) then v.power else 0 }

  /** When every voter is a claimant, no claim is added and the total weight grows by exactly the
      power of the votes in the band. */
  lemma {:induction false} TallyConservesWeight(claims: Claims, ex: ExchangeRateBallot, band: Band)
    requires forall v | v in ex :: v.voter in claims
    ensures TallyVotes(claims, ex, band).Keys == claims.Keys
    ensures TotalWeight(TallyVotes(claims, ex, band)) == TotalWeight(claims) + Sum(InBandPower(band), ex)
    decreases |ex|
  {
    hide TallyVote, TotalWeight;
    if ex != [] {
      var init, last := ex[..|ex| - 1], ex[|ex| - 1];
      assert last in ex;
      TallyConservesWeight(claims, init, band);
      OneVoteWeight(TallyVotes(claims, init, band), last, band);
    }
  }

  lemma OneVoteWeight(claims: Claims, v: Vote, band: Band)
    requires v.voter in claims
    ensures TallyVote(claims, v, band).Keys == claims.Keys
    ensures TotalWeight(TallyVote(claims, v, band)) == TotalWeight(claims) + if InBand(v, band) then v.power else 0
  {
    hide Total;
    var n := claims[v.voter].weight + if InBand(v, band) then v.power else 0;
    TotalUpdate(Weights(claims), v.voter, n);
    assert Weights(TallyVote(claims, v, band)) == Weights(claims)[v.voter := n];
    assert TallyVote(claims, v, band).Keys == claims.Keys;
  }

  // ----- the reference denom

  /** A ballot passes with some power, and with at least the threshold. */
  function BallotIsPassing(ballot: ExchangeRateBallot, thresholdVotes: int): (nat, bool) {
    var ballotPower := Power(ballot);
    (ballotPower, ballotPower != 0 && ballotPower >= thresholdVotes)
  }

  predicate Passes(ballot: ExchangeRateBallot, thresholdVotes: int) { BallotIsPassing(ballot, thresholdVotes).1 }

  /** `voteThreshold.MulInt64(totalBondedPower).RoundInt()` */
  function ThresholdVotes(voteThreshold: Dec, totalBondedPower: int): int { RoundInt(voteThreshold * totalBondedPower) }

  /** A ballot passes exactly if it has power and that is at least the threshold's share of all bonded
      power, to the nearest unit; a share half a unit above it is met by an even power only. */
  lemma PassesIff(ballot: ExchangeRateBallot, voteThreshold: Dec, totalBondedPower: int)
    ensures var power, share := Power(ballot), voteThreshold * totalBondedPower;
            Passes(ballot, ThresholdVotes(voteThreshold, totalBondedPower)) <==>
              power > 0 && (share < power * ONE + HALF || (share == power * ONE + HALF && power % 2 == 0))
  {
    hide Power;
    RoundedAtMost(voteThreshold * totalBondedPower, Power(ballot));
  }

  lemma RoundedAtMost(x: int, n: nat)
    ensures Chop(x) <= n <==> x < n * ONE + HALF || (x == n * ONE + HALF && n % 2 == 0)
  {
  }

  type VoteMap = map<string, ExchangeRateBallot>

  function BallotIn(m: VoteMap, d: string): ExchangeRateBallot { if d in m then m[d] else [] }

  /** `ref` has the highest power of the ballots, and comes first of those that share it; with no
      ballot it is empty. */
  ghost predicate IsReference(ref: string, voteMap: VoteMap) {
    if voteMap == map[] then ref == ""
    else
      && ref in voteMap
      && forall d | d in voteMap :: Power(voteMap[d]) < Power(voteMap[ref])
                                    || (Power(voteMap[d]) == Power(voteMap[ref]) && (d == ref || Less(ref, d)))
  }

  lemma ReferenceUnique(r: string, r': string, voteMap: VoteMap)
    requires IsReference(r, voteMap) && IsReference(r', voteMap)
    ensures r == r'
  {
    if r != r' {
      LessTransitive(r, r', r);
      LessIrreflexive(r);
    }
  }

  /** No ballot outranks the reference, and one of the same power comes behind it. */
  lemma ReferenceOutranks(ref: string, voteMap: VoteMap, d: string)
    requires IsReference(ref, voteMap) && d in voteMap
    ensures ref in voteMap && Power(voteMap[d]) <= Power(voteMap[ref])
    ensures Power(voteMap[d]) == Power(voteMap[ref]) && d != ref ==> Less(ref, d)
  {
    hide Power;
  }

  function Passing(voteMap: VoteMap, targets: set<string>, thresholdVotes: int): VoteMap {
    map d | d in voteMap && d in targets && Passes(voteMap[d], thresholdVotes) :: voteMap[d]
  }

  function BelowThreshold(voteMap: VoteMap, targets: set<string>, thresholdVotes: int): VoteMap {
    map d | d in voteMap && d in targets && !Passes(voteMap[d], thresholdVotes) :: voteMap[d]
  }

  /** One step of the choice keeps the reference of the ballots seen so far. */
  lemma ReferenceStep(ref: string, highest: nat, seen: VoteMap, denom: string, ballot: ExchangeRateBallot)
    requires denom !in seen && Power(ballot) > 0
    requires IsReference(ref, seen) && highest == if seen == map[] then 0 else Power(seen[ref])
    requires forall d | d in seen :: Power(seen[d]) > 0
    ensures var p := Power(ballot);
            var ref1 := if p > highest || highest == 0 then denom else ref;
            var highest1 := if p > highest || highest == 0 then p else highest;
            var ref2 := if p == highest1 && Less(denom, ref1) then denom else ref1;
            IsReference(ref2, seen[denom := ballot]) && highest1 == Power(seen[denom := ballot][ref2])
  {
    hide Power;
    var seen' := seen[denom := ballot];
    if seen != map[] {
      LessTotal(denom, ref);
      if Less(denom, ref) {
        forall d | d in seen && Less(ref, d) ensures Less(denom, d) {
          LessTransitive(denom, ref, d);
        }
      }
    } else {
      LessIrreflexive(denom);
      assert seen' == map[denom := ballot];
    }
  }

  /** `pickReferenceDenom`: the map is visited in an arbitrary order and edited on the way. */
  method PickReferenceDenom<D>(voteTargets: map<string, D>, voteMap: VoteMap, thresholdVotes: int)
    returns (referenceDenom: string, belowThresholdVoteMap: VoteMap, voteTargets': map<string, D>, voteMap': VoteMap)
    ensures voteMap' == Passing(voteMap, voteTargets.Keys, thresholdVotes)
    ensures belowThresholdVoteMap == BelowThreshold(voteMap, voteTargets.Keys, thresholdVotes)
    ensures voteTargets' == voteTargets - belowThresholdVoteMap.Keys
    ensures IsReference(referenceDenom, voteMap')
  {
    hide IsReference, Power, Less, BallotIsPassing, Passes;
    var highestBallotPower: nat := 0;
    referenceDenom, belowThresholdVoteMap, voteTargets', voteMap' := "", map[], voteTargets, voteMap;
    var todo := voteMap.Keys;
    ghost var seen: VoteMap := map[];
    NoReference();
    while todo != {}
      invariant todo <= voteMap.Keys
      invariant forall d :: d in voteMap' <==>
                  d in voteMap && (d in todo || (d in voteTargets && Passes(voteMap[d], thresholdVotes)))
      invariant forall d | d in voteMap' :: voteMap'[d] == voteMap[d]
      invariant forall d :: d in belowThresholdVoteMap <==>
                  d in voteMap && d !in todo && d in voteTargets && !Passes(voteMap[d], thresholdVotes)
      invariant forall d | d in belowThresholdVoteMap :: belowThresholdVoteMap[d] == voteMap[d]
      invariant voteTargets' == voteTargets - belowThresholdVoteMap.Keys
      invariant forall d :: d in seen <==>
                  d in voteMap && d !in todo && d in voteTargets && Passes(voteMap[d], thresholdVotes)
      invariant forall d | d in seen :: seen[d] == voteMap[d] && Power(seen[d]) > 0
      invariant IsReference(referenceDenom, seen)
      invariant seen != map[] ==> referenceDenom in seen
      invariant highestBallotPower == if seen == map[] then 0 else Power(seen[referenceDenom])
      decreases todo
    {
      var denom :| denom in todo;
      todo := todo - {denom};
      var ballot := voteMap'[denom];
      if denom !in voteTargets' {
        voteMap' := voteMap' - {denom};
        continue;
      }
      var (ballotPower, ok) := BallotIsPassing(ballot, thresholdVotes);
      PassingMeans(ballot, thresholdVotes);
      if !ok {
        belowThresholdVoteMap := belowThresholdVoteMap[denom := voteMap'[denom]];
        voteTargets' := voteTargets' - {denom};
        voteMap' := voteMap' - {denom};
        continue;
      }
      ReferenceStep(referenceDenom, highestBallotPower, seen, denom, ballot);
      if ballotPower > highestBallotPower || highestBallotPower == 0 {
        referenceDenom := denom;
        highestBallotPower := ballotPower;
      }
      if ballotPower == highestBallotPower && Less(denom, referenceDenom) {
        referenceDenom := denom;
      }
      seen := seen[denom := ballot];
      ReferenceIn(referenceDenom, seen);
    }
    assert seen == voteMap';
  }

  lemma PassingMeans(ballot: ExchangeRateBallot, thresholdVotes: int)
    ensures BallotIsPassing(ballot, thresholdVotes) == (Power(ballot), Passes(ballot, thresholdVotes))
    ensures Passes(ballot, thresholdVotes) ==> Power(ballot) > 0
  {
  }

  lemma NoReference()
    ensures IsReference("", map[])
  {
  }

  lemma ReferenceIn(ref: string, voteMap: VoteMap)
    requires IsReference(ref, voteMap) && voteMap != map[]
    ensures ref in voteMap
  {
  }
}
