/** What a validator's verdict for a period says, and what it does not say. */
module OracleVerdict {
  import opened Decimal
  import opened Ordering
  import opened OracleBallot
  import opened OracleTally
  import opened OracleState
  import opened OracleGrouping

  // ----- wins over all ballots

  ghost function BallotWins(b: ExchangeRateBallot, w: Addr, p: Params, env: Env): nat {
    Wins(b, w, BandOf(b, p.rewardBand, env.root))
  }

  ghost function WinsPassing(ds: seq<string>, voteMap: VoteMap, ref: string, w: Addr, p: Params, env: Env): nat
    requires ref in voteMap && forall d | d in ds :: d in voteMap
  {
    if ds == [] then 0
    else
      WinsPassing(ds[..|ds| - 1], voteMap, ref, w, p, env)
      + BallotWins(Seen(voteMap, ref, ds[|ds| - 1], env.overflows), w, p, env)
  }

  ghost function WinsBelow(ds: seq<string>, voteMap: VoteMap, w: Addr, p: Params, env: Env): nat
    requires forall d | d in ds :: d in voteMap
  {
    if ds == [] then 0 else WinsBelow(ds[..|ds| - 1], voteMap, w, p, env) + BallotWins(voteMap[ds[|ds| - 1]], w, p, env)
  }

  ghost predicate VotedIn(ds: seq<string>, voteMap: VoteMap, w: Addr) {
    exists d | d in ds && d in voteMap :: Voted(voteMap[d], w)
  }

  lemma VotedInStep(ds: seq<string>, voteMap: VoteMap, w: Addr)
    requires ds != [] && forall d | d in ds :: d in voteMap
    ensures VotedIn(ds, voteMap, w) <==> VotedIn(ds[..|ds| - 1], voteMap, w) || Voted(voteMap[ds[|ds| - 1]], w)
  {
    hide Voted;
    assert ds == ds[..|ds| - 1] + [ds[|ds| - 1]];
  }

  /** Seeing a ballot through the reference rates keeps its voters. */
  lemma SeenVoted(voteMap: VoteMap, ref: string, d: string, env: Env, w: Addr)
    requires ref in voteMap && d in voteMap
    ensures Voted(Seen(voteMap, ref, d, env.overflows), w) <==> Voted(voteMap[d], w)
  {
    hide ToMap, SortOf;
    var a, b := voteMap[d], Seen(voteMap, ref, d, env.overflows);
    assert |a| == |b| && forall i | 0 <= i < |a| :: a[i].voter == b[i].voter;
    if Voted(a, w) {
      var i :| 0 <= i < |a| && a[i].voter == w;
      assert b[i] in b;
    }
    if Voted(b, w) {
      var i :| 0 <= i < |b| && b[i].voter == w;
      assert a[i] in a;
    }
  }

  lemma {:induction false} PassingClaim(claims: Claims, ds: seq<string>, voteMap: VoteMap, ref: string, w: Addr,
          p: Params, env: Env)
    requires ref in voteMap && forall d | d in ds :: d in voteMap
    ensures var before, after :=
        ClaimOf(claims, w), ClaimOf(TallyPassing(claims, ds, voteMap, ref, p.rewardBand, env), w);
            && after.winCount == before.winCount + WinsPassing(ds, voteMap, ref, w, p, env)
            && (after.didVote <==> before.didVote || VotedIn(ds, voteMap, w))
    decreases |ds|
  {
    hide Seen, BandOf, TallyVotes, ClaimOf, Voted, VotedIn, Wins, WonPower;
    if ds == [] {
      NoneVoted(voteMap, w);
    } else {
      var init, d := ds[..|ds| - 1], ds[|ds| - 1];
      PassingClaim(claims, init, voteMap, ref, w, p, env);
      var ballot := Seen(voteMap, ref, d, env.overflows);
      TallyPointwise(TallyPassing(claims, init, voteMap, ref, p.rewardBand, env), ballot,
          BandOf(ballot, p.rewardBand, env.root), w);
      SeenVoted(voteMap, ref, d, env, w);
      VotedInStep(ds, voteMap, w);
    }
  }

  lemma NoneVoted(voteMap: VoteMap, w: Addr)
    ensures !VotedIn([], voteMap, w)
  {
  }

  lemma {:induction false} BelowClaim(claims: Claims, ds: seq<string>, voteMap: VoteMap, w: Addr, p: Params, env: Env)
    requires forall d | d in ds :: d in voteMap
    ensures var before, after := ClaimOf(claims, w), ClaimOf(TallyBelow(claims, ds, voteMap, p.rewardBand, env), w);
            && after.winCount == before.winCount + WinsBelow(ds, voteMap, w, p, env)
            && (after.didVote <==> before.didVote || VotedIn(ds, voteMap, w))
    decreases |ds|
  {
    hide BandOf, TallyVotes, ClaimOf, Voted, VotedIn, Wins, WonPower;
    if ds == [] {
      NoneVoted(voteMap, w);
    } else {
      var init, d := ds[..|ds| - 1], ds[|ds| - 1];
      BelowClaim(claims, init, voteMap, w, p, env);
      TallyPointwise(TallyBelow(claims, init, voteMap, p.rewardBand, env), voteMap[d],
          BandOf(voteMap[d], p.rewardBand, env.root), w);
      VotedInStep(ds, voteMap, w);
    }
  }

  /** Wins on the ballots that passed, none if there is no reference. */
  ghost function PassingWins(s: Store, p: Params, env: Env, w: Addr): nat {
    var passing, ref := PassingOf(s, p, env), RefOf(s, p, env);
    if ref == "" then 0 else WinsPassing(SortedSeq(passing.Keys), passing, ref, w, p, env)
  }

  /** Wins on the ballots that fell below the threshold: they are tallied all the same. */
  ghost function BelowWins(s: Store, p: Params, env: Env, w: Addr): nat {
    var below := BelowOf(s, p, env);
    WinsBelow(SortedSeq(below.Keys), below, w, p, env)
  }

  ghost predicate TookPart(s: Store, p: Params, env: Env, w: Addr) {
    var passing, below := PassingOf(s, p, env), BelowOf(s, p, env);
    (RefOf(s, p, env) != "" && exists d | d in passing :: Voted(passing[d], w))
        || exists d | d in below :: Voted(below[d], w)
  }

  predicate Bonded(vals: seq<Validator>, w: Addr) { exists v | v in vals :: v.bonded && v.operator == w }

  lemma {:induction false} ClaimsOfBonded(vals: seq<Validator>, w: Addr)
    ensures w in ClaimsOf(vals) <==> Bonded(vals, w)
    ensures w in ClaimsOf(vals) ==> ClaimsOf(vals)[w].winCount == 0 && !ClaimsOf(vals)[w].didVote
    decreases |vals|
  {
    if vals != [] {
      var init, last := vals[..|vals| - 1], vals[|vals| - 1];
      ClaimsOfBonded(init, w);
      assert vals == init + [last];
      if Bonded(init, w) {
        var v :| v in init && v.bonded && v.operator == w;
        assert v in vals;
      }
      if last.bonded && last.operator == w {
        assert last in vals;
      }
    }
  }

  ghost function VerdictFor(s: Store, p: Params, env: Env, w: Addr): Verdict {
    VerdictOn(ClaimOf(FinalClaims(s, p, env), w), |ReducedTargets(s, p, env)|)
  }

  lemma ReferencePasses(s: Store, p: Params, env: Env)
    ensures RefOf(s, p, env) != "" ==> RefOf(s, p, env) in PassingOf(s, p, env)
    ensures "" !in s.targets && PassingOf(s, p, env) != map[] ==> RefOf(s, p, env) != ""
  {
    assert forall d | d in PassingOf(s, p, env) :: d in s.targets;
  }

  /** The verdict on a bonded validator, as a function of its wins and its votes. */
  lemma VerdictIs(s: Store, p: Params, env: Env, w: Addr)
    requires Bonded(env.powerStore, w)
    ensures VerdictFor(s, p, env, w) ==
              if PassingWins(s, p, env, w) + BelowWins(s, p, env, w) == |ReducedTargets(s, p, env)| then Success
              else if !TookPart(s, p, env, w) then Abstain
              else Miss
  {
    hide PassingOf, BelowOf, RefOf, TallyPassing, TallyBelow, WinsPassing, WinsBelow, ClaimsOf, Voted, Bonded;
    var claims := ClaimsOf(env.powerStore);
    var passing, below, ref := PassingOf(s, p, env), BelowOf(s, p, env), RefOf(s, p, env);
    ClaimsOfBonded(env.powerStore, w);
    ReferencePasses(s, p, env);
    var tallied := claims;
    if ref != "" {
      PassingClaim(claims, SortedSeq(passing.Keys), passing, ref, w, p, env);
      tallied := TallyPassing(claims, SortedSeq(passing.Keys), passing, ref, p.rewardBand, env);
    }
    BelowClaim(tallied, SortedSeq(below.Keys), below, w, p, env);
  }

  // ----- validators that did not vote

  lemma {:induction false} NotInBallot(keys: seq<Addr>, votes: Votes, claims: Claims, d: string, w: Addr)
    requires (forall k | k in keys :: k in votes) && w !in keys
    ensures !Voted(BallotFor(keys, votes, claims, d), w)
    decreases |keys|
  {
    if keys != [] {
      var init, last := keys[..|keys| - 1], keys[|keys| - 1];
      assert last in keys && forall k | k in init :: k in keys;
      NotInBallot(init, votes, claims, d, w);
      if votes[last].voter in claims {
        TupleVoters(votes[last].tuples, last, claims[votes[last].voter].power, d);
      }
    }
  }

  lemma NoVoteNoWins(b: ExchangeRateBallot, w: Addr, p: Params, env: Env)
    requires !Voted(b, w)
    ensures BallotWins(b, w, p, env) == 0
  {
    hide BandOf;
    NoWins(b, w, BandOf(b, p.rewardBand, env.root));
  }

  lemma {:induction false} NoWins(b: ExchangeRateBallot, w: Addr, band: Band)
    requires !Voted(b, w)
    ensures Wins(b, w, band) == 0
    decreases |b|
  {
    if b != [] {
      NoWins(b[..|b| - 1], w, band);
    }
  }

  lemma {:induction false} NoWinsPassing(ds: seq<string>, voteMap: VoteMap, ref: string, w: Addr, p: Params, env: Env)
    requires ref in voteMap && (forall d | d in ds :: d in voteMap) && forall d | d in ds :: !Voted(voteMap[d], w)
    ensures WinsPassing(ds, voteMap, ref, w, p, env) == 0
    decreases |ds|
  {
    hide Voted, BallotWins, Seen;
    if ds != [] {
      var d := ds[|ds| - 1];
      NoWinsPassing(ds[..|ds| - 1], voteMap, ref, w, p, env);
      SeenVoted(voteMap, ref, d, env, w);
      NoVoteNoWins(Seen(voteMap, ref, d, env.overflows), w, p, env);
    }
  }

  lemma {:induction false} NoWinsBelow(ds: seq<string>, voteMap: VoteMap, w: Addr, p: Params, env: Env)
    requires (forall d | d in ds :: d in voteMap) && forall d | d in ds :: !Voted(voteMap[d], w)
    ensures WinsBelow(ds, voteMap, w, p, env) == 0
    decreases |ds|
  {
    hide Voted, BallotWins;
    if ds != [] {
      NoWinsBelow(ds[..|ds| - 1], voteMap, w, p, env);
      NoVoteNoWins(voteMap[ds[|ds| - 1]], w, p, env);
    }
  }

  lemma AbsentFromAll(s: Store, p: Params, env: Env, w: Addr)
    requires w !in s.votes
    ensures forall d | d in PassingOf(s, p, env) :: !Voted(PassingOf(s, p, env)[d], w)
    ensures forall d | d in BelowOf(s, p, env) :: !Voted(BelowOf(s, p, env)[d], w)
  {
    hide BallotFor, Voted, ClaimsOf, Passes;
    var claims, keys := ClaimsOf(env.powerStore), SortedSeq(s.votes.Keys);
    forall d
      ensures !Voted(BallotFor(keys, s.votes, claims, d), w)
    {
      NotInBallot(keys, s.votes, claims, d, w);
    }
  }

  /** A bonded validator without a vote abstains - unless no target is left, when it succeeds. */
  lemma AbsentVerdict(s: Store, p: Params, env: Env, w: Addr)
    requires Bonded(env.powerStore, w) && w !in s.votes
    ensures VerdictFor(s, p, env, w) == if ReducedTargets(s, p, env) == map[] then Success else Abstain
  {
    hide PassingOf, BelowOf, RefOf, Voted, WinsPassing, WinsBelow, Bonded, FinalClaims;
    var passing, below, ref := PassingOf(s, p, env), BelowOf(s, p, env), RefOf(s, p, env);
    VerdictIs(s, p, env, w);
    AbsentFromAll(s, p, env, w);
    ReferencePasses(s, p, env);
    if ref != "" {
      NoWinsPassing(SortedSeq(passing.Keys), passing, ref, w, p, env);
    }
    NoWinsBelow(SortedSeq(below.Keys), below, w, p, env);
  }

  // ----- success against being in band on every target left

  function CountOf(w: Addr): Vote -> int { (v: Vote) => if v.voter == w then 1 else 0 }

  lemma {:induction false} WinsAtMostVotes(b: ExchangeRateBallot, w: Addr, band: Band)
    ensures Wins(b, w, band) <= Sum(CountOf(w), b)
    decreases |b|
  {
    if b != [] {
      WinsAtMostVotes(b[..|b| - 1], w, band);
    }
  }

  lemma {:induction false} SeenCount(f: Vote -> Vote, b: ExchangeRateBallot, w: Addr)
    requires forall v :: f(v).voter == v.voter
    ensures Sum(CountOf(w), MapVotes(f, b)) == Sum(CountOf(w), b)
    decreases |b|
  {
    if b != [] {
      SeenCount(f, b[..|b| - 1], w);
      assert MapVotes(f, b)[..|b| - 1] == MapVotes(f, b[..|b| - 1]);
    }
  }

  lemma {:induction false} OneVoteEach(keys: seq<Addr>, votes: Votes, claims: Claims, d: string, w: Addr)
    requires Ascending(keys) && (forall k | k in keys :: k in votes) && ListsOnce(votes)
    ensures Sum(CountOf(w), BallotFor(keys, votes, claims, d)) <= if w in KeySet(keys) then 1 else 0
    decreases |keys|
  {
    hide Ascending, KeySet, VotesBy;
    if keys == [] {
      NoKeys();
    } else {
      var init, last := keys[..|keys| - 1], keys[|keys| - 1];
      OneKeyMore(keys);
      OneVoteEach(init, votes, claims, d, w);
      SumSplit(CountOf(w), BallotFor(init, votes, claims, d), VotesBy(last, votes, claims, d));
      OneVoteOf(last, votes, claims, d, w);
    }
  }

  lemma OneVoteOf(k: Addr, votes: Votes, claims: Claims, d: string, w: Addr)
    requires k in votes && DistinctDenoms(votes[k].tuples)
    ensures Sum(CountOf(w), VotesBy(k, votes, claims, d)) <= if k == w then 1 else 0
  {
    hide TupleVotes;
    if votes[k].voter in claims {
      var power := claims[votes[k].voter].power;
      var b := VotesBy(k, votes, claims, d);
      AtMostOne(votes[k].tuples, k, power, d);
      TupleVoters(votes[k].tuples, k, power, d);
      if b != [] {
        assert b == [b[0]] && b[0] in b;
        SumOne(CountOf(w), b[0]);
      }
    }
  }

  lemma AtMostOneWin(s: Store, p: Params, env: Env, w: Addr, d: string)
    requires ListsOnce(s.votes) && d in PassingOf(s, p, env) && RefOf(s, p, env) in PassingOf(s, p, env)
    ensures BallotWins(Seen(PassingOf(s, p, env), RefOf(s, p, env), d, env.overflows), w, p, env) <= 1
  {
    hide BandOf, ToMap, SortOf, BallotFor, ListsOnce, RefOf, ClaimsOf, Passes, Wins;
    var claims, passing, ref := ClaimsOf(env.powerStore), PassingOf(s, p, env), RefOf(s, p, env);
    var b := Seen(passing, ref, d, env.overflows);
    WinsAtMostVotes(b, w, BandOf(b, p.rewardBand, env.root));
    OneVoteEach(SortedSeq(s.votes.Keys), s.votes, claims, d, w);
    if d != ref {
      SeenCount(Cross(ToMap(SortOf(passing[ref])), env.overflows), passing[d], w);
    }
  }

  /** `w` is in band on the ballot of `d`, which passed and was tallied against a reference. */
  ghost predicate WonOn(s: Store, p: Params, env: Env, w: Addr, d: string) {
    var passing, ref := PassingOf(s, p, env), RefOf(s, p, env);
    ref != "" && ref in passing && d in passing && BallotWins(Seen(passing, ref, d, env.overflows), w, p, env) > 0
  }

  ghost function WonTargets(s: Store, p: Params, env: Env, w: Addr): set<string> {
    set d | d in PassingOf(s, p, env) && WonOn(s, p, env, w, d)
  }

  /** `w` is in band on each target that is left. */
  ghost predicate InBandEverywhere(s: Store, p: Params, env: Env, w: Addr) {
    forall d | d in ReducedTargets(s, p, env) :: WonOn(s, p, env, w, d)
  }

  /** Wins that stand for no target left: those on failing ballots, and second wins on one ballot. */
  ghost function SpareWins(s: Store, p: Params, env: Env, w: Addr): int {
    BelowWins(s, p, env, w) + PassingWins(s, p, env, w) - |WonTargets(s, p, env, w)|
  }

  ghost function WonAmong(ds: seq<string>, s: Store, p: Params, env: Env, w: Addr): set<string> {
    set d | d in ds && WonOn(s, p, env, w, d)
  }

  lemma WonAmongStep(ds: seq<string>, s: Store, p: Params, env: Env, w: Addr)
    requires Ascending(ds) && ds != []
    ensures var init, d := ds[..|ds| - 1], ds[|ds| - 1];
            && WonAmong(ds, s, p, env, w) == WonAmong(init, s, p, env, w) + (if WonOn(s, p, env, w, d) then {d} else {})
            && d !in WonAmong(init, s, p, env, w) && Ascending(init)
  {
    hide WonOn;
    LastIsNew(ds);
    assert ds == ds[..|ds| - 1] + [ds[|ds| - 1]];
  }

  lemma NoneWon(s: Store, p: Params, env: Env, w: Addr)
    ensures WonAmong([], s, p, env, w) == {}
  {
  }

  /** Each ballot won gives at least one win, and exactly one where no vote lists a denom twice. */
  lemma {:induction false} WinsCountDenoms(ds: seq<string>, s: Store, p: Params, env: Env, w: Addr)
    requires RefOf(s, p, env) != "" && RefOf(s, p, env) in PassingOf(s, p, env)
    requires Ascending(ds) && forall d | d in ds :: d in PassingOf(s, p, env)
    ensures var n, won :=
        WinsPassing(ds, PassingOf(s, p, env), RefOf(s, p, env), w, p, env), WonAmong(ds, s, p, env, w);
            n >= |won| && (ListsOnce(s.votes) ==> n == |won|)
    decreases |ds|
  {
    hide BallotWins, Seen, PassingOf, RefOf, ListsOnce, WonAmong, Ascending;
    if ds == [] {
      NoneWon(s, p, env, w);
    } else {
      WonAmongStep(ds, s, p, env, w);
      WinsCountDenoms(ds[..|ds| - 1], s, p, env, w);
      if ListsOnce(s.votes) {
        AtMostOneWin(s, p, env, w, ds[|ds| - 1]);
      }
    }
  }

  lemma PassingAreLeft(s: Store, p: Params, env: Env)
    ensures PassingOf(s, p, env).Keys <= ReducedTargets(s, p, env).Keys
  {
    hide Grouped, Passes;
  }

  /** Wins on passing ballots against the targets won. */
  lemma PassingWinsAre(s: Store, p: Params, env: Env, w: Addr)
    ensures WonTargets(s, p, env, w) <= ReducedTargets(s, p, env).Keys
    ensures PassingWins(s, p, env, w) >= |WonTargets(s, p, env, w)|
    ensures ListsOnce(s.votes) ==> PassingWins(s, p, env, w) == |WonTargets(s, p, env, w)|
    ensures InBandEverywhere(s, p, env, w) <==> WonTargets(s, p, env, w) == ReducedTargets(s, p, env).Keys
  {
    hide WinsPassing, WonOn, PassingOf, BelowOf, RefOf, ListsOnce, ReducedTargets;
    var passing, ref := PassingOf(s, p, env), RefOf(s, p, env);
    var ds := SortedSeq(passing.Keys);
    ReferencePasses(s, p, env);
    PassingAreLeft(s, p, env);
    WonMeans(s, p, env, w);
    if ref != "" {
      WinsCountDenoms(ds, s, p, env, w);
      assert WonAmong(ds, s, p, env, w) == WonTargets(s, p, env, w);
    } else {
      assert WonTargets(s, p, env, w) == {};
    }
  }

  lemma WonMeans(s: Store, p: Params, env: Env, w: Addr)
    ensures forall d | WonOn(s, p, env, w, d) :: d in PassingOf(s, p, env) && RefOf(s, p, env) != ""
  {
  }

  /** Success against being in band on every target left, for every state. A validator succeeds exactly
      when its spare wins are as many as the targets it did not win. So without spare wins success is
      being in band everywhere; a spare win turns an in-band validator's success into a miss, and
      stands in for a target another was not in band on. */
  lemma SuccessAgainstInBand(s: Store, p: Params, env: Env, w: Addr)
    requires Bonded(env.powerStore, w)
    ensures SpareWins(s, p, env, w) >= 0
    ensures VerdictFor(s, p, env, w) == Success <==>
              SpareWins(s, p, env, w) == |ReducedTargets(s, p, env).Keys - WonTargets(s, p, env, w)|
    ensures SpareWins(s, p, env, w) == 0 ==> (VerdictFor(s, p, env, w) == Success <==> InBandEverywhere(s, p, env, w))
    ensures InBandEverywhere(s, p, env, w) ==> (VerdictFor(s, p, env, w) == Success <==> SpareWins(s, p, env, w) == 0)
  {
    hide PassingWins, BelowWins, InBandEverywhere, TookPart, ReducedTargets, FinalClaims, Bonded, VerdictFor,
         WonTargets;
    VerdictIs(s, p, env, w);
    PassingWinsAre(s, p, env, w);
    var left, won := ReducedTargets(s, p, env).Keys, WonTargets(s, p, env, w);
    assert left == won + (left - won);
    assert |left| == |won| + |left - won| && |ReducedTargets(s, p, env)| == |left|;
    assert |left - won| == 0 <==> left - won == {};
  }

  /** Where no vote lists a denom twice, the spare wins are those on failing ballots. */
  lemma SpareWinsAreBelow(s: Store, p: Params, env: Env, w: Addr)
    requires ListsOnce(s.votes)
    ensures SpareWins(s, p, env, w) == BelowWins(s, p, env, w)
  {
    hide PassingWins, BelowWins, WonTargets, ListsOnce;
    PassingWinsAre(s, p, env, w);
  }
}
