/** Grouping votes into ballots loses none, invents none, and never counts more power than is claimed. */
module OracleGrouping {
  import opened Ordering
  import opened OracleBallot
  import opened OracleTally
  import opened OracleState

  /** Tuple `i` of the vote stored under `k` counts for `denom`, and becomes the vote `v`. */
  predicate IsSource(votes: Votes, claims: Claims, denom: string, v: Vote, k: Addr, i: nat) {
    && k in votes && votes[k].voter in claims && i < |votes[k].tuples|
    && var t := votes[k].tuples[i];
    && t.denom == denom && v.denom == denom && v.rate == t.rate && v.voter == k
    && v.power == (if t.rate > 0 then claims[votes[k].voter].power else 0)
  }

  /** All places in the store that `v` can have come from. */
  function Sources(votes: Votes, claims: Claims, denom: string, v: Vote): set<(Addr, nat)> {
    set k, i | k in votes && 0 <= i < |votes[k].tuples| && IsSource(votes, claims, denom, v, k, i) :: (k, i)
  }

  function TupleSources(ts: seq<Tuple>, n: nat, voter: Addr, power: nat, denom: string, v: Vote): set<(Addr, nat)>
    requires n <= |ts|
  {
    set i | 0 <= i < n && ts[i].denom == denom && AsVote(ts[i], voter, power) == v :: (voter, i)
  }

  lemma {:induction false} TuplesCount(ts: seq<Tuple>, n: nat, voter: Addr, power: nat, denom: string, v: Vote)
    requires n <= |ts|
    ensures multiset(TupleVotes(ts[..n], voter, power, denom))[v] == |TupleSources(ts, n, voter, power, denom, v)|
    decreases n
  {
    hide AsVote, TupleSources;
    if n == 0 {
      NoTupleSources(ts, voter, power, denom, v);
    } else {
      TuplesCount(ts, n - 1, voter, power, denom, v);
      assert ts[..n][..n - 1] == ts[..n - 1];
      TupleSourcesStep(ts, n, voter, power, denom, v);
    }
  }

  lemma NoTupleSources(ts: seq<Tuple>, voter: Addr, power: nat, denom: string, v: Vote)
    ensures TupleSources(ts, 0, voter, power, denom, v) == {}
  {
  }

  lemma TupleSourcesStep(ts: seq<Tuple>, n: nat, voter: Addr, power: nat, denom: string, v: Vote)
    requires 0 < n <= |ts|
    ensures var before, after :=
        TupleSources(ts, n - 1, voter, power, denom, v), TupleSources(ts, n, voter, power, denom, v);
            && after == before + (if ts[n - 1].denom == denom && AsVote(ts[n - 1], voter, power) == v
                                  then {(voter, n - 1)} else {})
            && (voter, n - 1) !in before
  {
    hide AsVote;
  }

  function SourcesUnder(keys: set<Addr>, votes: Votes, claims: Claims, denom: string, v: Vote): set<(Addr, nat)> {
    set s | s in Sources(votes, claims, denom, v) && s.0 in keys
  }

  lemma SourcesOfOne(k: Addr, votes: Votes, claims: Claims, denom: string, v: Vote)
    requires k in votes
    ensures multiset(VotesBy(k, votes, claims, denom))[v] == |SourcesUnder({k}, votes, claims, denom, v)|
  {
    hide TupleVotes;
    var under := SourcesUnder({k}, votes, claims, denom, v);
    if votes[k].voter in claims {
      var ts, power := votes[k].tuples, claims[votes[k].voter].power;
      TuplesCount(ts, |ts|, k, power, denom, v);
      assert ts[..|ts|] == ts;
      assert under == TupleSources(ts, |ts|, k, power, denom, v);
    } else {
      assert under == {};
    }
  }

  lemma {:induction false} WalkCounts(keys: seq<Addr>, votes: Votes, claims: Claims, denom: string, v: Vote)
    requires Ascending(keys) && forall k | k in keys :: k in votes
    ensures multiset(BallotFor(keys, votes, claims, denom))[v] == |SourcesUnder(KeySet(keys), votes, claims, denom, v)|
    decreases |keys|
  {
    hide VotesBy, Sources, Ascending, KeySet;
    var under := SourcesUnder(KeySet(keys), votes, claims, denom, v);
    if keys == [] {
      NoKeys();
      assert under == {};
    } else {
      var init, last := keys[..|keys| - 1], keys[|keys| - 1];
      OneKeyMore(keys);
      WalkCounts(init, votes, claims, denom, v);
      SourcesOfOne(last, votes, claims, denom, v);
      var before, own := SourcesUnder(KeySet(init), votes, claims, denom, v),
          SourcesUnder({last}, votes, claims, denom, v);
      assert under == before + own && before !! own;
    }
  }

  /** A partition: a vote stands in a denom's ballot as often as the claimants' tuples yield it. */
  lemma GroupingIsPartition(votes: Votes, claims: Claims, denom: string, v: Vote)
    ensures multiset(BallotIn(Grouped(votes, claims), denom))[v] == |Sources(votes, claims, denom, v)|
  {
    hide BallotFor, IsSource;
    var keys := SortedSeq(votes.Keys);
    WalkCounts(keys, votes, claims, denom, v);
    assert SourcesUnder(KeySet(keys), votes, claims, denom, v) == Sources(votes, claims, denom, v);
    assert v !in multiset(BallotFor(keys, votes, claims, denom)) || denom in DenomsIn(votes) by {
      if v in multiset(BallotFor(keys, votes, claims, denom)) {
        ghost var s :| s in Sources(votes, claims, denom, v);
        SourceDenom(votes, claims, denom, v, s.0, s.1);
      }
    }
  }

  lemma SourceDenom(votes: Votes, claims: Claims, denom: string, v: Vote, k: Addr, i: nat)
    requires IsSource(votes, claims, denom, v, k, i)
    ensures denom in DenomsIn(votes)
  {
    assert votes[k].tuples[i].denom == denom;
  }

  lemma {:induction false} TupleVoters(ts: seq<Tuple>, voter: Addr, power: nat, d: string)
    ensures forall v | v in TupleVotes(ts, voter, power, d) :: v.voter == voter
    decreases |ts|
  {
    if ts != [] {
      TupleVoters(ts[..|ts| - 1], voter, power, d);
    }
  }

  // ----- power

  /** No vote lists a denom twice; the message server refuses those that do. */
  predicate ListsOnce(votes: Votes) {
    forall k | k in votes :: DistinctDenoms(votes[k].tuples)
  }

  predicate DistinctDenoms(ts: seq<Tuple>) {
    forall i, j | 0 <= i < j < |ts| :: ts[i].denom != ts[j].denom
  }

  lemma {:induction false} AtMostOne(ts: seq<Tuple>, voter: Addr, power: nat, denom: string)
    requires DistinctDenoms(ts)
    ensures var b := TupleVotes(ts, voter, power, denom);
            |b| <= 1 && (b != [] ==> b[0].power <= power && exists i :: 0 <= i < |ts| && ts[i].denom == denom)
    decreases |ts|
  {
    if ts != [] {
      var n, init := |ts| - 1, ts[..|ts| - 1];
      AtMostOne(init, voter, power, denom);
      if TupleVotes(init, voter, power, denom) != [] {
        var i :| 0 <= i < n && init[i].denom == denom;
        assert ts[i].denom == denom;
      } else if ts[n].denom == denom {
        assert ts[|ts| - 1].denom == denom;
      }
    }
  }

  ghost function Powers(claims: Claims, keys: set<Addr>): map<string, int> {
    map k | k in claims && k in keys :: claims[k].power as int
  }

  lemma OnePower(k: Addr, votes: Votes, claims: Claims, denom: string)
    requires k in votes && votes[k].voter == k && DistinctDenoms(votes[k].tuples)
    ensures Power(VotesBy(k, votes, claims, denom)) <= if k in claims then claims[k].power else 0
  {
    hide TupleVotes;
    if k in claims {
      var b := VotesBy(k, votes, claims, denom);
      AtMostOne(votes[k].tuples, k, claims[k].power, denom);
      if b != [] {
        assert b == [b[0]];
        SumOne(VotePower, b[0]);
      }
    }
  }

  lemma {:induction false} WalkPower(keys: seq<Addr>, votes: Votes, claims: Claims, denom: string)
    requires Ascending(keys) && (forall k | k in keys :: k in votes) && WellKeyed(votes) && ListsOnce(votes)
    ensures Power(BallotFor(keys, votes, claims, denom)) <= Total(Powers(claims, KeySet(keys)))
    decreases |keys|
  {
    hide VotesBy, Total, Ascending, KeySet;
    var after := Powers(claims, KeySet(keys));
    if keys == [] {
      NoKeys();
      assert after == map[];
      EmptyTotal();
    } else {
      var init, last := keys[..|keys| - 1], keys[|keys| - 1];
      var before := Powers(claims, KeySet(init));
      OneKeyMore(keys);
      WalkPower(init, votes, claims, denom);
      OnePower(last, votes, claims, denom);
      SumSplit(VotePower, BallotFor(init, votes, claims, denom), VotesBy(last, votes, claims, denom));
      if last in claims {
        TotalRemove(after, last);
        assert after - {last} == before;
      } else {
        assert after == before;
      }
    }
  }

  lemma EmptyTotal()
    ensures Total(map[]) == 0
  {
  }

  lemma {:induction false} PartOfTotal(claims: Claims, keys: set<Addr>, rest: set<Addr>)
    ensures Total(Powers(claims, keys)) <= Total(Powers(claims, keys + rest))
    decreases rest
  {
    hide Total;
    if rest == {} {
      assert keys + rest == keys;
    } else {
      var x :| x in rest;
      var less, all := Powers(claims, keys + (rest - {x})), Powers(claims, keys + rest);
      PartOfTotal(claims, keys, rest - {x});
      if x in all && x !in less {
        TotalRemove(all, x);
        assert all - {x} == less;
      } else {
        assert all == less;
      }
    }
  }

  /** No ballot carries more power than all claims together. */
  lemma BallotPowerIsBounded(votes: Votes, claims: Claims, denom: string)
    requires WellKeyed(votes) && ListsOnce(votes) && denom in Grouped(votes, claims)
    ensures Power(Grouped(votes, claims)[denom]) <= Total(Powers(claims, claims.Keys))
  {
    hide BallotFor, Total, Power, WellKeyed, ListsOnce;
    var keys := SortedSeq(votes.Keys);
    WalkPower(keys, votes, claims, denom);
    var ks := KeySet(keys);
    PartOfTotal(claims, ks, claims.Keys);
    assert Powers(claims, ks + claims.Keys) == Powers(claims, claims.Keys);
  }
}
