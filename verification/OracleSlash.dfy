/** The end of a slash window: who is slashed, which counters go, and when the walk breaks off. */
module OracleSlash {
  import opened Wrappers
  import opened Decimal
  import opened Ordering
  import opened OracleBallot
  import opened OracleState

  /** A call to the staking module. */
  datatype SlashCall = SlashCall(operator: Addr, distributionHeight: int, power: nat, fraction: Dec)

  /** `Panicked`: a validator with too low a rate is unknown to staking; `Refused`: a slash fails. */
  datatype Outcome = Done | Refused | Panicked

  /** The staking side: validators by address, and those for which a slash returns an error. */
  datatype Staking = Staking(validators: map<Addr, Validator>, refusing: set<Addr>)

  const VALIDATOR_UPDATE_DELAY := 1

  function TotalVotes(c: Counter): nat { c.success + c.abstain + c.miss }

  function ValidVoteRate(c: Counter): Dec
    requires TotalVotes(c) > 0
  {
    QuoInt64(c.success * ONE, TotalVotes(c))
  }

  predicate Offends(c: Counter, minValidPerWindow: Dec) { TotalVotes(c) > 0 && ValidVoteRate(c) < minValidPerWindow }

  /** Cutting the rate to eighteen digits never changes the decision. */
  lemma RateDecisionExact(c: Counter, minValidPerWindow: Dec)
    requires TotalVotes(c) > 0
    ensures Offends(c, minValidPerWindow) <==> c.success * ONE < minValidPerWindow * TotalVotes(c)
  {
    var a, t, m := c.success * ONE, TotalVotes(c), minValidPerWindow;
    var q := a / t;
    assert ValidVoteRate(c) == q;
    assert q * t <= a < q * t + t;
    if q < m {
      ScaleUp(q + 1, m, t);
    } else {
      ScaleUp(m, q, t);
    }
  }

  /** What one entry of the walk does, `calls` and `counters` being the state so far. */
  datatype Walk = Walk(outcome: Outcome, calls: seq<SlashCall>, counters: Counters)

  function CallFor(k: Addr, v: Validator, p: Params, height: nat): SlashCall {
    SlashCall(k, height - VALIDATOR_UPDATE_DELAY - 1, v.power, p.slashFraction)
  }

  predicate Slashable(k: Addr, staking: Staking) {
    k in staking.validators && staking.validators[k].bonded && !staking.validators[k].jailed
  }

  function Visit(w: Walk, k: Addr, c: Counter, p: Params, staking: Staking, height: nat): Walk {
    if TotalVotes(c) == 0 then w
    else if !Offends(c, p.minValidPerWindow) then w.(counters := w.counters - {k})
    else if k !in staking.validators then w.(outcome := Panicked)
    else if !Slashable(k, staking) then w.(counters := w.counters - {k})
    else if k in staking.refusing then w.(outcome := Refused)
    else w.(calls := w.calls + [CallFor(k, staking.validators[k], p, height)], counters := w.counters - {k})
  }

  /** The walk over the store's keys; it stops at the first entry that breaks it off. */
  function WalkOver(ks: seq<Addr>, counters: Counters, p: Params, staking: Staking, height: nat): Walk
    requires forall k | k in ks :: k in counters
  {
    if ks == [] then Walk(Done, [], counters)
    else
      var w, k := WalkOver(ks[..|ks| - 1], counters, p, staking, height), ks[|ks| - 1];
      if w.outcome != Done then w else Visit(w, k, counters[k], p, staking, height)
  }

  ghost function SlashAndReset(counters: Counters, p: Params, staking: Staking, height: nat): Walk {
    WalkOver(SortedSeq(counters.Keys), counters, p, staking, height)
  }

  /** The offenders the walk can deal with: known to staking, and not refused if they are to be slashed. */
  predicate Manageable(k: Addr, c: Counter, p: Params, staking: Staking) {
    Offends(c, p.minValidPerWindow) ==> k in staking.validators && (Slashable(k, staking) ==> k !in staking.refusing)
  }

  predicate MustSlash(k: Addr, c: Counter, p: Params, staking: Staking) {
    Offends(c, p.minValidPerWindow) && Slashable(k, staking)
  }

  /** How often `k` is slashed. */
  function Calls(calls: seq<SlashCall>, k: Addr): nat {
    if calls == [] then 0 else Calls(calls[..|calls| - 1], k) + if calls[|calls| - 1].operator == k then 1 else 0
  }

  lemma CallsStep(calls: seq<SlashCall>, call: SlashCall, k: Addr)
    ensures Calls(calls + [call], k) == Calls(calls, k) + if call.operator == k then 1 else 0
  {
    assert (calls + [call])[..|calls|] == calls;
  }

  /** One key's share of a finished walk over `ks`. */
  ghost predicate Settled(w: Walk, ks: seq<Addr>, counters: Counters, p: Params, staking: Staking, height: nat, k: Addr)
  {
    && Calls(w.calls, k) == (if k in ks && k in counters && MustSlash(k, counters[k], p, staking) then 1 else 0)
    && (k in w.counters <==> k in counters && !(k in ks && TotalVotes(counters[k]) > 0))
    && (k in w.counters ==> w.counters[k] == counters[k])
  }

  lemma {:induction false} WalkSettles(ks: seq<Addr>, counters: Counters, p: Params, staking: Staking, height: nat,
          k: Addr)
    requires (forall x | x in ks :: x in counters) && Ascending(ks)
    ensures var w := WalkOver(ks, counters, p, staking, height);
            && (w.outcome == Done <==> forall x | x in ks :: Manageable(x, counters[x], p, staking))
            && (w.outcome == Done ==> Settled(w, ks, counters, p, staking, height, k))
    decreases |ks|
  {
    hide Offends, Slashable, TotalVotes;
    if ks != [] {
      var init, last := ks[..|ks| - 1], ks[|ks| - 1];
      WalkSettles(init, counters, p, staking, height, k);
      assert ks == init + [last];
      LastIsNew(ks);
      var before := WalkOver(init, counters, p, staking, height);
      OffenderHasVotes(counters[last], p);
      if last in staking.validators {
        CallsStep(before.calls, CallFor(last, staking.validators[last], p, height), k);
      } else {
        UnknownNotSlashable(last, staking);
      }
    }
  }

  lemma OffenderHasVotes(c: Counter, p: Params)
    ensures Offends(c, p.minValidPerWindow) ==> TotalVotes(c) > 0
  {
  }

  lemma UnknownNotSlashable(k: Addr, staking: Staking)
    requires k !in staking.validators
    ensures !Slashable(k, staking)
  {
  }

  lemma {:induction false} WalkCalls(ks: seq<Addr>, counters: Counters, p: Params, staking: Staking, height: nat)
    requires forall x | x in ks :: x in counters
    ensures forall call | call in WalkOver(ks, counters, p, staking, height).calls ::
              call.operator in staking.validators
                  && call == CallFor(call.operator, staking.validators[call.operator], p, height)
    decreases |ks|
  {
    if ks != [] {
      WalkCalls(ks[..|ks| - 1], counters, p, staking, height);
    }
  }

  /** The validator's success rate over all its votes is below the minimum. */
  predicate TooFewSuccesses(c: Counter, minValidPerWindow: Dec) {
    var votes := c.success + c.abstain + c.miss;
    votes > 0 && c.success * ONE < minValidPerWindow * votes
  }

  /** It is known to staking as bonded and not jailed. */
  predicate Reachable(k: Addr, staking: Staking) {
    k in staking.validators && staking.validators[k].bonded && !staking.validators[k].jailed
  }

  /** Such a validator is slashed for too few successes. */
  predicate Deserves(k: Addr, c: Counter, p: Params, staking: Staking) {
    TooFewSuccesses(c, p.minValidPerWindow) && Reachable(k, staking)
  }

  lemma OffendsMeans(c: Counter, minValidPerWindow: Dec)
    ensures Offends(c, minValidPerWindow) <==> TooFewSuccesses(c, minValidPerWindow)
    ensures TotalVotes(c) == c.success + c.abstain + c.miss
  {
    hide ValidVoteRate;
    if TotalVotes(c) > 0 {
      RateDecisionExact(c, minValidPerWindow);
    }
  }

  /** The walk finishes exactly when every validator with too few successes is known to staking and no
      slash is refused. Then each of them that is bonded and not jailed has been slashed exactly once,
      by the slash fraction, for its own power, two blocks back; nobody else has; and exactly the
      counters without a vote are left. */
  lemma SlashingIsExact(counters: Counters, p: Params, staking: Staking, height: nat)
    ensures var w := SlashAndReset(counters, p, staking, height);
            && (w.outcome == Done <==>
                  forall k | k in counters && TooFewSuccesses(counters[k], p.minValidPerWindow) ::
                    k in staking.validators && (Reachable(k, staking) ==> k !in staking.refusing))
            && (w.outcome == Done ==>
                  && (forall k ::
                        Calls(w.calls, k)
                        == if k in counters && Deserves(k, counters[k], p, staking) then 1 else 0)
                  && (forall call | call in w.calls ::
                        && call.operator in staking.validators
                        && call.power == staking.validators[call.operator].power
                        && call.fraction == p.slashFraction
                        && call.distributionHeight == height - 2)
                  && w.counters == map k | k in counters && TotalVotes(counters[k]) == 0 :: counters[k])
  {
    hide Offends, TooFewSuccesses, TotalVotes, WalkOver, Calls;
    var ks := SortedSeq(counters.Keys);
    var w := SlashAndReset(counters, p, staking, height);
    forall k | k in counters
      ensures Offends(counters[k], p.minValidPerWindow) <==> TooFewSuccesses(counters[k], p.minValidPerWindow)
    {
      OffendsMeans(counters[k], p.minValidPerWindow);
    }
    WalkSettles(ks, counters, p, staking, height, "");
    WalkCalls(ks, counters, p, staking, height);
    if w.outcome == Done {
      forall k
        ensures Settled(w, ks, counters, p, staking, height, k)
      {
        WalkSettles(ks, counters, p, staking, height, k);
      }
      AllSettled(w, ks, counters, p, staking, height);
    }
  }

  lemma AllSettled(w: Walk, ks: seq<Addr>, counters: Counters, p: Params, staking: Staking, height: nat)
    requires (forall k :: k in ks <==> k in counters) && forall k :: Settled(w, ks, counters, p, staking, height, k)
    ensures forall k :: Calls(w.calls, k) == if k in counters && MustSlash(k, counters[k], p, staking) then 1 else 0
    ensures w.counters == map k | k in counters && TotalVotes(counters[k]) == 0 :: counters[k]
  {
    hide Calls, MustSlash, TotalVotes;
    forall k
      ensures Calls(w.calls, k) == if k in counters && MustSlash(k, counters[k], p, staking) then 1 else 0
      ensures k in w.counters <==> k in counters && TotalVotes(counters[k]) == 0
      ensures k in w.counters ==> w.counters[k] == counters[k]
    {
      assert Settled(w, ks, counters, p, staking, height, k);
    }
  }

  lemma WalkStep(ks: seq<Addr>, i: nat, counters: Counters, p: Params, staking: Staking, height: nat)
    requires i < |ks| && forall x | x in ks :: x in counters
    requires WalkOver(ks[..i], counters, p, staking, height).outcome == Done
    ensures WalkOver(ks[..i + 1], counters, p, staking, height)
            == Visit(WalkOver(ks[..i], counters, p, staking, height), ks[i], counters[ks[i]], p, staking, height)
  {
    hide Visit;
    assert ks[..i + 1][..i] == ks[..i];
  }

  /** A walk that has broken off stays as it is. */
  lemma {:induction false} BrokenWalk(ks: seq<Addr>, n: nat, counters: Counters, p: Params, staking: Staking,
          height: nat)
    requires n <= |ks| && forall x | x in ks :: x in counters
    ensures WalkOver(ks[..n], counters, p, staking, height).outcome != Done ==>
              WalkOver(ks, counters, p, staking, height) == WalkOver(ks[..n], counters, p, staking, height)
    decreases |ks| - n
  {
    hide Visit;
    if n == |ks| {
      assert ks[..n] == ks;
    } else {
      assert ks[..n + 1][..n] == ks[..n];
      BrokenWalk(ks, n + 1, counters, p, staking, height);
    }
  }

  /** The keys walked before the `i`-th are those below it. */
  lemma WalkedBefore(ks: seq<Addr>, i: nat, x: Addr)
    requires Ascending(ks) && i < |ks|
    ensures x in ks[..i] <==> x in ks && Less(x, ks[i])
  {
    if x in ks {
      var j :| 0 <= j < |ks| && ks[j] == x;
      if j < i {
        assert ks[..i][j] == x;
      } else if Less(x, ks[i]) {
        LessIrreflexive(x);
        if j > i {
          LessTransitive(x, ks[i], x);
        }
      }
    }
  }

  /** A walk that breaks off does so at the first validator, in key order, with too few successes that
      staking does not know or whose slash is refused; those before it have been dealt with, and
      nothing has happened to it and those behind. */
  lemma BrokenOffAt(counters: Counters, p: Params, staking: Staking, height: nat) returns (k: Addr)
    requires SlashAndReset(counters, p, staking, height).outcome != Done
    ensures k in counters && TooFewSuccesses(counters[k], p.minValidPerWindow)
    ensures k !in staking.validators || (Reachable(k, staking) && k in staking.refusing)
    ensures var w := SlashAndReset(counters, p, staking, height);
            && w.outcome == (if k !in staking.validators then Panicked else Refused)
            && (forall x ::
                  Calls(w.calls, x)
                  == if x in counters && Less(x, k) && Deserves(x, counters[x], p, staking) then 1 else 0)
            && (forall x :: x in w.counters <==> x in counters && !(Less(x, k) && TotalVotes(counters[x]) > 0))
            && (forall x | x in w.counters :: w.counters[x] == counters[x])
  {
    hide Offends, TooFewSuccesses, TotalVotes, WalkOver, Calls, Visit, Less, Ascending;
    var ks := SortedSeq(counters.Keys);
    var i := FirstUnmanageable(ks, counters, p, staking, height);
    k := ks[i];
    var before := WalkOver(ks[..i], counters, p, staking, height);
    OffendsMeans(counters[k], p.minValidPerWindow);
    WalkStep(ks, i, counters, p, staking, height);
    BrokenWalk(ks, i + 1, counters, p, staking, height);
    BreaksOff(before, k, counters[k], p, staking, height);
    forall x
      ensures Settled(before, ks[..i], counters, p, staking, height, x)
      ensures x in ks[..i] <==> x in counters && Less(x, k)
      ensures x in counters ==> (MustSlash(x, counters[x], p, staking) <==> Deserves(x, counters[x], p, staking))
    {
      PrefixSettles(ks, i, counters, p, staking, height, x);
      if x in counters {
        OffendsMeans(counters[x], p.minValidPerWindow);
      }
    }
  }

  lemma PrefixSettles(ks: seq<Addr>, i: nat, counters: Counters, p: Params, staking: Staking, height: nat, x: Addr)
    requires Ascending(ks) && i < |ks| && (forall k | k in ks :: k in counters)
    requires forall j | 0 <= j < i :: Manageable(ks[j], counters[ks[j]], p, staking)
    ensures WalkOver(ks[..i], counters, p, staking, height).outcome == Done
    ensures Settled(WalkOver(ks[..i], counters, p, staking, height), ks[..i], counters, p, staking, height, x)
    ensures x in ks[..i] <==> x in ks && Less(x, ks[i])
  {
    hide Manageable, WalkOver, Settled, Less;
    WalkSettles(ks[..i], counters, p, staking, height, x);
    WalkedBefore(ks, i, x);
  }

  lemma FirstUnmanageable(ks: seq<Addr>, counters: Counters, p: Params, staking: Staking, height: nat)
    returns (i: nat)
    requires Ascending(ks) && (forall k | k in ks :: k in counters)
    requires WalkOver(ks, counters, p, staking, height).outcome != Done
    ensures i < |ks| && !Manageable(ks[i], counters[ks[i]], p, staking)
    ensures forall j | 0 <= j < i :: Manageable(ks[j], counters[ks[j]], p, staking)
    ensures WalkOver(ks[..i], counters, p, staking, height).outcome == Done
  {
    hide Manageable, WalkOver, Settled;
    WalkSettles(ks, counters, p, staking, height, "");
    i := 0;
    while i < |ks| && Manageable(ks[i], counters[ks[i]], p, staking)
      invariant i <= |ks| && forall j | 0 <= j < i :: Manageable(ks[j], counters[ks[j]], p, staking)
    {
      i := i + 1;
    }
    PrefixSettles(ks, i, counters, p, staking, height, "");
  }

  lemma BreaksOff(w: Walk, k: Addr, c: Counter, p: Params, staking: Staking, height: nat)
    requires !Manageable(k, c, p, staking)
    ensures Visit(w, k, c, p, staking, height) == w.(outcome := if k !in staking.validators then Panicked else Refused)
  {
    hide ValidVoteRate;
  }

  // ----- the whole begin of block

  function WithoutExcessFeeds(s: Store): Store {
    s.(rates := map d | d in s.rates && d in s.targets :: s.rates[d])
  }

  /** A slash window's last block slashes, resets and drops the rates of former targets; an outcome
      other than `Done` fails the block, with the entries walked so far already dealt with. */
  ghost function BeginBlock(s: Store, p: Params, staking: Staking, height: nat): (Outcome, seq<SlashCall>, Store)
    requires p.slashWindow > 0
  {
    if !IsPeriodLastBlock(height, p.slashWindow) then (Done, [], s)
    else
      var w := SlashAndReset(s.counters, p, staking, height);
      if w.outcome != Done then (w.outcome, w.calls, s.(counters := w.counters))
      else (Done, w.calls, WithoutExcessFeeds(s.(counters := w.counters)))
  }

  /** Outside the last block of a slash window nothing happens. In it the walk is made; if it finishes,
      the rates of exactly the stored targets are kept; votes and targets never change. */
  lemma BeginBlockIs(s: Store, p: Params, staking: Staking, height: nat)
    requires p.slashWindow > 0
    ensures var (outcome, calls, after) := BeginBlock(s, p, staking, height);
            var w := SlashAndReset(s.counters, p, staking, height);
            if (height + 1) % p.slashWindow != 0 then outcome == Done && calls == [] && after == s
            else
              && outcome == w.outcome && calls == w.calls && after.counters == w.counters
              && after.votes == s.votes && after.targets == s.targets
              && (outcome != Done ==> after.rates == s.rates)
              && (outcome == Done ==>
                    && after.rates.Keys == s.rates.Keys * s.targets.Keys
                    && forall d | d in after.rates :: after.rates[d] == s.rates[d])
  {
    hide SlashAndReset;
  }
}
