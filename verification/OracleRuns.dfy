/** Whole runs of the oracle: blocks with changing parameters, staking and votes, one after another. */
module OracleRuns {
  import opened Wrappers
  import opened Ordering
  import opened OracleBallot
  import opened OracleTally
  import opened OracleState
  import opened OracleSlash
  import opened OracleGrouping
  import opened OracleVotes
  import opened OracleVerdict
  import opened OracleKeeper

  /** One block: what it brings from outside, the parameters its begin and its end read (governance may
      change them in between), and the vote messages of its transactions. */
  datatype Block = Block(env: Env, staking: Staking, atBegin: Params, atEnd: Params, messages: seq<VoteMsg>)

  /** `Params.Validate`, as far as the periods go. */
  predicate ValidPeriods(p: Params) {
    p.votePeriod > 0 && p.slashWindow >= p.votePeriod && p.slashWindow % p.votePeriod == 0
  }

  predicate ValidBlock(b: Block) { ValidPeriods(b.atBegin) && ValidPeriods(b.atEnd) }

  predicate ValidBlocks(blocks: seq<Block>) { forall i | 0 <= i < |blocks| :: ValidBlock(blocks[i]) }

  ghost function Begun(s: Store, b: Block): Option<Store>
    requires ValidBlock(b)
  {
    var (outcome, _, begun) := BeginBlock(s, b.atBegin, b.staking, b.env.height);
    if outcome == Done then Some(begun) else None
  }

  /** The state the end of the block starts from. */
  ghost function WithVotes(begun: Store, b: Block): Store {
    begun.(votes := Deliver(begun.targets, begun.votes, b.messages))
  }

  ghost function Next(s: Store, b: Block): Option<Store>
    requires ValidBlock(b)
  {
    match Begun(s, b)
    case None => None
    case Some(begun) => Some(EndBlock(WithVotes(begun, b), b.atEnd, b.env))
  }

  /** The state after the blocks; a begin of block that fails stops the chain. */
  ghost function Run(genesis: Store, blocks: seq<Block>): Option<Store>
    requires ValidBlocks(blocks)
  {
    if blocks == [] then Some(genesis)
    else match Run(genesis, blocks[..|blocks| - 1])
      case None => None
      case Some(s) => Next(s, blocks[|blocks| - 1])
  }

  // ----- what counts

  predicate Resets(b: Block)
    requires ValidBlock(b)
  {
    IsPeriodLastBlock(b.env.height, b.atBegin.slashWindow)
  }

  /** The block closes a vote period with `v` bonded. */
  predicate Counts(b: Block, v: Addr)
    requires ValidBlock(b)
  {
    IsPeriodLastBlock(b.env.height, b.atEnd.votePeriod) && Bonded(b.env.powerStore, v)
  }

  /** `from` is the last block that reset the counters, or the first of all if none did. */
  predicate WindowOpens(blocks: seq<Block>, from: nat)
    requires ValidBlocks(blocks)
  {
    && (from == 0 || (from < |blocks| && Resets(blocks[from])))
    && forall i | from < i < |blocks| :: !Resets(blocks[i])
  }

  function Closes(blocks: seq<Block>, from: nat, v: Addr): set<nat>
    requires ValidBlocks(blocks)
  {
    set i: nat | from <= i < |blocks| && Counts(blocks[i], v)
  }

  function Tallied(counters: Counters, v: Addr): nat { TotalVotes(CounterOf(counters, v)) }

  // ----- one block

  lemma CountersMove(counters: Counters, claims: Claims, nTargets: nat, v: Addr)
    ensures Tallied(CountersAfter(counters, claims, nTargets), v) == Tallied(counters, v) + if v in claims then 1 else 0
    ensures v !in claims ==> CounterOf(CountersAfter(counters, claims, nTargets), v) == CounterOf(counters, v)
  {
    hide VerdictOn, Bump, TotalVotes;
    if v in claims {
      BumpCounts(CounterOf(counters, v), VerdictOn(claims[v], nTargets));
    }
  }

  lemma BumpCounts(c: Counter, verdict: Verdict)
    ensures TotalVotes(Bump(c, verdict)) == TotalVotes(c) + 1
  {
  }

  /** A close moves exactly the counters of the bonded validators, each by one. */
  lemma CloseCountsOnce(s: Store, p: Params, env: Env, v: Addr)
    requires WellKeyed(s.votes)
    ensures Tallied(Close(s, p, env).counters, v) == Tallied(s.counters, v) + if Bonded(env.powerStore, v) then 1 else 0
    ensures !Bonded(env.powerStore, v) ==> CounterOf(Close(s, p, env).counters, v) == CounterOf(s.counters, v)
  {
    hide *;
    FinalClaimsAreKeyed(s, p, env);
    ClaimsOfBonded(env.powerStore, v);
    CountersMove(s.counters, FinalClaims(s, p, env), |ReducedTargets(s, p, env)|, v);
    ClosedState(s, p, env);
  }

  lemma ClosedState(s: Store, p: Params, env: Env)
    ensures Close(s, p, env).counters == CountersAfter(s.counters, FinalClaims(s, p, env), |ReducedTargets(s, p, env)|)
    ensures Close(s, p, env).votes == map[]
  {
    hide FinalClaims, PassingOf, RefOf, RatesAfter, ReducedTargets, TargetsAfter, CountersAfter;
  }

  lemma ResetClears(counters: Counters, p: Params, staking: Staking, height: nat, v: Addr)
    requires SlashAndReset(counters, p, staking, height).outcome == Done
    ensures Tallied(SlashAndReset(counters, p, staking, height).counters, v) == 0
  {
    hide SlashAndReset, Calls, MustSlash, Manageable;
    SlashingIsExact(counters, p, staking, height);
  }

  lemma BeginCounts(s: Store, b: Block, v: Addr)
    requires ValidBlock(b) && Begun(s, b).Some?
    ensures Tallied(Begun(s, b).value.counters, v) == if Resets(b) then 0 else Tallied(s.counters, v)
    ensures Begun(s, b).value.votes == s.votes
  {
    hide SlashAndReset, Tallied;
    if Resets(b) {
      ResetClears(s.counters, b.atBegin, b.staking, b.env.height, v);
    }
  }

  lemma EndCounts(s: Store, p: Params, env: Env, v: Addr)
    requires WellKeyed(s.votes) && p.votePeriod > 0
    ensures Tallied(EndBlock(s, p, env).counters, v)
            == Tallied(s.counters, v)
               + if IsPeriodLastBlock(env.height, p.votePeriod) && Bonded(env.powerStore, v) then 1 else 0
    ensures WellKeyed(EndBlock(s, p, env).votes)
  {
    hide Close, Tallied, Bonded;
    ClosedState(s, p, env);
    CloseCountsOnce(s, p, env, v);
  }

  lemma BlockCounts(s: Store, b: Block, v: Addr)
    requires ValidBlock(b) && WellKeyed(s.votes) && Next(s, b).Some?
    ensures Tallied(Next(s, b).value.counters, v)
            == (if Resets(b) then 0 else Tallied(s.counters, v)) + if Counts(b, v) then 1 else 0
    ensures WellKeyed(Next(s, b).value.votes)
  {
    hide Begun, EndBlock, Tallied, Bonded, Resets, IsPeriodLastBlock;
    BeginCounts(s, b, v);
    var begun := Begun(s, b).value;
    DeliverKeepsSound(begun.targets, begun.votes, b.messages);
    EndCounts(WithVotes(begun, b), b.atEnd, b.env, v);
  }

  // ----- conservation

  lemma {:induction false} VotesStayKeyed(genesis: Store, blocks: seq<Block>)
    requires ValidBlocks(blocks) && WellKeyed(genesis.votes) && Run(genesis, blocks).Some?
    ensures WellKeyed(Run(genesis, blocks).value.votes)
    decreases |blocks|
  {
    hide Next, WellKeyed;
    if blocks != [] {
      var init := blocks[..|blocks| - 1];
      VotesStayKeyed(genesis, init);
      BlockCounts(Run(genesis, init).value, blocks[|blocks| - 1], "");
    }
  }

  /** The block closes a vote period. */
  predicate ClosesPeriod(b: Block)
    requires ValidBlock(b)
  {
    IsPeriodLastBlock(b.env.height, b.atEnd.votePeriod)
  }

  lemma BlockKeepsSound(s: Store, b: Block)
    requires ValidBlock(b) && Begun(s, b).Some?
    ensures var s' := WithVotes(Begun(s, b).value, b);
            SoundVotes(s.votes, s.targets) ==> SoundVotes(s'.votes, s'.targets)
    ensures var s' := Next(s, b).value;
            SoundVotes(s.votes, s.targets) || ClosesPeriod(b) ==> SoundVotes(s'.votes, s'.targets)
  {
    hide SlashAndReset, Close, SoundVotes;
    var begun := Begun(s, b).value;
    DeliverKeepsSound(begun.targets, begun.votes, b.messages);
    ClosedState(WithVotes(begun, b), b.atEnd, b.env);
    NoVotesAreSound(Close(WithVotes(begun, b), b.atEnd, b.env).targets);
  }

  lemma NoVotesAreSound(targets: map<string, Denom>)
    ensures SoundVotes(map[], targets)
  {
  }

  /** In every state reached from a sound genesis, or from any genesis once a period has closed, each
      vote is stored under its voter, lists each denom once, at a positive rate, and targets only. */
  lemma {:induction false} VotesAreSound(genesis: Store, blocks: seq<Block>)
    requires ValidBlocks(blocks) && Run(genesis, blocks).Some?
    requires SoundVotes(genesis.votes, genesis.targets) || exists i :: 0 <= i < |blocks| && ClosesPeriod(blocks[i])
    ensures var s := Run(genesis, blocks).value;
            SoundVotes(s.votes, s.targets)
    decreases |blocks|
  {
    hide Begun, SoundVotes, ClosesPeriod, ValidBlock;
    if blocks != [] {
      var init, last := blocks[..|blocks| - 1], blocks[|blocks| - 1];
      BlockKeepsSound(Run(genesis, init).value, last);
      if !ClosesPeriod(last) {
        assert forall i | 0 <= i < |init| :: init[i] == blocks[i];
        VotesAreSound(genesis, init);
      }
    }
  }

  /** So at every close of such a run no ballot outweighs the claims, and a bonded validator's success
      is decided by its wins on failing ballots alone. */
  lemma ReachableClose(genesis: Store, blocks: seq<Block>, b: Block, w: Addr, d: string)
    requires ValidBlocks(blocks) && Run(genesis, blocks).Some? && ValidBlock(b)
        && Begun(Run(genesis, blocks).value, b).Some?
    requires SoundVotes(genesis.votes, genesis.targets) || exists i :: 0 <= i < |blocks| && ClosesPeriod(blocks[i])
    ensures var s := WithVotes(Begun(Run(genesis, blocks).value, b).value, b);
            var claims := ClaimsOf(b.env.powerStore);
            d in Grouped(s.votes, claims) ==>
              d in s.targets && Power(Grouped(s.votes, claims)[d]) <= Total(Powers(claims, claims.Keys))
    ensures var s, p, env := WithVotes(Begun(Run(genesis, blocks).value, b).value, b), b.atEnd, b.env;
            Bonded(env.powerStore, w) ==>
              && (BelowWins(s, p, env, w) == 0
                  ==> (VerdictFor(s, p, env, w) == Success <==> InBandEverywhere(s, p, env, w)))
              && (InBandEverywhere(s, p, env, w)
                  ==> (VerdictFor(s, p, env, w) == Success <==> BelowWins(s, p, env, w) == 0))
  {
    hide *;
    VotesAreSound(genesis, blocks);
    BlockKeepsSound(Run(genesis, blocks).value, b);
    SoundClose(WithVotes(Begun(Run(genesis, blocks).value, b).value, b), b.atEnd, b.env, w, d);
  }

  lemma SoundClose(s: Store, p: Params, env: Env, w: Addr, d: string)
    requires SoundVotes(s.votes, s.targets)
    ensures var claims := ClaimsOf(env.powerStore);
            d in Grouped(s.votes, claims) ==>
              d in s.targets && Power(Grouped(s.votes, claims)[d]) <= Total(Powers(claims, claims.Keys))
    ensures Bonded(env.powerStore, w) ==>
              && (BelowWins(s, p, env, w) == 0
                  ==> (VerdictFor(s, p, env, w) == Success <==> InBandEverywhere(s, p, env, w)))
              && (InBandEverywhere(s, p, env, w)
                  ==> (VerdictFor(s, p, env, w) == Success <==> BelowWins(s, p, env, w) == 0))
  {
    hide *;
    var claims := ClaimsOf(env.powerStore);
    SoundVotesListOnce(s.votes, s.targets);
    if d in Grouped(s.votes, claims) {
      BallotPowerIsBounded(s.votes, claims, d);
      BallotNonEmpty(s.votes, claims, d);
      SoundVotesCount(s.votes, s.targets, claims, d, Grouped(s.votes, claims)[d][0]);
    }
    if Bonded(env.powerStore, w) {
      SuccessAgainstInBand(s, p, env, w);
      SpareWinsAreBelow(s, p, env, w);
    }
  }

  lemma BallotNonEmpty(votes: Votes, claims: Claims, d: string)
    requires d in Grouped(votes, claims)
    ensures |Grouped(votes, claims)[d]| > 0
  {
  }

  lemma ClosesSplit(blocks: seq<Block>, from: nat, v: Addr, n: nat)
    requires ValidBlocks(blocks) && |blocks| == n + 1 && from <= n && ValidBlocks(blocks[..n])
    ensures Closes(blocks, from, v) == Closes(blocks[..n], from, v) + if Counts(blocks[n], v) then {n} else {}
    ensures n !in Closes(blocks[..n], from, v) && (from == n ==> Closes(blocks[..n], from, v) == {})
  {
    hide Counts, ValidBlock;
  }

  lemma ClosesStep(blocks: seq<Block>, from: nat, v: Addr)
    requires ValidBlocks(blocks) && blocks != [] && from < |blocks|
    ensures ValidBlocks(blocks[..|blocks| - 1])
    ensures |Closes(blocks, from, v)|
            == |Closes(blocks[..|blocks| - 1], from, v)| + if Counts(blocks[|blocks| - 1], v) then 1 else 0
    ensures from == |blocks| - 1 ==> Closes(blocks[..|blocks| - 1], from, v) == {}
  {
    hide Counts, ValidBlock, Closes;
    assert forall i | 0 <= i < |blocks| - 1 :: blocks[..|blocks| - 1][i] == blocks[i];
    ClosesSplit(blocks, from, v, |blocks| - 1);
  }

  /** In every reachable state a validator's success, abstain and miss counts add up to the periods
      closed with it bonded since the last reset, plus what genesis gave it if there was none. */
  lemma {:induction false} CountersAreConserved(genesis: Store, blocks: seq<Block>, from: nat, v: Addr)
    requires ValidBlocks(blocks) && WellKeyed(genesis.votes) && Run(genesis, blocks).Some? && WindowOpens(blocks, from)
    ensures Tallied(Run(genesis, blocks).value.counters, v) ==
              |Closes(blocks, from, v)|
              + if from < |blocks| && Resets(blocks[from]) then 0 else Tallied(genesis.counters, v)
    decreases |blocks|
  {
    hide Next, Tallied, Closes, Counts, Resets, WellKeyed;
    if blocks == [] {
      NoCloses(from, v);
    } else {
      var init, last := blocks[..|blocks| - 1], blocks[|blocks| - 1];
      var s := Run(genesis, init).value;
      VotesStayKeyed(genesis, init);
      BlockCounts(s, last, v);
      ClosesStep(blocks, from, v);
      if from < |init| || !Resets(last) {
        CountersAreConserved(genesis, init, from, v);
      }
    }
  }

  lemma NoCloses(from: nat, v: Addr)
    ensures Closes([], from, v) == {}
  {
  }

  // ----- the branch that should never happen

  ghost predicate NoEmptyCounter(counters: Counters) { forall k | k in counters :: TotalVotes(counters[k]) > 0 }

  lemma CloseLeavesNoneEmpty(s: Store, p: Params, env: Env)
    requires NoEmptyCounter(s.counters)
    ensures NoEmptyCounter(Close(s, p, env).counters)
  {
    hide FinalClaims, PassingOf, RefOf, RatesAfter, ReducedTargets, TargetsAfter;
  }

  lemma BeginLeavesNone(counters: Counters, p: Params, staking: Staking, height: nat)
    requires NoEmptyCounter(counters) && SlashAndReset(counters, p, staking, height).outcome == Done
    ensures SlashAndReset(counters, p, staking, height).counters == map[]
  {
    hide SlashAndReset, Calls, MustSlash, Manageable, TotalVotes;
    SlashingIsExact(counters, p, staking, height);
  }

  /** From a genesis without empty counters no walk ever meets one, and every finished slash window
      removes all counters. */
  lemma {:induction false} ZeroVotesUnreachable(genesis: Store, blocks: seq<Block>)
    requires ValidBlocks(blocks) && NoEmptyCounter(genesis.counters) && Run(genesis, blocks).Some?
    ensures NoEmptyCounter(Run(genesis, blocks).value.counters)
    ensures forall b: Block | ValidBlock(b) && Resets(b) && Begun(Run(genesis, blocks).value, b).Some? ::
              Begun(Run(genesis, blocks).value, b).value.counters == map[]
    decreases |blocks|
  {
    hide Close, SlashAndReset, NoEmptyCounter;
    if blocks != [] {
      var init, last := blocks[..|blocks| - 1], blocks[|blocks| - 1];
      ZeroVotesUnreachable(genesis, init);
      NextLeavesNoneEmpty(Run(genesis, init).value, last);
    }
    var s := Run(genesis, blocks).value;
    forall b: Block | ValidBlock(b) && Resets(b) && Begun(s, b).Some?
      ensures Begun(s, b).value.counters == map[]
    {
      BeginLeavesNone(s.counters, b.atBegin, b.staking, b.env.height);
    }
  }

  lemma NextLeavesNoneEmpty(s: Store, b: Block)
    requires ValidBlock(b) && NoEmptyCounter(s.counters) && Next(s, b).Some?
    ensures NoEmptyCounter(Next(s, b).value.counters)
  {
    hide Close, SlashAndReset;
    var begun := Begun(s, b).value;
    if Resets(b) {
      BeginLeavesNone(s.counters, b.atBegin, b.staking, b.env.height);
    }
    CloseLeavesNoneEmpty(WithVotes(begun, b), b.atEnd, b.env);
  }

  predicate EmptyAt(counters: Counters, k: Addr) { k in counters && TotalVotes(counters[k]) == 0 }

  lemma BeginKeepsEmpty(s: Store, b: Block, k: Addr)
    requires ValidBlock(b) && Begun(s, b).Some?
    ensures EmptyAt(Begun(s, b).value.counters, k) <==> EmptyAt(s.counters, k)
    ensures Begun(s, b).value.votes == s.votes
  {
    hide SlashAndReset, Calls, MustSlash, Manageable, TotalVotes;
    if Resets(b) {
      SlashingIsExact(s.counters, b.atBegin, b.staking, b.env.height);
    }
  }

  lemma CountersMoveEmpty(counters: Counters, claims: Claims, nTargets: nat, k: Addr)
    ensures EmptyAt(CountersAfter(counters, claims, nTargets), k) <==> EmptyAt(counters, k) && k !in claims
  {
    hide VerdictOn, Bump, TotalVotes;
    if k in claims {
      BumpCounts(CounterOf(counters, k), VerdictOn(claims[k], nTargets));
    }
  }

  lemma CloseFillsEmpty(s: Store, p: Params, env: Env, k: Addr)
    requires WellKeyed(s.votes)
    ensures EmptyAt(Close(s, p, env).counters, k) <==> EmptyAt(s.counters, k) && !Bonded(env.powerStore, k)
  {
    hide *;
    FinalClaimsAreKeyed(s, p, env);
    ClaimsOfBonded(env.powerStore, k);
    CountersMoveEmpty(s.counters, FinalClaims(s, p, env), |ReducedTargets(s, p, env)|, k);
    ClosedState(s, p, env);
  }

  lemma BlockEmpties(s: Store, b: Block, k: Addr)
    requires ValidBlock(b) && WellKeyed(s.votes) && Next(s, b).Some?
    ensures EmptyAt(Next(s, b).value.counters, k) <==> EmptyAt(s.counters, k) && !Counts(b, k)
  {
    hide Begun, Close, EmptyAt, Bonded;
    BeginKeepsEmpty(s, b, k);
    var begun := Begun(s, b).value;
    DeliverKeepsSound(begun.targets, begun.votes, b.messages);
    CloseFillsEmpty(WithVotes(begun, b), b.atEnd, b.env, k);
  }

  /** Exactly which counters are without votes in a reachable state: those that genesis stored so, and
      whose validator has not been bonded at any close since. No slash window removes them. */
  lemma {:induction false} EmptyCountersAre(genesis: Store, blocks: seq<Block>, k: Addr)
    requires ValidBlocks(blocks) && WellKeyed(genesis.votes) && Run(genesis, blocks).Some?
    ensures EmptyAt(Run(genesis, blocks).value.counters, k) <==>
              EmptyAt(genesis.counters, k) && Closes(blocks, 0, k) == {}
    decreases |blocks|
  {
    hide Next, EmptyAt, Closes, Counts, WellKeyed;
    if blocks == [] {
      NoCloses(0, k);
    } else {
      var init, last := blocks[..|blocks| - 1], blocks[|blocks| - 1];
      EmptyCountersAre(genesis, init, k);
      VotesStayKeyed(genesis, init);
      BlockEmpties(Run(genesis, init).value, last, k);
      ClosesSplit(blocks, 0, k, |blocks| - 1);
    }
  }

  /** A genesis with an empty counter, and a slash window's last block at whose end the validator is not
      bonded: the walk meets the counter and leaves it. */
  lemma EmptyCounterIsMet(b: Block)
    requires ValidBlock(b) && Resets(b) && !Counts(b, "v")
    ensures var genesis := Store(map[], map["v" := Counter(0, 0, 0)], map[], map[]);
            ValidBlocks([b]) && Run(genesis, [b]).Some? && EmptyAt(Run(genesis, [b]).value.counters, "v")
  {
    hide Begun, EndBlock, Counts, TotalVotes;
    var genesis := Store(map[], map["v" := Counter(0, 0, 0)], map[], map[]);
    NoVotesYet();
    NothingToSlash(genesis, b);
    assert [b][..0] == [];
    assert Run(genesis, []) == Some(genesis);

    BlockEmpties(genesis, b, "v");
  }

  lemma NoVotesYet()
    ensures TotalVotes(Counter(0, 0, 0)) == 0
  {
  }

  /** A begin of block succeeds where every counter is empty. */
  lemma NothingToSlash(s: Store, b: Block)
    requires ValidBlock(b) && forall k | k in s.counters :: TotalVotes(s.counters[k]) == 0
    ensures Begun(s, b).Some?
  {
    hide SlashAndReset, Calls, MustSlash;
    SlashingIsExact(s.counters, b.atBegin, b.staking, b.env.height);
  }

  // ----- a whole window

  function Multiples(n: nat, m: nat): set<nat>
    requires m > 0
  {
    set i: nat | i < n && i % m == 0
  }

  lemma {:induction false} MultiplesCount(k: nat, m: nat)
    requires m > 0
    ensures |Multiples(k * m, m)| == k
    decreases k
  {
    hide Multiples;
    if k == 0 {
      NoMultiples(m);
    } else {
      MultiplesCount(k - 1, m);
      var top := (k - 1) * m;
      assert k * m == top + m;
      MultiplesStep(top, k - 1, m);
    }
  }

  lemma NoMultiples(m: nat)
    requires m > 0
    ensures Multiples(0, m) == {}
  {
  }

  lemma MultiplesStep(top: nat, q: nat, m: nat)
    requires m > 0 && top == q * m
    ensures Multiples(top + m, m) == Multiples(top, m) + {top} && top !in Multiples(top, m)
  {
    forall i: nat | top <= i < top + m
      ensures i % m == 0 <==> i == top
    {
      OffsetMod(q, m, i - top);
    }
  }

  lemma OffsetMod(q: nat, m: nat, r: nat)
    requires r < m
    ensures (q * m + r) % m == r
  {
    var n := q * m + r;
    var a, b := n / m, n % m;
    assert n == a * m + b && (a - q) * m == r - b;
    if a > q {
      AtLeastOnce(a - q, m);
    } else if a < q {
      assert (q - a) * m == b - r;
      AtLeastOnce(q - a, m);
    }
  }

  lemma AtLeastOnce(x: int, m: nat)
    requires x >= 1
    ensures x * m >= m
  {
  }

  /** A stretch of blocks of consecutive heights under one set of parameters. */
  predicate Steady(blocks: seq<Block>, from: nat, p: Params)
    requires from <= |blocks|
  {
    forall i | from <= i < |blocks| ::
      blocks[i].atBegin == p && blocks[i].atEnd == p && blocks[i].env.height == blocks[from].env.height + (i - from)
  }

  lemma PeriodPhase(height: nat, i: nat, period: nat)
    requires period > 0 && IsPeriodLastBlock(height, period)
    ensures IsPeriodLastBlock(height + i, period) <==> i % period == 0
  {
    var q, j := (height + 1) / period, i / period;
    DividesSum(q, j, period, i % period);
    assert height + 1 == q * period && i == j * period + i % period;
  }

  lemma DividesSum(q: nat, j: nat, m: nat, r: nat)
    requires r < m
    ensures (q * m + (j * m + r)) % m == r
  {
    assert (q + j) * m == q * m + j * m;
    OffsetMod(q + j, m, r);
  }

  lemma WindowIsPeriods(height: nat, p: Params)
    requires ValidPeriods(p) && IsPeriodLastBlock(height, p.slashWindow)
    ensures IsPeriodLastBlock(height, p.votePeriod)
    ensures p.slashWindow == p.slashWindow / p.votePeriod * p.votePeriod
  {
    var q, k := (height + 1) / p.slashWindow, p.slashWindow / p.votePeriod;
    assert height + 1 == q * p.slashWindow && p.slashWindow == k * p.votePeriod;
    assert q * (k * p.votePeriod) == (q * k) * p.votePeriod;
    OffsetMod(q * k, p.votePeriod, 0);
  }

  lemma SteadyBlock(blocks: seq<Block>, from: nat, p: Params, v: Addr, i: nat)
    requires ValidBlocks(blocks) && ValidPeriods(p) && from <= i < |blocks| && Steady(blocks, from, p)
        && Resets(blocks[from])
    requires Bonded(blocks[i].env.powerStore, v)
    ensures Resets(blocks[i]) <==> (i - from) % p.slashWindow == 0
    ensures Counts(blocks[i], v) <==> (i - from) % p.votePeriod == 0
  {
    hide Bonded, IsPeriodLastBlock, ValidPeriods;
    var h := blocks[from].env.height;
    Positive(p);
    WindowIsPeriods(h, p);
    PeriodPhase(h, i - from, p.slashWindow);
    PeriodPhase(h, i - from, p.votePeriod);
  }

  lemma Positive(p: Params)
    requires ValidPeriods(p)
    ensures p.votePeriod > 0 && p.slashWindow > 0
  {
  }

  /** A validator bonded throughout a slash window is judged at its end on exactly
      `slashWindow / votePeriod` periods, whatever it voted. */
  lemma FullWindow(genesis: Store, blocks: seq<Block>, from: nat, p: Params, v: Addr)
    requires ValidBlocks(blocks) && WellKeyed(genesis.votes) && Run(genesis, blocks).Some?
    requires ValidPeriods(p) && |blocks| == from + p.slashWindow && Steady(blocks, from, p)
    requires Resets(blocks[from]) && forall i | from <= i < |blocks| :: Bonded(blocks[i].env.powerStore, v)
    ensures Tallied(Run(genesis, blocks).value.counters, v) == p.slashWindow / p.votePeriod
  {
    hide Run, Tallied, Bonded, WellKeyed, Steady, Resets, Counts, ValidBlock, IsPeriodLastBlock;
    var h, k := blocks[from].env.height, p.slashWindow / p.votePeriod;
    forall i | from <= i < |blocks|
      ensures Resets(blocks[i]) <==> i == from
      ensures Counts(blocks[i], v) <==> (i - from) % p.votePeriod == 0
    {
      SteadyBlock(blocks, from, p, v, i);
      Small(i - from, p.slashWindow);
    }
    assert WindowOpens(blocks, from);
    CountersAreConserved(genesis, blocks, from, v);
    WholePeriods(p);
    MultiplesCount(k, p.votePeriod);
    ShiftedSize(Multiples(p.slashWindow, p.votePeriod), Closes(blocks, from, v), from);
  }

  lemma Small(i: nat, n: nat)
    requires i < n
    ensures i % n == 0 <==> i == 0
  {
  }

  lemma WholePeriods(p: Params)
    requires ValidPeriods(p)
    ensures p.slashWindow == p.slashWindow / p.votePeriod * p.votePeriod
  {
  }

  lemma {:induction false} ShiftedSize(a: set<nat>, b: set<nat>, shift: nat)
    requires forall i: nat :: i in a <==> i + shift in b
    requires forall j | j in b :: j >= shift && j - shift in a
    ensures |a| == |b|
    decreases a
  {
    if a == {} {
      assert b == {};
    } else {
      var i :| i in a;
      ShiftedSize(a - {i}, b - {i + shift}, shift);
    }
  }
}
