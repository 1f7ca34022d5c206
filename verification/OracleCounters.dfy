/** Which of its three counts each validator's verdicts move, at one close and over whole runs. */
module OracleCounters {
  import opened Wrappers
  import opened Ordering
  import opened OracleBallot
  import opened OracleTally
  import opened OracleState
  import opened OracleSlash
  import opened OracleVotes
  import opened OracleVerdict
  import opened OracleKeeper
  import opened OracleRuns

  function One(b: bool): nat { if b then 1 else 0 }

  /** From `c` to `c'` exactly the count of `verdict` grows, by one. */
  predicate Grows(c: Counter, c': Counter, verdict: Verdict) {
    && c'.success == c.success + One(verdict == Success)
    && c'.abstain == c.abstain + One(verdict == Abstain)
    && c'.miss == c.miss + One(verdict == Miss)
  }

  lemma ClaimMovesCounts(counters: Counters, claims: Claims, nTargets: nat, v: Addr)
    ensures var c, c' := CounterOf(counters, v), CounterOf(CountersAfter(counters, claims, nTargets), v);
            if v in claims then Grows(c, c', VerdictOn(claims[v], nTargets)) else c' == c
  {
    hide VerdictOn;
  }

  /** At a close a bonded validator's successes grow by one exactly when its verdict is a success, its
      abstentions exactly when it is an abstention, its misses exactly when it is a miss; the counter of
      any other validator stays. */
  lemma CloseMovesCounts(s: Store, p: Params, env: Env, v: Addr)
    requires WellKeyed(s.votes)
    ensures var c, c' := CounterOf(s.counters, v), CounterOf(Close(s, p, env).counters, v);
            if Bonded(env.powerStore, v) then Grows(c, c', VerdictFor(s, p, env, v)) else c' == c
  {
    hide *;
    FinalClaimsAreKeyed(s, p, env);
    ClaimsOfBonded(env.powerStore, v);
    ClaimMovesCounts(s.counters, FinalClaims(s, p, env), |ReducedTargets(s, p, env)|, v);
    ClosedState(s, p, env);
    VerdictOfClaim(s, p, env, v);
  }

  lemma VerdictOfClaim(s: Store, p: Params, env: Env, v: Addr)
    ensures v in FinalClaims(s, p, env) ==>
              VerdictFor(s, p, env, v) == VerdictOn(FinalClaims(s, p, env)[v], |ReducedTargets(s, p, env)|)
  {
    hide FinalClaims, ReducedTargets, VerdictOn;
  }

  // ----- runs

  /** Block `i` of the run closes a period with `v` bonded, and its verdict on `v` is `verdict`. */
  ghost predicate Judged(genesis: Store, blocks: seq<Block>, i: nat, v: Addr, verdict: Verdict)
    requires ValidBlocks(blocks) && i < |blocks|
  {
    && Run(genesis, blocks[..i]).Some?
    && var s := Run(genesis, blocks[..i]).value;
    && Begun(s, blocks[i]).Some? && Counts(blocks[i], v)
    && VerdictFor(WithVotes(Begun(s, blocks[i]).value, blocks[i]), blocks[i].atEnd, blocks[i].env, v) == verdict
  }

  /** The closes from `from` on with that verdict. */
  ghost function JudgedAt(genesis: Store, blocks: seq<Block>, from: nat, v: Addr, verdict: Verdict): set<nat>
    requires ValidBlocks(blocks)
  {
    set i: nat | from <= i < |blocks| && Judged(genesis, blocks, i, v, verdict)
  }

  lemma JudgedBefore(genesis: Store, blocks: seq<Block>, i: nat, v: Addr, verdict: Verdict)
    requires ValidBlocks(blocks) && i < |blocks| - 1
    ensures ValidBlocks(blocks[..|blocks| - 1])
    ensures Judged(genesis, blocks[..|blocks| - 1], i, v, verdict) <==> Judged(genesis, blocks, i, v, verdict)
  {
    hide ValidBlock, Begun, Counts, VerdictFor, WithVotes, Run;
    assert blocks[..|blocks| - 1][..i] == blocks[..i];
  }

  lemma JudgedStep(genesis: Store, blocks: seq<Block>, from: nat, v: Addr, verdict: Verdict)
    requires ValidBlocks(blocks) && from < |blocks|
    ensures ValidBlocks(blocks[..|blocks| - 1])
    ensures |JudgedAt(genesis, blocks, from, v, verdict)|
            == |JudgedAt(genesis, blocks[..|blocks| - 1], from, v, verdict)|
               + One(Judged(genesis, blocks, |blocks| - 1, v, verdict))
    ensures from == |blocks| - 1 ==> JudgedAt(genesis, blocks[..|blocks| - 1], from, v, verdict) == {}
  {
    hide Judged, ValidBlock;
    var n := |blocks| - 1;
    assert forall i | 0 <= i < n :: blocks[..n][i] == blocks[i];
    forall i: nat | from <= i < n
      ensures Judged(genesis, blocks[..n], i, v, verdict) <==> Judged(genesis, blocks, i, v, verdict)
    {
      JudgedBefore(genesis, blocks, i, v, verdict);
    }
    JudgedSplit(genesis, blocks, from, v, verdict, n);
  }

  lemma JudgedSplit(genesis: Store, blocks: seq<Block>, from: nat, v: Addr, verdict: Verdict, n: nat)
    requires ValidBlocks(blocks) && |blocks| == n + 1 && from <= n && ValidBlocks(blocks[..n])
    requires forall i: nat | from <= i < n ::
               Judged(genesis, blocks[..n], i, v, verdict) <==> Judged(genesis, blocks, i, v, verdict)
    ensures var before := JudgedAt(genesis, blocks[..n], from, v, verdict);
            && n !in before && (from == n ==> before == {})
            && JudgedAt(genesis, blocks, from, v, verdict)
               == before + if Judged(genesis, blocks, n, v, verdict) then {n} else {}
  {
    hide Judged, ValidBlock;
  }

  /** One block: a reset clears the counter, a close with `v` bonded then moves one count. */
  lemma BlockMovesCounts(s: Store, b: Block, v: Addr)
    requires ValidBlock(b) && WellKeyed(s.votes) && Next(s, b).Some?
    ensures var start := if Resets(b) then Counter(0, 0, 0) else CounterOf(s.counters, v);
            var end := CounterOf(Next(s, b).value.counters, v);
            var mid := WithVotes(Begun(s, b).value, b);
            if Counts(b, v) then Grows(start, end, VerdictFor(mid, b.atEnd, b.env, v)) else end == start
  {
    hide Begun, Close, VerdictFor, Bonded, Grows;
    BeginClears(s, b, v);
    BeginCounts(s, b, v);
    var begun := Begun(s, b).value;
    DeliverKeepsSound(begun.targets, begun.votes, b.messages);
    CloseMovesCounts(WithVotes(begun, b), b.atEnd, b.env, v);
  }

  lemma BeginClears(s: Store, b: Block, v: Addr)
    requires ValidBlock(b) && Begun(s, b).Some?
    ensures CounterOf(Begun(s, b).value.counters, v) == if Resets(b) then Counter(0, 0, 0) else CounterOf(s.counters, v)
  {
    hide SlashAndReset;
    if Resets(b) {
      ResetClears(s.counters, b.atBegin, b.staking, b.env.height, v);
    }
  }

  /** What the genesis still contributes: its counter if no block has reset since. */
  function Carried(genesis: Store, blocks: seq<Block>, from: nat, v: Addr): Counter
    requires ValidBlocks(blocks)
  {
    if from < |blocks| && Resets(blocks[from]) then Counter(0, 0, 0) else CounterOf(genesis.counters, v)
  }

  /** In every reachable state each count is the number of closes since the last reset with that verdict
      on the validator, plus what genesis gave it if there was no reset. */
  lemma {:induction false} CountsAreVerdicts(genesis: Store, blocks: seq<Block>, from: nat, v: Addr)
    requires ValidBlocks(blocks) && WellKeyed(genesis.votes) && Run(genesis, blocks).Some? && WindowOpens(blocks, from)
    ensures var c, carried := CounterOf(Run(genesis, blocks).value.counters, v), Carried(genesis, blocks, from, v);
            && c.success == carried.success + |JudgedAt(genesis, blocks, from, v, Success)|
            && c.abstain == carried.abstain + |JudgedAt(genesis, blocks, from, v, Abstain)|
            && c.miss == carried.miss + |JudgedAt(genesis, blocks, from, v, Miss)|
    decreases |blocks|
  {
    hide Next, JudgedAt, Judged, Counts, Resets, WellKeyed, CounterOf;
    if blocks == [] {
      NoneJudged(genesis, from, v, Success);
      NoneJudged(genesis, from, v, Abstain);
      NoneJudged(genesis, from, v, Miss);
    } else {
      VotesStayKeyed(genesis, blocks[..|blocks| - 1]);
      LastBlockMoves(genesis, blocks, v);
      JudgedStep(genesis, blocks, from, v, Success);
      JudgedStep(genesis, blocks, from, v, Abstain);
      JudgedStep(genesis, blocks, from, v, Miss);
      if from < |blocks| - 1 || !Resets(blocks[|blocks| - 1]) {
        CountsAreVerdicts(genesis, blocks[..|blocks| - 1], from, v);
      }
    }
  }

  lemma NoneJudged(genesis: Store, from: nat, v: Addr, verdict: Verdict)
    ensures JudgedAt(genesis, [], from, v, verdict) == {}
  {
  }

  /** The last block has a verdict exactly when it counts, and then the one of its own state. */
  lemma LastMoves(genesis: Store, blocks: seq<Block>, s: Store, v: Addr, verdict: Verdict)
    requires ValidBlocks(blocks) && blocks != [] && Run(genesis, blocks[..|blocks| - 1]) == Some(s)
    requires Next(s, blocks[|blocks| - 1]).Some?
    ensures var b := blocks[|blocks| - 1];
            Judged(genesis, blocks, |blocks| - 1, v, verdict) <==>
              Counts(b, v) && VerdictFor(WithVotes(Begun(s, b).value, b), b.atEnd, b.env, v) == verdict
  {
    hide Begun, Counts, VerdictFor, EndBlock;
  }

  lemma LastBlockMoves(genesis: Store, blocks: seq<Block>, v: Addr)
    requires ValidBlocks(blocks) && blocks != [] && Run(genesis, blocks).Some?
    requires WellKeyed(Run(genesis, blocks[..|blocks| - 1]).value.votes)
    ensures var n := |blocks| - 1;
            var before := CounterOf(Run(genesis, blocks[..n]).value.counters, v);
            var start := if Resets(blocks[n]) then Counter(0, 0, 0) else before;
            var end := CounterOf(Run(genesis, blocks).value.counters, v);
            && end.success == start.success + One(Judged(genesis, blocks, n, v, Success))
            && end.abstain == start.abstain + One(Judged(genesis, blocks, n, v, Abstain))
            && end.miss == start.miss + One(Judged(genesis, blocks, n, v, Miss))
  {
    hide Begun, EndBlock, Judged, Counts, Resets, WellKeyed, CounterOf, VerdictFor, WithVotes;
    var n := |blocks| - 1;
    var s := Run(genesis, blocks[..n]).value;
    BlockMovesCounts(s, blocks[n], v);
    LastMoves(genesis, blocks, s, v, Success);
    LastMoves(genesis, blocks, s, v, Abstain);
    LastMoves(genesis, blocks, s, v, Miss);
  }
}
