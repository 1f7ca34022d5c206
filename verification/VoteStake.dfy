/** The minimum stake check on governance votes: an early-exit scan over a voter's delegations,
    and the messages it is applied to. */
module VoteStake {
  import opened Wrappers
  import opened Decimal

  const MAX_DELEGATIONS_CHECKED := 100

  /** A delegation: the tokens its shares are worth, or `None` when its validator is gone. */
  type Delegation = Option<Dec>

  datatype Msg =
    | Vote(voter: string)
    | Exec(inner: seq<Option<Msg>>)  // a wrapped message that cannot be unpacked is None
    | OtherMsg

  datatype Error = BadAddress | InsufficientStake | CannotUnpack

  function Tokens(d: Delegation): Dec { if d.Some? then d.value else 0 }

  function Sum(ds: seq<Delegation>): Dec {
    if ds == [] then 0 else Sum(ds[..|ds| - 1]) + Tokens(ds[|ds| - 1])
  }

  function Examined(ds: seq<Delegation>): seq<Delegation> {
    if |ds| <= MAX_DELEGATIONS_CHECKED then ds else ds[..MAX_DELEGATIONS_CHECKED]
  }

  predicate NonNegative(ds: seq<Delegation>) { forall d | d in ds && d.Some? :: d.value >= 0 }

  lemma {:induction false} SumMonotone(ds: seq<Delegation>, i: nat, j: nat)
    requires NonNegative(ds) && i <= j <= |ds|
    ensures Sum(ds[..i]) <= Sum(ds[..j])
    decreases j
  {
    if i < j {
      assert ds[..j][..j - 1] == ds[..j - 1];
      assert ds[j - 1] in ds;
      SumMonotone(ds, i, j - 1);
    }
  }

  /** A sum counts each delegation's tokens once, and one whose validator is gone as nothing. */
  lemma SumIs(ds: seq<Delegation>, d: Delegation)
    ensures Sum([]) == 0
    ensures Sum(ds + [d]) == match d case None => Sum(ds) case Some(tokens) => Sum(ds) + tokens
  {
    assert (ds + [d])[..|ds|] == ds;
  }

  /** The iteration callback, run until it asks to stop. For a positive minimum and non-negative
      tokens the early exits change nothing: the voter has enough exactly when the first hundred
      delegations together reach the minimum. */
  method HasEnoughStake(delegations: seq<Delegation>, minStakedTokens: Dec) returns (enoughStake: bool)
    requires minStakedTokens > 0 && NonNegative(delegations)
    ensures enoughStake <==> Sum(Examined(delegations)) >= minStakedTokens
    ensures enoughStake <==> Sum(delegations[..if |delegations| < 100 then |delegations| else 100]) >= minStakedTokens
  {
    enoughStake := false;
    var delegationCount := 0;
    var stakedTokens: Dec := 0;
    var i := 0;
    ghost var n := |Examined(delegations)|;
    assert delegations[..n] == Examined(delegations);
    while i < |delegations|
      invariant 0 <= i <= n && delegationCount == i && !enoughStake
      invariant stakedTokens == Sum(delegations[..i]) < minStakedTokens
      invariant i < |delegations| ==> i < MAX_DELEGATIONS_CHECKED
    {
      assert delegations[..i + 1][..i] == delegations[..i];
      var delegation := delegations[i];
      i := i + 1;
      if delegation.Some? {
        stakedTokens := stakedTokens + delegation.value;
        if stakedTokens >= minStakedTokens {
          SumMonotone(delegations, i, n);
          return true;
        }
      }
      delegationCount := delegationCount + 1;
      if delegationCount >= MAX_DELEGATIONS_CHECKED {
        return false;
      }
    }
  }

  // ----- messages

  /** What the check is run against: address parsing, delegations by voter, and the minimum. */
  datatype Chain = Chain(validAddress: string -> bool, delegations: string -> seq<Delegation>, minStakedTokens: Dec)

  ghost predicate Sane(ch: Chain) {
    ch.minStakedTokens >= 0 && forall v :: NonNegative(ch.delegations(v))
  }

  predicate MayVote(ch: Chain, voter: string) {
    ch.validAddress(voter) && (ch.minStakedTokens == 0 || Sum(Examined(ch.delegations(voter))) >= ch.minStakedTokens)
  }

  /** A vote must be allowed; any other message, a nested wrapper included, passes. */
  predicate MsgPasses(ch: Chain, m: Msg) { m.Vote? ==> MayVote(ch, m.voter) }

  predicate TopPasses(ch: Chain, m: Msg) {
    if m.Exec? then forall x | x in m.inner :: x.Some? && MsgPasses(ch, x.value) else MsgPasses(ch, m)
  }

  function MsgError(ch: Chain, m: Msg): Option<Error> {
    if !m.Vote? || MayVote(ch, m.voter) then None
    else if ch.validAddress(m.voter) then Some(InsufficientStake)
    else Some(BadAddress)
  }

  /** The error of the first wrapped message that has one. */
  function InnerError(ch: Chain, inner: seq<Option<Msg>>): Option<Error> {
    if inner == [] then None
    else
      var first := if inner[0].None? then Some(CannotUnpack) else MsgError(ch, inner[0].value);
      if first.Some? then first else InnerError(ch, inner[1..])
  }

  function TopError(ch: Chain, m: Msg): Option<Error> {
    if m.Exec? then InnerError(ch, m.inner) else MsgError(ch, m)
  }

  /** The error of the first message that has one. */
  function FirstError(ch: Chain, msgs: seq<Msg>): Option<Error> {
    if msgs == [] then None
    else if TopError(ch, msgs[0]).Some? then TopError(ch, msgs[0])
    else FirstError(ch, msgs[1..])
  }

  method ValidMsg(ch: Chain, m: Msg) returns (err: Option<Error>)
    requires Sane(ch)
    ensures err == MsgError(ch, m)
    ensures err.None? <==> MsgPasses(ch, m)
    ensures m.Vote? && !ch.validAddress(m.voter) ==> err == Some(BadAddress)
    ensures m.Vote? && ch.validAddress(m.voter) && err.Some? ==> err == Some(InsufficientStake)
  {
    if !m.Vote? {
      return None;
    }
    if !ch.validAddress(m.voter) {
      return Some(BadAddress);
    }
    if ch.minStakedTokens == 0 {
      return None;
    }
    var enough := HasEnoughStake(ch.delegations(m.voter), ch.minStakedTokens);
    return if enough then None else Some(InsufficientStake);
  }

  method ValidAuthz(ch: Chain, inner: seq<Option<Msg>>) returns (err: Option<Error>)
    requires Sane(ch)
    ensures err == InnerError(ch, inner)
    ensures err.None? <==> forall x | x in inner :: x.Some? && MsgPasses(ch, x.value)
  {
    hide MayVote;
    assert inner[0..] == inner;
    for i := 0 to |inner|
      invariant forall k | 0 <= k < i :: inner[k].Some? && MsgPasses(ch, inner[k].value)
      invariant InnerError(ch, inner) == InnerError(ch, inner[i..])
    {
      assert inner[i] in inner && inner[i..][1..] == inner[i + 1..];
      if inner[i].None? {
        return Some(CannotUnpack);
      }
      err := ValidMsg(ch, inner[i].value);
      if err.Some? {
        return;
      }
    }
    return None;
  }

  /** A transaction passes exactly when every direct vote and every vote wrapped once may vote, and
      every wrapped message can be unpacked; votes wrapped twice are not looked at. Otherwise it fails
      with the first error met. */
  method ValidateVoteMsgs(ch: Chain, msgs: seq<Msg>) returns (err: Option<Error>)
    requires Sane(ch)
    ensures err == FirstError(ch, msgs)
    ensures err.None? <==> forall m | m in msgs :: TopPasses(ch, m)
  {
    hide MayVote, InnerError;
    assert msgs[0..] == msgs;
    for i := 0 to |msgs|
      invariant forall k | 0 <= k < i :: TopPasses(ch, msgs[k])
      invariant FirstError(ch, msgs) == FirstError(ch, msgs[i..])
    {
      var m := msgs[i];
      assert m in msgs && msgs[i..][1..] == msgs[i + 1..];
      if m.Exec? {
        err := ValidAuthz(ch, m.inner);
        if err.Some? {
          return;
        }
        continue;
      }
      err := ValidMsg(ch, m);
      if err.Some? {
        return;
      }
    }
    return None;
  }

  /** A transaction's fate, spelled out: a vote passes if its voter's address is valid and there is no
      minimum or the first hundred delegations reach it; a wrapper if each message in it can be unpacked
      and, where it is a vote, passes; anything else always. */
  lemma MessagePassesIff(ch: Chain, m: Msg)
    ensures TopPasses(ch, m) <==>
              && (m.Vote? ==> StakeSuffices(ch, m.voter))
              && (m.Exec? ==>
                    forall i | 0 <= i < |m.inner| ::
                      m.inner[i].Some? && (m.inner[i].value.Vote? ==> StakeSuffices(ch, m.inner[i].value.voter)))
  {
    if m.Vote? {
      SufficesIsMay(ch, m.voter);
    }
    if m.Exec? {
      forall i | 0 <= i < |m.inner| && m.inner[i].Some? && m.inner[i].value.Vote?
        ensures StakeSuffices(ch, m.inner[i].value.voter) <==> MayVote(ch, m.inner[i].value.voter)
      {
        SufficesIsMay(ch, m.inner[i].value.voter);
      }
      assert forall i | 0 <= i < |m.inner| :: m.inner[i] in m.inner;
    }
  }

  predicate StakeSuffices(ch: Chain, voter: string) {
    var ds := ch.delegations(voter);
    ch.validAddress(voter)
    && (ch.minStakedTokens == 0 || ch.minStakedTokens <= Sum(ds[..if |ds| < 100 then |ds| else 100]))
  }

  lemma SufficesIsMay(ch: Chain, voter: string)
    ensures StakeSuffices(ch, voter) <==> MayVote(ch, voter)
  {
    var ds := ch.delegations(voter);
    assert Examined(ds) == ds[..if |ds| < 100 then |ds| else 100];
  }

  /** The chain on which `voter` has the delegations `ds`. */
  function Delegating(ch: Chain, voter: string, ds: seq<Delegation>): Chain {
    ch.(delegations := v => if v == voter then ds else ch.delegations(v))
  }

  /** Only the hundred delegations iterated first count: whatever lies behind them, no message's fate
      depends on it. */
  lemma StakeBehindTheLimitIgnored(ch: Chain, voter: string, head: seq<Delegation>, tail: seq<Delegation>, m: Msg)
    requires |head| == MAX_DELEGATIONS_CHECKED
    ensures TopPasses(Delegating(ch, voter, head + tail), m) <==> TopPasses(Delegating(ch, voter, head), m)
  {
    var with, without := Delegating(ch, voter, head + tail), Delegating(ch, voter, head);
    assert Examined(head + tail) == Examined(head);
    assert forall v :: MayVote(with, v) <==> MayVote(without, v);
  }
}
