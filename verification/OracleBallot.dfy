/** Ballots: power, weighted median, deviation and cross rates, and what does not depend on how
    the unstable sort arranges equal rates. */
module OracleBallot {
  import opened Wrappers
  import opened Decimal
  import opened Ordering

  type Addr = string

  datatype Vote = Vote(denom: string, rate: Dec, voter: Addr, power: nat)

  type ExchangeRateBallot = seq<Vote>

  predicate SortedByRate(b: ExchangeRateBallot) { forall i, j | 0 <= i < j < |b| :: b[i].rate <= b[j].rate }

  predicate SameVotes(a: ExchangeRateBallot, b: ExchangeRateBallot) { multiset(a) == multiset(b) }

  function VotePower(v: Vote): int { v.power }

  function Power(b: ExchangeRateBallot): (p: nat) {
    SumNonNegative(VotePower, b);
    Sum(VotePower, b)
  }

  /** `sort.Sort`: some ascending arrangement of the votes; nothing is promised about equal rates. */
  method Sort(b: ExchangeRateBallot) returns (r: ExchangeRateBallot)
    ensures SortedByRate(r) && SameVotes(r, b)
  {
    r := [];
    for i := 0 to |b|
      invariant SortedByRate(r) && SameVotes(r, b[..i])
    {
      assert b[..i + 1] == b[..i] + [b[i]];
      r := InsertVote(r, b[i]);
    }
    assert b[..|b|] == b;
  }

  function InsertVote(b: ExchangeRateBallot, v: Vote): (r: ExchangeRateBallot)
    requires SortedByRate(b)
    ensures SortedByRate(r) && multiset(r) == multiset(b) + multiset{v}
    ensures r != [] && r[0].rate == if b == [] || v.rate <= b[0].rate then v.rate else b[0].rate
  {
    if b == [] then [v]
    else if v.rate <= b[0].rate then
      PrependSorted(v, b);
      [v] + b
    else
      assert b == [b[0]] + b[1..];
      var rest := InsertVote(b[1..], v);
      PrependSorted(b[0], rest);
      [b[0]] + rest
  }

  lemma PrependSorted(v: Vote, b: ExchangeRateBallot)
    requires SortedByRate(b) && b != [] && v.rate <= b[0].rate
    ensures SortedByRate([v] + b)
  {
  }

  // ----- the weighted median

  /** Votes up to rate `r` count with their power. */
  function UpTo(r: Dec): Vote -> int {
    (v: Vote) => if v.rate <= r then v.power else 0
  }

  /** `r` is a voted rate, the votes up to it hold half the power, and those up to any smaller voted rate do not. */
  predicate IsMedian(b: ExchangeRateBallot, r: Dec) {
    && (exists v | v in b :: v.rate == r)
    && Sum(UpTo(r), b) >= Power(b) / 2
    && forall v | v in b && v.rate < r :: Sum(UpTo(v.rate), b) < Power(b) / 2
  }

  lemma MedianUnique(b: ExchangeRateBallot, r: Dec, r': Dec)
    requires IsMedian(b, r) && IsMedian(b, r')
    ensures r == r'
  {
  }

  lemma {:induction false} UpToMonotone(b: ExchangeRateBallot, r: Dec, r': Dec)
    requires r <= r'
    ensures 0 <= Sum(UpTo(r), b) <= Sum(UpTo(r'), b)
    decreases |b|
  {
    if b != [] {
      UpToMonotone(b[..|b| - 1], r, r');
    }
  }

  /** Up to the highest rate is everything. */
  lemma {:induction false} UpToAll(b: ExchangeRateBallot, r: Dec)
    requires forall v | v in b :: v.rate <= r
    ensures Sum(UpTo(r), b) == Power(b)
    decreases |b|
  {
    if b != [] {
      UpToAll(b[..|b| - 1], r);
    }
  }

  lemma {:induction false} UpToNone(b: ExchangeRateBallot, r: Dec)
    requires forall v | v in b :: v.rate > r
    ensures Sum(UpTo(r), b) == 0
    decreases |b|
  {
    if b != [] {
      UpToNone(b[..|b| - 1], r);
    }
  }

  /** In a sorted ballot the votes up to a rate are those of a prefix and a tail that is above it. */
  lemma UpToPrefix(b: ExchangeRateBallot, i: nat, r: Dec)
    requires i <= |b| && (forall v | v in b[..i] :: v.rate <= r)
    ensures Sum(UpTo(r), b) >= Power(b[..i])
    ensures (forall v | v in b[i..] :: v.rate > r) ==> Sum(UpTo(r), b) == Power(b[..i])
  {
    assert b == b[..i] + b[i..];
    SumSplit(UpTo(r), b[..i], b[i..]);
    UpToAll(b[..i], r);
    UpToMonotone(b[i..], r, r);
    if forall v | v in b[i..] :: v.rate > r {
      UpToNone(b[i..], r);
    }
  }

  /** `WeightedMedianWithAssertion` after its sortedness assertion: zero for an empty ballot. */
  method WeightedMedian(b: ExchangeRateBallot) returns (r: Dec)
    requires SortedByRate(b)
    ensures b == [] ==> r == 0
    ensures b != [] ==> IsMedian(b, r)
  {
    var totalPower := Power(b);
    var pivot: nat := 0;
    for i := 0 to |b|
      invariant pivot == Power(b[..i])
      invariant i > 0 ==> pivot < totalPower / 2
    {
      var vote := b[i];
      assert b[..i + 1] == b[..i] + [vote];
      SumStep(VotePower, b[..i], vote);
      pivot := pivot + vote.power;
      if pivot >= totalPower / 2 {
        PivotIsMedian(b, i);
        return vote.rate;
      }
    }
    assert b[..|b|] == b;
    return 0;
  }

  lemma PivotIsMedian(b: ExchangeRateBallot, i: nat)
    requires SortedByRate(b) && i < |b|
    requires Power(b[..i + 1]) >= Power(b) / 2 && (i > 0 ==> Power(b[..i]) < Power(b) / 2)
    ensures IsMedian(b, b[i].rate)
  {
    var r := b[i].rate;
    assert b[i] in b;
    UpToPrefix(b, i + 1, r);
    forall v | v in b && v.rate < r
      ensures Sum(UpTo(v.rate), b) < Power(b) / 2
    {
      var k :| 0 <= k < |b| && b[k] == v;
      assert k < i;
      BelowPivot(b, i, v.rate);
    }
  }

  lemma BelowPivot(b: ExchangeRateBallot, i: nat, r: Dec)
    requires SortedByRate(b) && i < |b| && r < b[i].rate
    ensures Sum(UpTo(r), b) <= Power(b[..i])
  {
    assert b == b[..i] + b[i..];
    SumSplit(UpTo(r), b[..i], b[i..]);
    UpToNone(b[i..], r);
    UpToAtMostPower(b[..i], r);
  }

  lemma {:induction false} UpToAtMostPower(b: ExchangeRateBallot, r: Dec)
    ensures Sum(UpTo(r), b) <= Power(b)
    decreases |b|
  {
    if b != [] {
      UpToAtMostPower(b[..|b| - 1], r);
    }
  }

  /** A non-empty ballot has exactly one median. */
  lemma MedianExists(b: ExchangeRateBallot)
    requires b != []
    ensures exists r :: IsMedian(b, r)
  {
    var s := SortOf(b);
    var i := FirstPivot(s, 0);
    PivotIsMedian(s, i);
    MedianOfRearranged(s, b, s[i].rate);
  }

  ghost function FirstPivot(b: ExchangeRateBallot, i: nat): (k: nat)
    requires i < |b| && (i > 0 ==> Power(b[..i]) < Power(b) / 2)
    ensures k < |b| && Power(b[..k + 1]) >= Power(b) / 2 && (k > 0 ==> Power(b[..k]) < Power(b) / 2)
    decreases |b| - i
  {
    assert b[..|b|] == b;
    if Power(b[..i + 1]) >= Power(b) / 2 then i else FirstPivot(b, i + 1)
  }

  /** Some sorted arrangement. */
  ghost function SortOf(b: ExchangeRateBallot): (r: ExchangeRateBallot)
    ensures SortedByRate(r) && SameVotes(r, b)
  {
    if b == [] then []
    else
      assert b == b[..|b| - 1] + [b[|b| - 1]];
      InsertVote(SortOf(b[..|b| - 1]), b[|b| - 1])
  }

  /** The median depends on the votes, not on their arrangement. */
  lemma MedianOfRearranged(a: ExchangeRateBallot, b: ExchangeRateBallot, r: Dec)
    requires SameVotes(a, b) && IsMedian(a, r)
    ensures IsMedian(b, r)
  {
    SumPermutation(VotePower, a, b);
    SumPermutation(UpTo(r), a, b);
    SameMembers(a, b);
    forall v | v in b && v.rate < r
      ensures Sum(UpTo(v.rate), b) < Power(b) / 2
    {
      SumPermutation(UpTo(v.rate), a, b);
    }
  }

  /** The median rate of a ballot in any arrangement, zero if it is empty. */
  ghost function Median(b: ExchangeRateBallot): (r: Dec)
    ensures b == [] ==> r == 0
    ensures b != [] ==> IsMedian(b, r)
  {
    if b == [] then 0
    else
      MedianExists(b);
      var r :| IsMedian(b, r);
      r
  }

  /** Votes below rate `r` count with their power. */
  function Below(r: Dec): Vote -> int {
    (v: Vote) => if v.rate < r then v.power else 0
  }

  lemma PowerStep(b: ExchangeRateBallot, v: Vote)
    ensures Power([]) == 0 && Power(b + [v]) == Power(b) + v.power
  {
    SumStep(VotePower, b, v);
  }

  /** Below a voted rate is up to the highest voted rate under it, if there is one. */
  lemma BelowIsUpTo(b: ExchangeRateBallot, r: Dec)
    ensures Sum(Below(r), b) == 0
            || exists v :: v in b && v.rate < r && Sum(Below(r), b) == Sum(UpTo(v.rate), b)
  {
    if exists v :: v in b && v.rate < r {
      var v := HighestBelow(b, r);
      SameSum(b, r, v.rate);
    } else {
      NothingBelow(b, r);
    }
  }

  lemma {:induction false} HighestBelow(b: ExchangeRateBallot, r: Dec) returns (v: Vote)
    requires exists v :: v in b && v.rate < r
    ensures v in b && v.rate < r && forall w | w in b && w.rate < r :: w.rate <= v.rate
    decreases |b|
  {
    var init, last := b[..|b| - 1], b[|b| - 1];
    assert b == init + [last];
    if exists w :: w in init && w.rate < r {
      v := HighestBelow(init, r);
      if last.rate < r && v.rate < last.rate {
        v := last;
      }
    } else {
      v := last;
    }
  }

  lemma {:induction false} SameSum(b: ExchangeRateBallot, r: Dec, top: Dec)
    requires top < r && forall w | w in b && w.rate < r :: w.rate <= top
    ensures Sum(Below(r), b) == Sum(UpTo(top), b)
    decreases |b|
  {
    if b != [] {
      SameSum(b[..|b| - 1], r, top);
    }
  }

  lemma {:induction false} NothingBelow(b: ExchangeRateBallot, r: Dec)
    requires forall w | w in b :: w.rate >= r
    ensures Sum(Below(r), b) == 0
    decreases |b|
  {
    if b != [] {
      NothingBelow(b[..|b| - 1], r);
    }
  }

  /** The median halves the power: what lies below it is less than half, what lies up to it at least
      half, with an odd unit to spare. */
  lemma MedianHalves(b: ExchangeRateBallot)
    requires b != []
    ensures exists v :: v in b && v.rate == Median(b)
    ensures Sum(Below(Median(b)), b) == 0 || 2 * Sum(Below(Median(b)), b) < Power(b)
    ensures 2 * Sum(UpTo(Median(b)), b) + 1 >= Power(b)
  {
    hide Sum, Power;
    BelowIsUpTo(b, Median(b));
  }

  // ----- the deviation

  function SquaredDeviation(median: Dec): Vote -> int {
    (v: Vote) => Mul(v.rate - median, v.rate - median)
  }

  /** The root is taken in floating point and printed back as a decimal: `root` stands for that. */
  function StandardDeviation(b: ExchangeRateBallot, median: Dec, root: Dec -> Dec): Dec {
    if |b| == 0 then 0 else root(QuoInt64(Sum(SquaredDeviation(median), b), |b|))
  }

  /** The exact square of a vote's distance from `median`. */
  function Square(median: Dec): Vote -> int {
    (v: Vote) => (v.rate - median) * (v.rate - median)
  }

  lemma {:induction false} SquaresRound(b: ExchangeRateBallot, median: Dec)
    ensures Abs(2 * (Sum(SquaredDeviation(median), b) * ONE - Sum(Square(median), b))) <= |b| * ONE
    decreases |b|
  {
    hide Chop;
    if b != [] {
      var v := b[|b| - 1];
      SquaresRound(b[..|b| - 1], median);
      ChopError((v.rate - median) * (v.rate - median));
    }
  }

  /** The deviation is the root of a variance that is the mean square distance up to rounding, and zero
      for an empty ballot. */
  lemma DeviationIs(b: ExchangeRateBallot, median: Dec, root: Dec -> Dec) returns (variance: Dec)
    ensures StandardDeviation(b, median, root) == if b == [] then 0 else root(variance)
    ensures b != [] ==> Abs(2 * (variance * |b| * ONE - Sum(Square(median), b))) <= 3 * |b| * ONE
  {
    hide Sum, TruncDiv;
    variance := 0;
    if b != [] {
      var n, sum := |b|, Sum(SquaredDeviation(median), b);
      variance := QuoInt64(sum, n);
      SquaresRound(b, median);
      TruncDivError(sum, n);
      assert variance * n * ONE == (variance * n - sum) * ONE + sum * ONE;
    }
  }

  lemma {:induction false} SameLength(a: ExchangeRateBallot, b: ExchangeRateBallot)
    requires SameVotes(a, b)
    ensures |a| == |b|
  {
    assert |multiset(a)| == |a| && |multiset(b)| == |b|;
  }

  // ----- cross rates

  /** The rate a voter gave in the reference ballot: its last positive one. */
  function ToMap(b: ExchangeRateBallot): map<Addr, Dec> {
    if b == [] then map[]
    else
      var v, m := b[|b| - 1], ToMap(b[..|b| - 1]);
      if v.rate > 0 then m[v.voter := v.rate] else m
  }

  /** A vote seen through the reference rates; no usable base, a non-positive rate or a quotient
      that overflows turns it into an abstention. */
  function Cross(bases: map<Addr, Dec>, overflows: Dec -> bool): Vote -> Vote {
    (v: Vote) =>
      if v.voter in bases && v.rate > 0 && !overflows(Quo(bases[v.voter], v.rate))
      then v.(rate := Quo(bases[v.voter], v.rate)) else v.(rate := 0, power := 0)
  }

  /** The vote has a usable base and rate, and a quotient that does not overflow. */
  predicate HasCross(v: Vote, bases: map<Addr, Dec>, overflows: Dec -> bool) {
    v.rate > 0 && v.voter in bases && !overflows(Quo(bases[v.voter], v.rate))
  }

  /** `v'` is `v` in the cross form: the same voter and denom; if it has a cross rate, its full power and a
      rate that times the vote's own is the voter's base up to the rounding of one quotient; if not,
      neither rate nor power. */
  predicate Crossed(v: Vote, v': Vote, bases: map<Addr, Dec>, overflows: Dec -> bool) {
    && v'.voter == v.voter && v'.denom == v.denom
    && if HasCross(v, bases, overflows) then
         v'.power == v.power && Abs(2 * (v'.rate * v.rate - bases[v.voter] * ONE)) * ONE <= (ONE + 2) * v.rate
       else v'.power == 0 && v'.rate == 0
  }

  lemma CrossIs(v: Vote, bases: map<Addr, Dec>, overflows: Dec -> bool)
    ensures Crossed(v, Cross(bases, overflows)(v), bases, overflows)
  {
    hide Quo;
    if HasCross(v, bases, overflows) {
      QuoErrorBound(bases[v.voter], v.rate);
    }
  }

  /** `ToCrossRate`: vote by vote, in the order of the ballot. */
  method ToCrossRate(ex: ExchangeRateBallot, bases: map<Addr, Dec>, overflows: Dec -> bool)
    returns (crossRateBallot: ExchangeRateBallot)
    ensures |crossRateBallot| == |ex|
    ensures forall i | 0 <= i < |ex| :: Crossed(ex[i], crossRateBallot[i], bases, overflows)
    ensures crossRateBallot == MapVotes(Cross(bases, overflows), ex)
  {
    hide Quo, Crossed;
    crossRateBallot := [];
    for i := 0 to |ex|
      invariant crossRateBallot == MapVotes(Cross(bases, overflows), ex[..i])
      invariant forall j | 0 <= j < i :: Crossed(ex[j], crossRateBallot[j], bases, overflows)
    {
      assert ex[..i + 1][..i] == ex[..i];
      CrossIs(ex[i], bases, overflows);
      var vote := ex[i];
      if vote.voter in bases && vote.rate > 0 && !overflows(Quo(bases[vote.voter], vote.rate)) {
        vote := vote.(rate := Quo(bases[vote.voter], vote.rate));
      } else {
        vote := vote.(rate := 0, power := 0);
      }
      crossRateBallot := crossRateBallot + [vote];
    }
    assert ex[..|ex|] == ex;
  }

  function MapVotes(f: Vote -> Vote, b: ExchangeRateBallot): (r: ExchangeRateBallot)
    ensures |r| == |b| && forall i | 0 <= i < |b| :: r[i] == f(b[i])
  {
    if b == [] then [] else MapVotes(f, b[..|b| - 1]) + [f(b[|b| - 1])]
  }

  lemma {:induction false} MapSplit(f: Vote -> Vote, a: ExchangeRateBallot, b: ExchangeRateBallot)
    ensures MapVotes(f, a + b) == MapVotes(f, a) + MapVotes(f, b)
  {
  }

  lemma {:induction false} MapRearranged(f: Vote -> Vote, a: ExchangeRateBallot, b: ExchangeRateBallot)
    requires SameVotes(a, b)
    ensures SameVotes(MapVotes(f, a), MapVotes(f, b))
    decreases |a|
  {
    SameLength(a, b);
    if a != [] {
      var k := FindLast(a, b);
      MapRearranged(f, a[..|a| - 1], b[..k] + b[k + 1..]);
      MapSplit(f, b[..k], b[k + 1..]);
      MapSplit(f, b[..k] + [b[k]], b[k + 1..]);
      MapSplit(f, b[..k], [b[k]]);
      assert MapVotes(f, [b[k]]) == [f(b[k])];
    }
  }

  /** The loop of `ToMap`: a later positive rate replaces an earlier one. */
  method CollectRates(ex: ExchangeRateBallot) returns (exchangeRateMap: map<Addr, Dec>)
    ensures exchangeRateMap == ToMap(ex)
  {
    exchangeRateMap := map[];
    for i := 0 to |ex|
      invariant exchangeRateMap == ToMap(ex[..i])
    {
      assert ex[..i + 1][..i] == ex[..i];
      if ex[i].rate > 0 {
        exchangeRateMap := exchangeRateMap[ex[i].voter := ex[i].rate];
      }
    }
    assert ex[..|ex|] == ex;
  }

  predicate Gave(b: ExchangeRateBallot, a: Addr, rate: Dec) { exists v | v in b :: v.voter == a && v.rate == rate }

  lemma {:induction false} ToMapWasGiven(b: ExchangeRateBallot, a: Addr)
    requires a in ToMap(b)
    ensures ToMap(b)[a] > 0 && Gave(b, a, ToMap(b)[a])
    decreases |b|
  {
    var init, last := b[..|b| - 1], b[|b| - 1];
    assert b == init + [last];
    if last.rate > 0 && a == last.voter {
      assert last in b;
    } else {
      ToMapWasGiven(init, a);
      var v :| v in init && v.voter == a && v.rate == ToMap(init)[a];
      assert v in b;
    }
  }

  /** In a sorted ballot the last positive rate of a voter is its highest. */
  lemma {:induction false} ToMapIsHighest(b: ExchangeRateBallot, v: Vote)
    requires SortedByRate(b) && v in b && v.rate > 0
    ensures v.voter in ToMap(b) && v.rate <= ToMap(b)[v.voter]
    decreases |b|
  {
    var init, last := b[..|b| - 1], b[|b| - 1];
    var k :| 0 <= k < |b| && b[k] == v;
    if k < |b| - 1 {
      assert init[k] == v;
      ToMapIsHighest(init, v);
    }
  }

  lemma SameMembers(a: ExchangeRateBallot, b: ExchangeRateBallot)
    requires SameVotes(a, b)
    ensures forall v :: v in a <==> v in b
  {
    assert forall v :: v in a <==> v in multiset(a);
    assert forall v :: v in b <==> v in multiset(b);
  }

  lemma ToMapWithin(a: ExchangeRateBallot, b: ExchangeRateBallot)
    requires SortedByRate(a) && SortedByRate(b) && (forall v :: v in a <==> v in b)
    ensures forall w | w in ToMap(a) :: w in ToMap(b) && ToMap(a)[w] <= ToMap(b)[w]
  {
    hide ToMap;
    forall w | w in ToMap(a)
      ensures w in ToMap(b) && ToMap(a)[w] <= ToMap(b)[w]
    {
      ToMapWasGiven(a, w);
      var v :| v in a && v.voter == w && v.rate == ToMap(a)[w];
      ToMapIsHighest(b, v);
    }
  }

  /** The reference rates do not depend on how equal rates are arranged. */
  lemma ToMapOfRearranged(a: ExchangeRateBallot, b: ExchangeRateBallot)
    requires SortedByRate(a) && SortedByRate(b) && SameVotes(a, b)
    ensures ToMap(a) == ToMap(b)
  {
    hide ToMap;
    SameMembers(a, b);
    ToMapWithin(a, b);
    ToMapWithin(b, a);
    assert ToMap(a).Keys == ToMap(b).Keys;
  }
}
