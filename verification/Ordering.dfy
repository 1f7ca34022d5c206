/** Byte-wise string order, ascending key lists, and sums that do not depend on order. */
module Ordering {

  // ----- strings

  /** Go's `<` on strings. */
  predicate Less(a: string, b: string) {
    b != "" && (a == "" || a[0] < b[0] || (a[0] == b[0] && Less(a[1..], b[1..])))
  }

  lemma {:induction false} LessTransitive(a: string, b: string, c: string)
    requires Less(a, b) && Less(b, c)
    ensures Less(a, c)
  {
    if a != "" && a[0] == b[0] == c[0] {
      LessTransitive(a[1..], b[1..], c[1..]);
    }
  }

  lemma {:induction false} LessTotal(a: string, b: string)
    ensures Less(a, b) || a == b || Less(b, a)
  {
    if a != "" && b != "" && a[0] == b[0] {
      LessTotal(a[1..], b[1..]);
      assert a == [a[0]] + a[1..] && b == [b[0]] + b[1..];
    }
  }

  lemma {:induction false} LessIrreflexive(a: string)
    ensures !Less(a, a)
  {
    if a != "" {
      LessIrreflexive(a[1..]);
    }
  }

  /** One string is less than another exactly if it is a proper prefix of it, or has the smaller character
      where they first differ. */
  lemma {:induction false} LessMeans(a: string, b: string)
    ensures Less(a, b) <==> a < b || exists i :: LowerAt(a, b, i)
  {
    hide LowerAt;
    if a != "" && b != "" {
      assert a == [a[0]] + a[1..] && b == [b[0]] + b[1..];
      if a[0] == b[0] {
        LessMeans(a[1..], b[1..]);
        PrefixLater(a, b);
        if i :| LowerAt(a[1..], b[1..], i) {
          LowerLater(a, b, i);
        }
        if i :| LowerAt(a, b, i) {
          LowerLater(a, b, i - 1);
        }
      } else {
        LowerAtOnce(a, b);
      }
    } else {
      NothingLower(a, b);
    }
  }

  /** `a` and `b` agree before place `i`, where `a` has the smaller character. */
  predicate LowerAt(a: string, b: string, i: int) {
    0 <= i < |a| && i < |b| && a[..i] == b[..i] && a[i] < b[i]
  }

  lemma NothingLower(a: string, b: string)
    requires a == "" || b == ""
    ensures forall i :: !LowerAt(a, b, i)
    ensures a < b <==> a == "" && b != ""
  {
  }

  lemma LowerAtOnce(a: string, b: string)
    requires a != "" && b != "" && a[0] != b[0]
    ensures (exists i :: LowerAt(a, b, i)) <==> a[0] < b[0]
    ensures !(a < b)
  {
    assert a < b ==> a[0] == b[0];
    forall i
      ensures LowerAt(a, b, i) && i > 0 ==> a[0] == b[0]
    {
      SameFirst(a, b, i);
    }
    if a[0] < b[0] {
      assert LowerAt(a, b, 0);
    }
  }

  lemma SameFirst(a: string, b: string, i: int)
    requires a != "" && b != ""
    ensures LowerAt(a, b, i) && i > 0 ==> a[0] == b[0]
  {
    if LowerAt(a, b, i) && i > 0 {
      assert a[..i][0] == b[..i][0];
    }
  }

  lemma PrefixLater(a: string, b: string)
    requires a != "" && b != "" && a[0] == b[0]
    ensures a < b <==> a[1..] < b[1..]
  {
    assert a == [a[0]] + a[1..] && b == [b[0]] + b[1..];
    if |a| <= |b| {
      assert b[..|a|] == [b[0]] + b[1..][..|a| - 1];
      assert a <= b <==> a == b[..|a|];
      assert a[1..] <= b[1..] <==> a[1..] == b[1..][..|a| - 1];
    }
  }

  /** With the same first character, the rest is lower one place earlier. */
  lemma LowerLater(a: string, b: string, i: int)
    requires a != "" && b != "" && a[0] == b[0]
    ensures LowerAt(a[1..], b[1..], i) <==> LowerAt(a, b, i + 1)
  {
    if 0 <= i < |a| - 1 && i < |b| - 1 {
      assert a[..i + 1] == [a[0]] + a[1..][..i] && b[..i + 1] == [b[0]] + b[1..][..i];
      assert a[1..][..i] == a[..i + 1][1..] && b[1..][..i] == b[..i + 1][1..];
    }
  }

  // ----- ascending lists

  predicate Ascending(ss: seq<string>) { forall i, j | 0 <= i < j < |ss| :: Less(ss[i], ss[j]) }

  /** Inserts into an ascending list; an element already there is not repeated. */
  function Insert(s: string, ss: seq<string>): (r: seq<string>)
    requires Ascending(ss)
    ensures Ascending(r)
    ensures forall x :: x in r <==> x == s || x in ss
  {
    if ss == [] then [s]
    else if s == ss[0] then ss
    else
      LessTotal(s, ss[0]);
      if Less(s, ss[0]) then
        assert forall j | 0 < j < |ss| :: Less(s, ss[j]) by {
          forall j | 0 < j < |ss| ensures Less(s, ss[j]) { LessTransitive(s, ss[0], ss[j]); }
        }
        [s] + ss
      else
        var rest := Insert(s, ss[1..]);
        assert forall x | x in rest :: Less(ss[0], x);
        assert ss == [ss[0]] + ss[1..];
        [ss[0]] + rest
  }

  /** An ascending list is determined by its elements. */
  lemma {:induction false} AscendingUnique(a: seq<string>, b: seq<string>)
    requires Ascending(a) && Ascending(b)
    requires forall x :: x in a <==> x in b
    ensures a == b
    decreases |a|
  {
    assert a != [] ==> a[0] in b;
    assert b != [] ==> b[0] in a;
    if a != [] {
      FirstIsLeast(a, b);
      HeadNotInTail(a);
      HeadNotInTail(b);
      forall x
        ensures x in a[1..] <==> x in b[1..]
      {
        assert x in a <==> x == a[0] || x in a[1..];
        assert x in b <==> x == b[0] || x in b[1..];
      }
      AscendingUnique(a[1..], b[1..]);
      assert a == [a[0]] + a[1..] && b == [b[0]] + b[1..];
    }
  }

  lemma HeadNotInTail(a: seq<string>)
    requires Ascending(a) && a != []
    ensures a[0] !in a[1..] && a == [a[0]] + a[1..]
  {
    LessIrreflexive(a[0]);
    forall k | 0 <= k < |a[1..]|
      ensures a[1..][k] != a[0]
    {
      assert Less(a[0], a[k + 1]);
    }
  }

  lemma LastIsNew(ks: seq<string>)
    requires Ascending(ks) && ks != []
    ensures ks[|ks| - 1] !in ks[..|ks| - 1]
  {
    forall i | 0 <= i < |ks| - 1
      ensures ks[i] != ks[|ks| - 1]
    {
      assert Less(ks[i], ks[|ks| - 1]);
      LessIrreflexive(ks[i]);
    }
  }

  lemma FirstIsLeast(a: seq<string>, b: seq<string>)
    requires Ascending(a) && Ascending(b) && a != [] && b != []
    requires forall x :: x in a <==> x in b
    ensures a[0] == b[0]
  {
    assert a[0] in b && b[0] in a;
    if a[0] != b[0] {
      LessTransitive(a[0], b[0], a[0]);
      LessIrreflexive(a[0]);
    }
  }

  function KeySet(keys: seq<string>): set<string> { set k | k in keys }

  lemma NoKeys()
    ensures KeySet([]) == {}
  {
  }

  lemma OneKeyMore(keys: seq<string>)
    requires Ascending(keys) && keys != []
    ensures var init, last := keys[..|keys| - 1], keys[|keys| - 1];
            KeySet(keys) == KeySet(init) + {last} && last !in KeySet(init) && Ascending(init) && last in keys
    ensures forall k | k in keys[..|keys| - 1] :: k in keys
  {
    LastIsNew(keys);
    assert keys == keys[..|keys| - 1] + [keys[|keys| - 1]];
  }

  /** The keys of a set in ascending order. */
  ghost function SortedSeq(s: set<string>): (r: seq<string>)
    ensures Ascending(r)
    ensures forall x :: x in r <==> x in s
  {
    if s == {} then [] else
      var x :| x in s;
      Insert(x, SortedSeq(s - {x}))
  }

  /** The keys a `range` over a map yields, in whatever order, collected and then sorted. */
  method CollectAndSort(keys: set<string>) returns (r: seq<string>)
    ensures r == SortedSeq(keys)
  {
    r := [];
    var todo := keys;
    while todo != {}
      invariant todo <= keys && Ascending(r)
      invariant forall x :: x in r <==> x in keys - todo
      decreases todo
    {
      var k :| k in todo;
      todo := todo - {k};
      r := Insert(k, r);
    }
    AscendingUnique(r, SortedSeq(keys));
  }

  // ----- sums over sequences

  function Sum<T>(f: T -> int, ts: seq<T>): int {
    if ts == [] then 0 else Sum(f, ts[..|ts| - 1]) + f(ts[|ts| - 1])
  }

  lemma SumStep<T>(f: T -> int, ts: seq<T>, t: T)
    ensures Sum(f, ts + [t]) == Sum(f, ts) + f(t)
  {
    assert (ts + [t])[..|ts|] == ts;
  }

  lemma SumOne<T>(f: T -> int, t: T)
    ensures Sum(f, [t]) == f(t)
  {
    assert [] + [t] == [t];
    SumStep(f, [], t);
  }

  lemma {:induction false} SumSplit<T>(f: T -> int, a: seq<T>, b: seq<T>)
    ensures Sum(f, a + b) == Sum(f, a) + Sum(f, b)
    decreases |b|
  {
    if b == [] {
      assert a + b == a;
    } else {
      assert (a + b)[..|a + b| - 1] == a + b[..|b| - 1];
      SumSplit(f, a, b[..|b| - 1]);
    }
  }

  /** Where the last element of `a` sits in a rearrangement `b`, and what is left of `b` without it. */
  lemma FindLast<T>(a: seq<T>, b: seq<T>) returns (k: nat)
    requires multiset(a) == multiset(b) && a != []
    ensures k < |b| && b[k] == a[|a| - 1]
    ensures b == b[..k] + [b[k]] + b[k + 1..]
    ensures multiset(b[..k] + b[k + 1..]) == multiset(a[..|a| - 1])
  {
    var t := a[|a| - 1];
    assert a == a[..|a| - 1] + [t];
    assert t in multiset(b);
    k :| 0 <= k < |b| && b[k] == t;
    assert b == b[..k] + [t] + b[k + 1..];
    assert multiset(b) == multiset(b[..k] + b[k + 1..]) + multiset{t};
    assert multiset(a) == multiset(a[..|a| - 1]) + multiset{t};
    assert multiset(b[..k] + b[k + 1..]) == multiset(b) - multiset{t};
    assert multiset(a[..|a| - 1]) == multiset(a) - multiset{t};
  }

  /** Rearranging the terms leaves a sum alone. */
  lemma {:induction false} SumPermutation<T>(f: T -> int, a: seq<T>, b: seq<T>)
    requires multiset(a) == multiset(b)
    ensures Sum(f, a) == Sum(f, b)
    decreases |a|
  {
    if a == [] {
      assert |multiset(b)| == 0;
    } else {
      var k := FindLast(a, b);
      SumPermutation(f, a[..|a| - 1], b[..k] + b[k + 1..]);
      SumSplit(f, b[..k], b[k + 1..]);
      SumSplit(f, b[..k] + [b[k]], b[k + 1..]);
      SumStep(f, b[..k], b[k]);
    }
  }

  lemma {:induction false} SumNonNegative<T>(f: T -> int, ts: seq<T>)
    requires forall t | t in ts :: f(t) >= 0
    ensures Sum(f, ts) >= 0
    decreases |ts|
  {
    if ts != [] {
      SumNonNegative(f, ts[..|ts| - 1]);
    }
  }

  // ----- sums over maps

  /** The sum of a map's values. */
  ghost function Total(m: map<string, int>): int {
    if m == map[] then 0 else
      var x :| x in m;
      m[x] + Total(m - {x})
  }

  lemma {:induction false} TotalRemove(m: map<string, int>, x: string)
    requires x in m
    ensures Total(m) == m[x] + Total(m - {x})
    decreases |m|
  {
    var y :| y in m && Total(m) == m[y] + Total(m - {y});
    if x != y {
      TotalRemove(m - {y}, x);
      TotalRemove(m - {x}, y);
      assert m - {y} - {x} == m - {x} - {y};
    }
  }

  /** Changing one entry changes the total by the difference. */
  lemma TotalUpdate(m: map<string, int>, x: string, n: int)
    requires x in m
    ensures Total(m[x := n]) == Total(m) - m[x] + n
  {
    TotalRemove(m, x);
    TotalRemove(m[x := n], x);
    assert m[x := n] - {x} == m - {x};
  }
}
