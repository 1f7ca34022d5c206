/** What the refresh of the vote targets guarantees after every period, and where it falls short. */
module OracleWhitelist {
  import opened Ordering
  import opened OracleBallot
  import opened OracleTally
  import opened OracleState

  function Names(whitelist: seq<Denom>): set<string> {
    if whitelist == [] then {} else Names(whitelist[..|whitelist| - 1]) + {whitelist[|whitelist| - 1].name}
  }

  predicate DistinctNames(whitelist: seq<Denom>) {
    forall i, j | 0 <= i < j < |whitelist| :: whitelist[i].name != whitelist[j].name
  }

  lemma {:induction false} NamesAre(whitelist: seq<Denom>)
    ensures forall item | item in whitelist :: item.name in Names(whitelist)
    ensures forall n | n in Names(whitelist) :: exists i :: 0 <= i < |whitelist| && whitelist[i].name == n
    ensures TargetsOf(whitelist).Keys == Names(whitelist)
    decreases |whitelist|
  {
    if whitelist != [] {
      var init, last := whitelist[..|whitelist| - 1], whitelist[|whitelist| - 1];
      NamesAre(init);
      assert whitelist == init + [last];
      forall n | n in Names(whitelist)
        ensures exists i :: 0 <= i < |whitelist| && whitelist[i].name == n
      {
        if n in Names(init) {
          var i :| 0 <= i < |init| && init[i].name == n;
          assert whitelist[i].name == n;
        } else {
          assert whitelist[|whitelist| - 1].name == n;
        }
      }
    }
  }

  /** A list holds as many names as items only if no name repeats. */
  lemma {:induction false} NamesCount(whitelist: seq<Denom>)
    ensures |Names(whitelist)| <= |whitelist|
    ensures |Names(whitelist)| == |whitelist| <==> DistinctNames(whitelist)
    decreases |whitelist|
  {
    hide DistinctNames;
    if whitelist != [] {
      var init, last := whitelist[..|whitelist| - 1], whitelist[|whitelist| - 1].name;
      NamesCount(init);
      DistinctStep(whitelist);
      if last in Names(init) {
        assert Names(whitelist) == Names(init);
      } else {
        assert |Names(init) + {last}| == |Names(init)| + 1;
      }
    } else {
      NoNames();
    }
  }

  lemma NoNames()
    ensures DistinctNames([])
  {
  }

  lemma DistinctStep(whitelist: seq<Denom>)
    requires whitelist != []
    ensures var init := whitelist[..|whitelist| - 1];
            DistinctNames(whitelist) <==> DistinctNames(init) && whitelist[|whitelist| - 1].name !in Names(init)
  {
    hide Names;
    var n, init := |whitelist| - 1, whitelist[..|whitelist| - 1];
    NamesAre(init);
    assert forall i | 0 <= i < n :: init[i] == whitelist[i] && init[i] in init;
  }

  /** A set of the size of one of its subsets is that subset. */
  lemma SameSize<T>(small: set<T>, large: set<T>)
    requires small <= large && |small| >= |large|
    ensures small == large
  {
    assert large == small + (large - small);
    assert |large| == |small| + |large - small|;
  }

  /** The refresh is skipped exactly when the reduced targets hold every whitelisted name and are as
      many as the list is long; for distinct names, exactly when they are the whitelist. */
  lemma SkippedWhen(whitelist: seq<Denom>, voteTargets: map<string, Denom>)
    ensures !UpdateRequired(whitelist, voteTargets)
        <==> Names(whitelist) <= voteTargets.Keys && |voteTargets| == |whitelist|
    ensures DistinctNames(whitelist)
        ==> (!UpdateRequired(whitelist, voteTargets) <==> voteTargets.Keys == Names(whitelist))
  {
    NamesAre(whitelist);
    NamesCount(whitelist);
    assert |voteTargets| == |voteTargets.Keys|;
    if Names(whitelist) <= voteTargets.Keys && |voteTargets| == |whitelist| && DistinctNames(whitelist) {
      SameSize(Names(whitelist), voteTargets.Keys);
    }
  }

  /** After every period each whitelisted name is a stored target. */
  lemma WhitelistIsCovered(s: Store, p: Params, env: Env)
    ensures Names(p.whitelist) <= Close(s, p, env).targets.Keys
  {
    hide PassingOf, RefOf, BelowOf, CountersAfter, RatesAfter, FinalClaims, UpdateRequired, TargetsOf, Names;
    NamesAre(p.whitelist);
    SkippedWhen(p.whitelist, ReducedTargets(s, p, env));
  }

  /** The refresh alone, `failed` being the names taken out of the targets it looks at. */
  lemma RefreshIsExactWhen(stored: map<string, Denom>, whitelist: seq<Denom>, failed: set<string>)
    requires DistinctNames(whitelist) && failed <= stored.Keys
    ensures TargetsAfter(stored, whitelist, stored - failed).Keys == Names(whitelist) <==>
              failed == {} || stored.Keys - failed != Names(whitelist)
  {
    hide UpdateRequired, TargetsOf, Names, DistinctNames;
    NamesAre(whitelist);
    SkippedWhen(whitelist, stored - failed);
    assert (stored - failed).Keys == stored.Keys - failed;
    if failed != {} {
      var d :| d in failed;
      assert d in stored.Keys - (stored.Keys - failed);
    }
  }

  /** For every whitelist, the stored targets are exactly its names if and only if they were before, or
      the map the refresh looks at, the targets without those that failed, misses a name or differs
      from the list in length. */
  lemma WhitelistExactness(s: Store, p: Params, env: Env)
    ensures Close(s, p, env).targets.Keys == Names(p.whitelist) <==>
              || s.targets.Keys == Names(p.whitelist)
              || !(Names(p.whitelist) <= ReducedTargets(s, p, env).Keys && |ReducedTargets(s, p, env)| == |p.whitelist|)
  {
    hide PassingOf, RefOf, BelowOf, CountersAfter, RatesAfter, FinalClaims, UpdateRequired, TargetsOf, Names,
         ReducedTargets;
    NamesAre(p.whitelist);
    SkippedWhen(p.whitelist, ReducedTargets(s, p, env));
  }

  /** For distinct names that is: unless the ballots that failed are precisely those of the targets off
      the whitelist. Taking them out of the map the refresh looks at makes it look up to date, and
      they stay stored. */
  lemma DistinctWhitelistExactness(s: Store, p: Params, env: Env)
    requires DistinctNames(p.whitelist)
    ensures Close(s, p, env).targets.Keys == Names(p.whitelist) <==>
              BelowOf(s, p, env) == map[] || s.targets.Keys - BelowOf(s, p, env).Keys != Names(p.whitelist)
  {
    hide PassingOf, RefOf, BelowOf, CountersAfter, RatesAfter, FinalClaims, TargetsAfter, Names, DistinctNames;
    BelowAreTargets(s, p, env);
    RefreshIsExactWhen(s.targets, p.whitelist, BelowOf(s, p, env).Keys);
  }

  lemma BelowAreTargets(s: Store, p: Params, env: Env)
    ensures BelowOf(s, p, env).Keys <= s.targets.Keys
  {
  }

  /** Without distinct names the count can agree by accident: no vote at all is cast, and the target
      `b`, which the whitelist never named, is kept in every period to come. */
  lemma RepeatedNameKeepsStaleTarget(p: Params, env: Env)
    requires p.whitelist == [Denom("a"), Denom("a")]
    ensures var s := Store(map[], map[], map[], map["a" := Denom("a"), "b" := Denom("b")]);
            BelowOf(s, p, env) == map[] && Close(s, p, env).targets == s.targets && "b" !in Names(p.whitelist)
  {
    hide PassingOf, RefOf, CountersAfter, RatesAfter, FinalClaims, TargetsOf, Power;
    var s := Store(map[], map[], map[], map["a" := Denom("a"), "b" := Denom("b")]);
    assert BelowOf(s, p, env) == map[];
    assert ReducedTargets(s, p, env) == s.targets;
    assert s.targets.Keys == {"a", "b"};
    assert |s.targets| == 2;
    NamesAre(p.whitelist);
    assert !UpdateRequired(p.whitelist, s.targets);
  }
}
