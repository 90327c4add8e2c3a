/**
 What one rotation pass, and the chain of passes `run` performs, leaves in
 the task directory: which names survive, which are gone, what the `moved`
 directory gains, and where a failure stops the work.
 */
module Retention {
  import opened Options
  import opened Text
  import opened BucketTree
  import opened Rotate
  import opened Schedule

  /** The position of the first name whose operation fails; the length of
      the sequence when every operation succeeds. */
  function FirstFailure(strategy: Strategy, succeeds: string -> bool, names: seq<string>): (k: nat)
    ensures k <= |names|
    ensures AllSucceed(strategy, succeeds, names[..k])
    ensures k < |names| ==> !Succeeds(strategy, succeeds, names[k])
    decreases |names|
  {
    if names == [] || !Succeeds(strategy, succeeds, names[0]) then 0
    else
      var k := FirstFailure(strategy, succeeds, names[1..]);
      assert names[..k + 1][1..] == names[1..][..k];
      AllSucceedStep(strategy, succeeds, names[..k + 1]);
      1 + k
  }

  /** The strategy works through the names until the first failure: the
      names before it are done, and neither the failing name nor any after
      it is touched. */
  lemma ApplyStops(strategy: Strategy, succeeds: string -> bool, d: Dir, names: seq<string>)
    ensures var k := FirstFailure(strategy, succeeds, names);
      Apply(strategy, succeeds, d, names) == Outcome(Apply(strategy, succeeds, d, names[..k]).dir, k == |names|)
  {
    var k := FirstFailure(strategy, succeeds, names);
    assert names == names[..k] + names[k..];
    ApplyAppend(strategy, succeeds, d, names[..k], names[k..]);
    if k < |names| {
      assert names[k..][0] == names[k];
    }
  }

  /** One pass does the planned operations up to the first failure and
      nothing else. */
  lemma PassOutcome(g: Granularity, strategy: Strategy, succeeds: string -> bool, d: Dir)
    ensures var plan := Planned(g, d.entries);
      var k := FirstFailure(strategy, succeeds, plan);
      var r := Pass(g, strategy, succeeds, d);
      && (r.ok <==> k == |plan|)
      && r.dir.entries == Keep(d.entries, Names(plan[..k]))
      && r.dir.moved == d.moved + (if strategy == Move then plan[..k] else [])
  {
    PassIsApply(g, strategy, succeeds, d);
    ApplyStops(strategy, succeeds, d, Planned(g, d.entries));
  }

  /** `plan` holds listed names only, and exactly the pruned ones. */
  predicate Covers(g: Granularity, files: seq<string>, plan: seq<string>) {
    && (forall x :: x in plan ==> x in files)
    && (forall i :: 0 <= i < |files| ==> (files[i] in plan <==> Pruned(g, files, i)))
  }

  /** Succeeding on every name of a plan that covers the pruned names is
      succeeding on every pruned name. */
  lemma CoveredSucceed(g: Granularity, strategy: Strategy, succeeds: string -> bool, files: seq<string>, plan: seq<string>)
    requires Covers(g, files, plan)
    ensures AllSucceed(strategy, succeeds, plan) <==>
      forall i :: 0 <= i < |files| && Pruned(g, files, i) ==> Succeeds(strategy, succeeds, files[i])
  {
    if AllSucceed(strategy, succeeds, plan) {
      forall i | 0 <= i < |files| && Pruned(g, files, i)
        ensures Succeeds(strategy, succeeds, files[i])
      {
        var p :| 0 <= p < |plan| && plan[p] == files[i];
      }
    }
    if forall i :: 0 <= i < |files| && Pruned(g, files, i) ==> Succeeds(strategy, succeeds, files[i]) {
      forall p | 0 <= p < |plan|
        ensures Succeeds(strategy, succeeds, plan[p])
      {
        assert plan[p] in plan;
        var i :| 0 <= i < |files| && files[i] == plan[p];
      }
    }
  }

  /** A pass succeeds exactly when every pruned name is operated on
      successfully, and then the survivors are exactly the names that are
      not pruned; a move pass gathers the pruned names in `moved`. */
  lemma PassResult(g: Granularity, strategy: Strategy, succeeds: string -> bool, d: Dir)
    requires Distinct(d.entries)
    ensures var r := Pass(g, strategy, succeeds, d);
      r.ok <==> (forall i :: 0 <= i < |d.entries| && Pruned(g, d.entries, i) ==> Succeeds(strategy, succeeds, d.entries[i]))
    ensures var r := Pass(g, strategy, succeeds, d);
      r.ok ==> forall i :: 0 <= i < |d.entries| ==> (d.entries[i] in r.dir.entries <==> !Pruned(g, d.entries, i))
    ensures var r := Pass(g, strategy, succeeds, d);
      r.ok ==> r.dir.moved == d.moved + (if strategy == Move then Planned(g, d.entries) else [])
  {
    var plan := Planned(g, d.entries);
    PassIsApply(g, strategy, succeeds, d);
    PlannedIsPruned(g, d.entries);
    assert Covers(g, d.entries, plan);
    CoveredSucceed(g, strategy, succeeds, d.entries, plan);
  }

  /** Whatever the outcome, a pass removes only listed names, and never one
      that is not pruned: not a name the pattern rejects, not a member of
      the newest bucket, not the last listed member of a bucket. */
  lemma PassSpares(g: Granularity, strategy: Strategy, succeeds: string -> bool, d: Dir)
    requires Distinct(d.entries)
    ensures forall x :: x in Pass(g, strategy, succeeds, d).dir.entries ==> x in d.entries
    ensures forall i :: 0 <= i < |d.entries| && !Pruned(g, d.entries, i) ==>
      d.entries[i] in Pass(g, strategy, succeeds, d).dir.entries
    ensures forall i :: 0 <= i < |d.entries| && KeyOf(g, d.entries[i]).None? ==>
      d.entries[i] in Pass(g, strategy, succeeds, d).dir.entries
    ensures forall i :: 0 <= i < |d.entries| && KeyOf(g, d.entries[i]).Some? ==>
      HasNewerBucket(g, d.entries, KeyOf(g, d.entries[i]).value) ||
      d.entries[i] in Pass(g, strategy, succeeds, d).dir.entries
    ensures forall i :: 0 <= i < |d.entries| && !SharesLaterBucket(g, d.entries, i) ==>
      d.entries[i] in Pass(g, strategy, succeeds, d).dir.entries
  {
    var plan := Planned(g, d.entries);
    var k := FirstFailure(strategy, succeeds, plan);
    PassOutcome(g, strategy, succeeds, d);
    PlannedIsPruned(g, d.entries);
    assert Covers(g, d.entries, plan);
    UnprunedNotDone(g, d.entries, plan, k);
  }

  /** No name outside the plan is among the first `k` names of the plan. */
  lemma UnprunedNotDone(g: Granularity, files: seq<string>, plan: seq<string>, k: nat)
    requires Covers(g, files, plan) && k <= |plan|
    ensures forall i :: 0 <= i < |files| && !Pruned(g, files, i) ==> files[i] !in Names(plan[..k])
  {
    forall i | 0 <= i < |files| && !Pruned(g, files, i)
      ensures files[i] !in Names(plan[..k])
    {
      assert files[i] !in plan;
      assert forall p :: 0 <= p < k ==> plan[..k][p] == plan[p] && plan[p] in plan;
    }
  }

  /** The first listed position holding a name of bucket `k` that no later
      name of the same bucket follows. */
  lemma {:induction false} LastWithKey(g: Granularity, files: seq<string>, k: string) returns (i: nat)
    requires k in KeysOf(g, files)
    ensures i < |files| && KeyOf(g, files[i]) == Some(k) && !SharesLaterBucket(g, files, i)
    decreases |files|
  {
    var n := |files|;
    if KeyOf(g, files[n - 1]) == Some(k) {
      i := n - 1;
    } else {
      var init := files[..n - 1];
      var f :| f in files && KeyOf(g, f) == Some(k);
      assert f in init by {
        var p :| 0 <= p < n && files[p] == f;
        assert init[p] == f;
      }
      i := LastWithKey(g, init, k);
      assert init[i] == files[i];
      forall j | i < j < n
        ensures KeyOf(g, files[j]) != Some(k)
      {
        if j < n - 1 {
          assert init[j] == files[j];
          assert !(i < j < |init| && KeyOf(g, init[j]) == KeyOf(g, init[i]));
        }
      }
    }
  }

  /** After a successful pass, a bucket with a newer bucket beside it holds
      exactly one name, the one listed last; the newest bucket keeps all its
      names. */
  lemma OneSurvivorPerBucket(g: Granularity, strategy: Strategy, succeeds: string -> bool, d: Dir, k: string)
    requires Distinct(d.entries) && Pass(g, strategy, succeeds, d).ok
    requires k in KeysOf(g, d.entries)
    ensures HasNewerBucket(g, d.entries, k) ==>
      exists x :: x in Pass(g, strategy, succeeds, d).dir.entries && KeyOf(g, x) == Some(k) &&
        forall y :: y in Pass(g, strategy, succeeds, d).dir.entries && KeyOf(g, y) == Some(k) ==> y == x
    ensures !HasNewerBucket(g, d.entries, k) ==>
      forall x :: x in d.entries && KeyOf(g, x) == Some(k) ==> x in Pass(g, strategy, succeeds, d).dir.entries
  {
    PassResult(g, strategy, succeeds, d);
    PassSpares(g, strategy, succeeds, d);
    SurvivorsPerBucket(g, d.entries, Pass(g, strategy, succeeds, d).dir.entries, k);
  }

  /** Survivors are the listed names that are not pruned: then one name per
      older bucket is left, and the newest bucket keeps everything. */
  lemma SurvivorsPerBucket(g: Granularity, files: seq<string>, after: seq<string>, k: string)
    requires forall x :: x in after ==> x in files
    requires forall i :: 0 <= i < |files| ==> (files[i] in after <==> !Pruned(g, files, i))
    requires k in KeysOf(g, files)
    ensures HasNewerBucket(g, files, k) ==>
      exists x :: x in after && KeyOf(g, x) == Some(k) && forall y :: y in after && KeyOf(g, y) == Some(k) ==> y == x
    ensures !HasNewerBucket(g, files, k) ==>
      forall x :: x in files && KeyOf(g, x) == Some(k) ==> x in after
  {
    if HasNewerBucket(g, files, k) {
      var i := LastWithKey(g, files, k);
      assert files[i] in after;
      forall y | y in after && KeyOf(g, y) == Some(k)
        ensures y == files[i]
      {
        var j :| 0 <= j < |files| && files[j] == y;
        assert !Pruned(g, files, j);
        assert KeyOf(g, files[i]) == KeyOf(g, files[j]);
      }
    } else {
      forall x | x in files && KeyOf(g, x) == Some(k)
        ensures x in after
      {
        var j :| 0 <= j < |files| && files[j] == x;
        assert !Pruned(g, files, j);
      }
    }
  }

  /** A listing with at most one bucket, in particular an empty listing or
      one in which nothing matches, makes the pass succeed without touching
      anything. */
  lemma PassIdle(g: Granularity, strategy: Strategy, succeeds: string -> bool, d: Dir)
    requires Distinct(d.entries)
    requires forall a, b :: a in KeysOf(g, d.entries) && b in KeysOf(g, d.entries) ==> a == b
    ensures Pass(g, strategy, succeeds, d) == Outcome(d, true)
  {
    PassIsApply(g, strategy, succeeds, d);
    PlannedIsPruned(g, d.entries);
    NothingPruned(g, d.entries, Planned(g, d.entries));
  }

  /** With at most one bucket nothing is pruned, so a covering plan is empty. */
  lemma NothingPruned(g: Granularity, files: seq<string>, plan: seq<string>)
    requires Covers(g, files, plan)
    requires forall a, b :: a in KeysOf(g, files) && b in KeysOf(g, files) ==> a == b
    ensures plan == []
  {
    if plan != [] {
      assert plan[0] in plan;
      var i :| 0 <= i < |files| && files[i] == plan[0];
      var k := KeyOf(g, files[i]).value;
      var j :| 0 <= j < |files| && KeyOf(g, files[j]).Some? && Less(k, KeyOf(g, files[j]).value);
      assert k in KeysOf(g, files) && KeyOf(g, files[j]).value in KeysOf(g, files);
      LessIrreflexive(k);
      assert false;
    }
  }

  /** What any pass, successful or not, keeps: the listing stays free of
      repeats and only loses names, names no pattern accepts stay, a move
      puts every name it takes away into `moved`, and only a move touches
      `moved`. */
  lemma PassConserves(g: Granularity, strategy: Strategy, succeeds: string -> bool, d: Dir)
    requires Distinct(d.entries)
    ensures var r := Pass(g, strategy, succeeds, d);
      && Distinct(r.dir.entries)
      && (forall x :: x in r.dir.entries ==> x in d.entries)
      && (forall x :: x in d.entries && KeyOf(Yearly, x).None? ==> x in r.dir.entries)
      && (forall x :: x in d.moved ==> x in r.dir.moved)
      && (strategy == Move ==> forall x :: x in d.entries ==> x in r.dir.entries || x in r.dir.moved)
      && (strategy != Move ==> r.dir.moved == d.moved)
  {
    var plan := Planned(g, d.entries);
    var k := FirstFailure(strategy, succeeds, plan);
    PassOutcome(g, strategy, succeeds, d);
    PassSpares(g, strategy, succeeds, d);
    KeepDistinct(d.entries, Names(plan[..k]));
    forall x | x in d.entries && KeyOf(Yearly, x).None?
      ensures x in Pass(g, strategy, succeeds, d).dir.entries
    {
      MatchesYear(g, x);
      var i :| 0 <= i < |d.entries| && d.entries[i] == x;
    }
  }

  /** A pass over a listing of the directory, whatever the outcome, keeps
      what a pass over the whole directory keeps: the directory stays free of
      repeats and only loses names, names no pattern accepts stay, a move
      puts every name it takes away into `moved`, and only a move touches
      `moved`. */
  lemma PassOnConserves(g: Granularity, strategy: Strategy, succeeds: string -> bool, d: Dir, listing: seq<string>)
    requires Distinct(d.entries) && IsListing(d.entries, listing)
    ensures var r := PassOn(g, strategy, succeeds, d, listing);
      && Distinct(r.dir.entries)
      && (forall x :: x in r.dir.entries ==> x in d.entries)
      && (forall x :: x in d.entries && KeyOf(Yearly, x).None? ==> x in r.dir.entries)
      && (forall x :: x in d.moved ==> x in r.dir.moved)
      && (strategy == Move ==> forall x :: x in d.entries ==> x in r.dir.entries || x in r.dir.moved)
      && (strategy != Move ==> r.dir.moved == d.moved)
  {
    var inner := Dir(listing, d.moved);
    var p := Pass(g, strategy, succeeds, inner);
    var rest := Keep(d.entries, Names(listing));
    PassConserves(g, strategy, succeeds, inner);
    KeepDistinct(d.entries, Names(listing));
    DistinctConcat(p.dir.entries, rest);
    assert PassOn(g, strategy, succeeds, d, listing).dir.entries == p.dir.entries + rest;
  }

  /** A pass over a listing succeeds exactly when every pruned name of the
      listing is operated on successfully; then the listed names left are
      exactly those not pruned. Names the listing missed are never touched. */
  lemma PassOnResult(g: Granularity, strategy: Strategy, succeeds: string -> bool, d: Dir, listing: seq<string>)
    requires Distinct(d.entries) && IsListing(d.entries, listing)
    ensures var r := PassOn(g, strategy, succeeds, d, listing);
      r.ok <==> (forall i :: 0 <= i < |listing| && Pruned(g, listing, i) ==> Succeeds(strategy, succeeds, listing[i]))
    ensures var r := PassOn(g, strategy, succeeds, d, listing);
      r.ok ==> forall i :: 0 <= i < |listing| ==> (listing[i] in r.dir.entries <==> !Pruned(g, listing, i))
    ensures forall x :: x in d.entries && x !in listing ==> x in PassOn(g, strategy, succeeds, d, listing).dir.entries
  {
    var inner := Dir(listing, d.moved);
    var p := Pass(g, strategy, succeeds, inner);
    var rest := Keep(d.entries, Names(listing));
    PassResult(g, strategy, succeeds, inner);
    PassConserves(g, strategy, succeeds, inner);
    assert PassOn(g, strategy, succeeds, d, listing).dir.entries == p.dir.entries + rest;
  }

  /** A listing with at most one bucket, in particular the empty listing of
      a directory that cannot be read, makes the pass succeed with the
      directory's names and `moved` as they were. */
  lemma PassOnIdle(g: Granularity, strategy: Strategy, succeeds: string -> bool, d: Dir, listing: seq<string>)
    requires Distinct(d.entries) && IsListing(d.entries, listing)
    requires forall a, b :: a in KeysOf(g, listing) && b in KeysOf(g, listing) ==> a == b
    ensures var r := PassOn(g, strategy, succeeds, d, listing);
      && r.ok && r.dir.moved == d.moved
      && (forall x :: x in r.dir.entries <==> x in d.entries)
  {
    PassIdle(g, strategy, succeeds, Dir(listing, d.moved));
  }

  /** Chaining passes over two lists of granularities one after the other:
      the second list runs on what the first left, and only if it succeeded. */
  lemma {:induction false} CascadeAppend(settings: Settings, strategy: Strategy, succeeds: string -> bool,
                                          relist: (Granularity, seq<string>) -> seq<string>, d: Dir,
                                          a: seq<Granularity>, b: seq<Granularity>)
    ensures Cascade(settings, strategy, succeeds, relist, d, a + b) ==
      (var r := Cascade(settings, strategy, succeeds, relist, d, a);
       if !r.ok then r else Cascade(settings, strategy, succeeds, relist, r.dir, b))
    decreases |a|
  {
    if a == [] {
      assert a + b == b;
    } else {
      assert (a + b)[0] == a[0] && (a + b)[1..] == a[1..] + b;
      var first := if Enabled(settings, a[0]) then PassOn(a[0], strategy, succeeds, d, relist(a[0], d.entries)) else Outcome(d, true);
      if first.ok {
        CascadeAppend(settings, strategy, succeeds, relist, first.dir, a[1..], b);
      }
    }
  }

  /** A chain of granularities none of which is enabled succeeds without
      listing or touching anything. */
  lemma {:induction false} CascadeDisabled(settings: Settings, strategy: Strategy, succeeds: string -> bool,
                                            relist: (Granularity, seq<string>) -> seq<string>, d: Dir, gs: seq<Granularity>)
    requires forall i :: 0 <= i < |gs| ==> !Enabled(settings, gs[i])
    ensures Cascade(settings, strategy, succeeds, relist, d, gs) == Outcome(d, true)
    decreases |gs|
  {
    if gs != [] {
      assert !Enabled(settings, gs[0]);
      CascadeDisabled(settings, strategy, succeeds, relist, d, gs[1..]);
    }
  }

  /** A task with every rotation flag off: a delete run succeeds with
      nothing touched, and a move run does the same except that it still
      creates a missing `moved` first. */
  lemma RunDisabled(settings: Settings, succeeds: string -> bool, mkdirOk: bool,
                    relist: (Granularity, seq<string>) -> seq<string>, d: Dir)
    requires !settings.hourly && !settings.daily && !settings.monthly && !settings.yearly
    ensures StrategyOf(settings.strategy) == Delete ==>
      Run(settings, succeeds, mkdirOk, relist, d) == Outcome(d, true)
    ensures StrategyOf(settings.strategy) == Move && MovedDir in d.entries ==>
      Run(settings, succeeds, mkdirOk, relist, d) == Outcome(d, true)
    ensures StrategyOf(settings.strategy) == Move && MovedDir !in d.entries && mkdirOk ==>
      Run(settings, succeeds, mkdirOk, relist, d) == Outcome(d.(entries := d.entries + [MovedDir]), true)
  {
    var strategy := StrategyOf(settings.strategy);
    forall i | 0 <= i < |Order| ensures !Enabled(settings, Order[i]) {
      assert Order[i] in Order;
    }
    CascadeDisabled(settings, strategy, succeeds, relist, d, Order);
    CascadeDisabled(settings, strategy, succeeds, relist, d.(entries := d.entries + [MovedDir]), Order);
  }

  /** What every pass keeps, the whole chain keeps, whatever each pass's
      listing was. */
  lemma {:induction false} CascadeConserves(settings: Settings, strategy: Strategy, succeeds: string -> bool,
                                             relist: (Granularity, seq<string>) -> seq<string>, d: Dir, gs: seq<Granularity>)
    requires Lists(relist) && Distinct(d.entries)
    ensures var r := Cascade(settings, strategy, succeeds, relist, d, gs);
      && Distinct(r.dir.entries)
      && (forall x :: x in r.dir.entries ==> x in d.entries)
      && (forall x :: x in d.entries && KeyOf(Yearly, x).None? ==> x in r.dir.entries)
      && (forall x :: x in d.moved ==> x in r.dir.moved)
      && (strategy == Move ==> forall x :: x in d.entries ==> x in r.dir.entries || x in r.dir.moved)
      && (strategy != Move ==> r.dir.moved == d.moved)
    decreases |gs|
  {
    if gs != [] {
      var listing := relist(gs[0], d.entries);
      var first := if Enabled(settings, gs[0]) then PassOn(gs[0], strategy, succeeds, d, listing) else Outcome(d, true);
      if Enabled(settings, gs[0]) {
        assert IsListing(d.entries, listing);
        PassOnConserves(gs[0], strategy, succeeds, d, listing);
      }
      if first.ok {
        CascadeConserves(settings, strategy, succeeds, relist, first.dir, gs[1..]);
      }
    }
  }

  /** `run` as a whole: it only removes names of the directory besides
      creating `moved`, it never touches a name without a leading year, a
      move run loses nothing, and a delete run leaves `moved` alone. */
  lemma RunConserves(settings: Settings, succeeds: string -> bool, mkdirOk: bool,
                     relist: (Granularity, seq<string>) -> seq<string>, d: Dir)
    requires Lists(relist) && Distinct(d.entries)
    ensures var r := Run(settings, succeeds, mkdirOk, relist, d);
      && Distinct(r.dir.entries)
      && (forall x :: x in r.dir.entries ==> x in d.entries || x == MovedDir)
      && (forall x :: x in d.entries && KeyOf(Yearly, x).None? ==> x in r.dir.entries)
      && (StrategyOf(settings.strategy) == Move ==>
            forall x :: x in d.entries ==> x in r.dir.entries || x in r.dir.moved)
      && (StrategyOf(settings.strategy) == Move && r.ok ==> MovedDir in r.dir.entries)
      && (StrategyOf(settings.strategy) != Move ==> r.dir.moved == d.moved)
  {
    var strategy := StrategyOf(settings.strategy);
    if strategy == Delete {
      CascadeConserves(settings, strategy, succeeds, relist, d, Order);
    } else if strategy == Move {
      assert KeyOf(Yearly, MovedDir).None? by {
        assert !IsDigit(MovedDir[..4][0]);
      }
      if MovedDir in d.entries {
        CascadeConserves(settings, strategy, succeeds, relist, d, Order);
      } else if mkdirOk {
        var d' := d.(entries := d.entries + [MovedDir]);
        DistinctConcat(d.entries, [MovedDir]);
        CascadeConserves(settings, strategy, succeeds, relist, d', Order);
      }
    }
  }
}
