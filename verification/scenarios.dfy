/**
 Small directories run through one pass: the example of a delete pass over
 three hours holding three, two and one file, and a listing on which the
 pass as written keeps the older of two files of one day while the sorted
 pass keeps the newer.
 */
module Scenarios {
  import opened Options
  import opened Text
  import opened Timestamp
  import opened BucketTree
  import opened Rotate
  import opened Schedule
  import opened Retention
  import opened StampBuckets
  import opened Corrected

  /** A delete pass over three hours holding three, two and one file, listed
      oldest first, removes the first two files of the oldest hour and the
      first file of the middle hour, and leaves the newest hour alone. */
  lemma HourlyExample(succeeds: string -> bool, a0: string, a1: string, a2: string, b0: string, b1: string, c0: string,
                      k0: string, k1: string, k2: string)
    requires forall x :: succeeds(x)
    requires KeyOf(Hourly, a0) == Some(k0) && KeyOf(Hourly, a1) == Some(k0) && KeyOf(Hourly, a2) == Some(k0)
    requires KeyOf(Hourly, b0) == Some(k1) && KeyOf(Hourly, b1) == Some(k1)
    requires KeyOf(Hourly, c0) == Some(k2)
    requires Less(k0, k1) && Less(k1, k2)
    requires Distinct([a0, a1, a2, b0, b1, c0])
    ensures var r := Pass(Hourly, Delete, succeeds, Dir([a0, a1, a2, b0, b1, c0], []));
      r.ok && r.dir.entries == [a2, b1, c0]
  {
    var files := [a0, a1, a2, b0, b1, c0];
    ExamplePruned(files, k0, k1, k2);
    ExamplePass(succeeds, files);
  }

  /** The pass on a six-name listing whose pruned positions are 0, 1 and 3. */
  lemma ExamplePass(succeeds: string -> bool, files: seq<string>)
    requires forall x :: succeeds(x)
    requires |files| == 6 && Distinct(files)
    requires forall i :: 0 <= i < 6 ==> (Pruned(Hourly, files, i) <==> i == 0 || i == 1 || i == 3)
    ensures var r := Pass(Hourly, Delete, succeeds, Dir(files, []));
      r.ok && r.dir.entries == [files[2], files[4], files[5]]
  {
    var d := Dir(files, []);
    var plan := Planned(Hourly, files);
    PassResult(Hourly, Delete, succeeds, d);
    PassOutcome(Hourly, Delete, succeeds, d);
    PlannedIsPruned(Hourly, files);
    ExampleKeep(files, plan);
  }

  lemma ExampleKeep(files: seq<string>, plan: seq<string>)
    requires |files| == 6 && Covers(Hourly, files, plan)
    requires forall i :: 0 <= i < 6 ==> (Pruned(Hourly, files, i) <==> i == 0 || i == 1 || i == 3)
    ensures Keep(files, Names(plan[..|plan|])) == [files[2], files[4], files[5]]
  {
    var gone := Names(plan[..|plan|]);
    assert plan[..|plan|] == plan;
    assert forall i :: 0 <= i < 6 ==> (files[i] in gone <==> i == 0 || i == 1 || i == 3);
    KeepSix(files, gone);
  }

  lemma KeepSix(files: seq<string>, gone: set<string>)
    requires |files| == 6
    requires forall i :: 0 <= i < 6 ==> (files[i] in gone <==> i == 0 || i == 1 || i == 3)
    ensures Keep(files, gone) == [files[2], files[4], files[5]]
  {
    var f1 := files[1..];
    var f2 := f1[1..];
    var f3 := f2[1..];
    var f4 := f3[1..];
    var f5 := f4[1..];
    assert f5[1..] == [];
    assert f1[0] == files[1] && f2[0] == files[2] && f3[0] == files[3] && f4[0] == files[4] && f5[0] == files[5];
    assert files[0] in gone && files[1] in gone && files[2] !in gone;
    assert files[3] in gone && files[4] !in gone && files[5] !in gone;
    assert Keep(f5, gone) == [files[5]];
    assert Keep(f4, gone) == [files[4], files[5]];
    assert Keep(f3, gone) == Keep(f4, gone);
    assert Keep(f2, gone) == [files[2]] + Keep(f3, gone);
    assert Keep(f1, gone) == Keep(f2, gone);
  }

  /** Where the hours of the example put their files. */
  lemma ExamplePruned(files: seq<string>, k0: string, k1: string, k2: string)
    requires |files| == 6
    requires KeyOf(Hourly, files[0]) == Some(k0) && KeyOf(Hourly, files[1]) == Some(k0) && KeyOf(Hourly, files[2]) == Some(k0)
    requires KeyOf(Hourly, files[3]) == Some(k1) && KeyOf(Hourly, files[4]) == Some(k1)
    requires KeyOf(Hourly, files[5]) == Some(k2)
    requires Less(k0, k1) && Less(k1, k2)
    ensures forall i :: 0 <= i < 6 ==> (Pruned(Hourly, files, i) <==> i == 0 || i == 1 || i == 3)
  {
    LessTransitive(k0, k1, k2);
    LessIrreflexive(k0);
    LessIrreflexive(k1);
    LessIrreflexive(k2);
    assert HasNewerBucket(Hourly, files, k0) && HasNewerBucket(Hourly, files, k1) by {
      assert Less(k0, KeyOf(Hourly, files[5]).value) && Less(k1, KeyOf(Hourly, files[5]).value);
    }
    assert SharesLaterBucket(Hourly, files, 0) by {
      assert KeyOf(Hourly, files[1]) == KeyOf(Hourly, files[0]);
    }
    assert SharesLaterBucket(Hourly, files, 1) by {
      assert KeyOf(Hourly, files[2]) == KeyOf(Hourly, files[1]);
    }
    assert SharesLaterBucket(Hourly, files, 3) by {
      assert KeyOf(Hourly, files[4]) == KeyOf(Hourly, files[3]);
    }
    assert !SharesLaterBucket(Hourly, files, 2) && !SharesLaterBucket(Hourly, files, 4);
    assert !SharesLaterBucket(Hourly, files, 5);
  }

  /** The pass as written on a day holding two files listed newer first,
      with a later day beside it: the newer file goes, the older stays. */
  lemma AsWrittenKeepsOlder(succeeds: string -> bool, older: Instant, newer: Instant, later: Instant)
    requires forall x :: succeeds(x)
    requires Valid(older) && Valid(newer) && Valid(later)
    requires Period(Daily, older) == Period(Daily, newer) && Before(older, newer)
    requires NatsLess(Period(Daily, newer), Period(Daily, later))
    ensures var r := Pass(Daily, Delete, succeeds, Dir([Format(newer), Format(older), Format(later)], []));
      r.ok && Format(older) in r.dir.entries && Format(newer) !in r.dir.entries
  {
    var files := [Format(newer), Format(older), Format(later)];
    var d := Dir(files, []);
    DayFacts(older, newer, later);
    PassResult(Daily, Delete, succeeds, d);
    assert Pruned(Daily, files, 0) by {
      assert KeyOf(Daily, files[1]) == KeyOf(Daily, files[0]);
      assert Less(KeyOf(Daily, files[0]).value, KeyOf(Daily, files[2]).value);
    }
    assert !Pruned(Daily, files, 1);
  }

  /** The sorted pass on the same listing keeps the newer file instead. */
  lemma SortedKeepsNewer(succeeds: string -> bool, older: Instant, newer: Instant, later: Instant)
    requires forall x :: succeeds(x)
    requires Valid(older) && Valid(newer) && Valid(later)
    requires Period(Daily, older) == Period(Daily, newer) && Before(older, newer)
    requires NatsLess(Period(Daily, newer), Period(Daily, later))
    ensures var r := SortedPass(Daily, Delete, succeeds, Dir([Format(newer), Format(older), Format(later)], []));
      r.ok && Format(newer) in r.dir.entries && Format(older) !in r.dir.entries
  {
    var files := [Format(newer), Format(older), Format(later)];
    DayFacts(older, newer, later);
    FormatOrder(older, newer);
    NewerIsGreatest(files, Format(newer), Format(older));
    SortedSucceeds(Daily, succeeds, Dir(files, []));
    SortedPassVerdict(Daily, Delete, succeeds, Dir(files, []), Format(newer));
  }

  /** In a three-name listing whose first two names share a day and whose
      third lies on a later day, the greater of the first two is the
      greatest of its bucket, which has a newer bucket beside it. */
  lemma NewerIsGreatest(files: seq<string>, x: string, y: string)
    requires |files| == 3 && files[0] == x && files[1] == y && Less(y, x)
    requires KeyOf(Daily, x).Some? && KeyOf(Daily, y) == KeyOf(Daily, x) && KeyOf(Daily, files[2]).Some?
    requires Less(KeyOf(Daily, x).value, KeyOf(Daily, files[2]).value)
    ensures HasNewerBucket(Daily, files, KeyOf(Daily, x).value)
    ensures forall z :: z in files && KeyOf(Daily, z) == KeyOf(Daily, x) ==> z == x || Less(z, x)
  {
    LessIrreflexive(KeyOf(Daily, x).value);
  }

  /** With every operation succeeding, the corrected delete pass succeeds. */
  lemma SortedSucceeds(g: Granularity, succeeds: string -> bool, d: Dir)
    requires forall x :: succeeds(x)
    requires Distinct(d.entries)
    ensures SortedPass(g, Delete, succeeds, d).ok
  {
    SortKeepsNames(d.entries);
    PassResult(g, Delete, succeeds, d.(entries := Sort(d.entries)));
  }

  /** What the three instants say about their names and daily keys. */
  lemma DayFacts(older: Instant, newer: Instant, later: Instant)
    requires Valid(older) && Valid(newer) && Valid(later)
    requires Period(Daily, older) == Period(Daily, newer) && Before(older, newer)
    requires NatsLess(Period(Daily, newer), Period(Daily, later))
    ensures KeyOf(Daily, Format(older)).Some? && KeyOf(Daily, Format(newer)).Some? && KeyOf(Daily, Format(later)).Some?
    ensures KeyOf(Daily, Format(older)) == KeyOf(Daily, Format(newer))
    ensures Less(KeyOf(Daily, Format(newer)).value, KeyOf(Daily, Format(later)).value)
    ensures KeyOf(Daily, Format(older)) != KeyOf(Daily, Format(later))
    ensures Distinct([Format(newer), Format(older), Format(later)])
  {
    assert Format(older) + "" == Format(older) && Format(newer) + "" == Format(newer) && Format(later) + "" == Format(later);
    StampBucketOrder(Daily, older, newer, "", "");
    StampBucketOrder(Daily, newer, later, "", "");
    StampBucketOrder(Daily, older, later, "", "");
    FormatOrder(older, newer);
    LessIrreflexive(Format(newer));
    LessIrreflexive(KeyOf(Daily, Format(newer)).value);
    if Format(later) == Format(older) || Format(later) == Format(newer) {
      LessIrreflexive(KeyOf(Daily, Format(later)).value);
    }
  }

  /** Instants that meet the conditions above: two on 2023-01-01 one
      nanosecond apart, and one on 2023-01-02. */
  lemma DayInstantsExist()
    ensures var older, newer, later := Instant(2023, 1, 1, 0, 0, 0, 1), Instant(2023, 1, 1, 0, 0, 0, 2), Instant(2023, 1, 2, 0, 0, 0, 0);
      && Valid(older) && Valid(newer) && Valid(later)
      && Period(Daily, older) == Period(Daily, newer) && Before(older, newer)
      && NatsLess(Period(Daily, newer), Period(Daily, later))
  {
    var a := [2023, 1, 1, 0, 0, 0, 1];
    var b := [2023, 1, 1, 0, 0, 0, 2];
    assert a[1..][1..][1..][1..][1..][1..] == [1] && b[1..][1..][1..][1..][1..][1..] == [2];
    assert [2023, 1, 1][1..][1..] == [1] && [2023, 1, 2][1..][1..] == [2];
  }
}
