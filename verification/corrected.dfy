/**
 Which member of a bucket survives. `rotate` keeps the member listed last,
 and `list_files` hands over the names in whatever order `fs::read_dir`
 yields them, which no file system promises to be sorted; the retention
 policy the program implements keeps the most recent file of every closed
 period. Sorting each listing before its pass, as `Sort` does here, makes
 the last member of each bucket its latest one, and the pass then keeps
 exactly the newest file of every bucket but the newest.
 */
module Corrected {
  import opened Options
  import opened Text
  import opened Timestamp
  import opened BucketTree
  import opened Rotate
  import opened Schedule
  import opened Retention
  import opened StampBuckets

  /** No name is below a name listed before it. */
  predicate Ascending(s: seq<string>) {
    forall i, j :: 0 <= i < j < |s| ==> !Less(s[j], s[i])
  }

  /** `x` placed into an ascending sequence before the first name not
      below it. */
  function InsertName(x: string, s: seq<string>): (r: seq<string>)
    requires Ascending(s)
    ensures Ascending(r)
    ensures multiset(r) == multiset(s) + multiset{x}
    ensures Distinct(s) && x !in s ==> Distinct(r)
  {
    if s == [] then [x]
    else if !Less(s[0], x) then
      assert forall y :: y in s ==> !Less(y, x) by {
        forall y | y in s
          ensures !Less(y, x)
        {
          var j :| 0 <= j < |s| && s[j] == y;
          if j > 0 {
            NotLessTransitive(s[j], s[0], x);
          }
        }
      }
      AscendingCons(x, s);
      DistinctCons(x, s);
      [x] + s
    else
      var rest := InsertName(x, s[1..]);
      AboveHead(x, s, rest);
      AscendingCons(s[0], rest);
      assert s == [s[0]] + s[1..];
      [s[0]] + rest
  }

  /** What the recursive case of `InsertName` needs of the insertion into
      the tail: nothing in it is below the head, and no repeat arises. */
  lemma AboveHead(x: string, s: seq<string>, rest: seq<string>)
    requires Ascending(s) && s != [] && Less(s[0], x)
    requires multiset(rest) == multiset(s[1..]) + multiset{x}
    requires Distinct(s) && x !in s ==> Distinct(rest)
    ensures forall y :: y in rest ==> !Less(y, s[0])
    ensures Distinct(s) && x !in s ==> Distinct([s[0]] + rest)
  {
    forall y | y in rest
      ensures !Less(y, s[0])
    {
      assert y in multiset(rest);
      if y == x {
        LessAsymmetric(s[0], x);
      } else {
        assert y in multiset(s[1..]);
        var j :| 0 <= j < |s[1..]| && s[1..][j] == y;
        assert s[j + 1] == y;
      }
    }
    if Distinct(s) && x !in s {
      assert s == [s[0]] + s[1..];
      DistinctCons(s[0], s[1..]);
      assert s[0] !in multiset(rest);
      DistinctCons(s[0], rest);
    }
  }

  /** A name no later name is below can lead an ascending sequence. */
  lemma AscendingCons(x: string, s: seq<string>)
    requires Ascending(s)
    requires forall y :: y in s ==> !Less(y, x)
    ensures Ascending([x] + s)
  {
    var r := [x] + s;
    forall i, j | 0 <= i < j < |r|
      ensures !Less(r[j], r[i])
    {
      assert r[j] == s[j - 1] && r[j] in s;
      if i > 0 {
        assert r[i] == s[i - 1];
      }
    }
  }

  /** `a` not below `b` and `b` not below `c` leaves `a` not below `c`. */
  lemma NotLessTransitive(a: string, b: string, c: string)
    requires !Less(a, b) && !Less(b, c)
    ensures !Less(a, c)
  {
    if a != b && b != c {
      LessTotal(a, b);
      LessTotal(b, c);
      LessTransitive(c, b, a);
      LessAsymmetric(c, a);
    }
  }

  /** Insertion sort of a directory listing by name, which for stamped names
      is chronological order. */
  function Sort(s: seq<string>): (r: seq<string>)
    ensures Ascending(r)
    ensures multiset(r) == multiset(s)
    ensures Distinct(s) ==> Distinct(r)
  {
    if s == [] then []
    else
      assert s == [s[0]] + s[1..];
      var rest := Sort(s[1..]);
      assert Distinct(s) ==> Distinct(rest) && s[0] !in rest by {
        if Distinct(s) {
          DistinctCons(s[0], s[1..]);
          assert s[0] !in multiset(rest);
        }
      }
      InsertName(s[0], rest)
  }

  /** The names any pattern accepts (all of them begin with a four-digit
      year) come in ascending order; other names may sit anywhere. */
  predicate StampOrdered(files: seq<string>) {
    forall i, j :: 0 <= i < j < |files| && KeyOf(Yearly, files[i]).Some? && KeyOf(Yearly, files[j]).Some? ==>
      !Less(files[j], files[i])
  }

  /** The corrected pass: one pass of `rotate` over the listing sorted by
      name, so that the last member of a bucket is its latest one. */
  function SortedPass(g: Granularity, strategy: Strategy, succeeds: string -> bool, d: Dir): Outcome {
    Pass(g, strategy, succeeds, d.(entries := Sort(d.entries)))
  }

  /** The listings of the corrected `run`: every pass sorts the listing it
      was handed before building its buckets. */
  function SortedLists(relist: (Granularity, seq<string>) -> seq<string>): (Granularity, seq<string>) -> seq<string> {
    (g: Granularity, entries: seq<string>) => Sort(relist(g, entries))
  }

  /** The corrected `run`: the same chain of passes, each over its listing
      sorted by name. */
  function SortedRun(settings: Settings, succeeds: string -> bool, mkdirOk: bool,
                     relist: (Granularity, seq<string>) -> seq<string>, d: Dir): Outcome {
    Run(settings, succeeds, mkdirOk, SortedLists(relist), d)
  }

  /** Whether a key has a newer one depends only on the keys present. */
  lemma NewerBucketByKeys(g: Granularity, files: seq<string>, k: string)
    ensures HasNewerBucket(g, files, k) <==> exists k' :: k' in KeysOf(g, files) && Less(k, k')
  {
    if exists k' :: k' in KeysOf(g, files) && Less(k, k') {
      var k' :| k' in KeysOf(g, files) && Less(k, k');
      var f :| f in files && KeyOf(g, f) == Some(k');
      var j :| 0 <= j < |files| && files[j] == f;
    }
    if HasNewerBucket(g, files, k) {
      var j :| 0 <= j < |files| && KeyOf(g, files[j]).Some? && Less(k, KeyOf(g, files[j]).value);
      assert KeyOf(g, files[j]).value in KeysOf(g, files);
    }
  }

  /** Of the names of bucket `k` in `files`, `after` holds exactly one: the
      greatest. */
  predicate KeepsGreatest(g: Granularity, files: seq<string>, after: seq<string>, k: string) {
    exists x ::
      && x in files && KeyOf(g, x) == Some(k) && x in after
      && (forall y :: y in files && KeyOf(g, y) == Some(k) ==> y == x || Less(y, x))
      && (forall y :: y in after && KeyOf(g, y) == Some(k) ==> y == x)
  }

  lemma KeepsGreatestSameNames(g: Granularity, a: seq<string>, b: seq<string>, after: seq<string>, k: string)
    requires forall x :: x in a <==> x in b
    requires KeepsGreatest(g, a, after, k)
    ensures KeepsGreatest(g, b, after, k)
  {
    var x :| && x in a && KeyOf(g, x) == Some(k) && x in after
      && (forall y :: y in a && KeyOf(g, y) == Some(k) ==> y == x || Less(y, x))
      && (forall y :: y in after && KeyOf(g, y) == Some(k) ==> y == x);
    assert x in b;
  }

  /** On a stamp-ordered listing a successful pass leaves, of each bucket
      with a newer bucket beside it, exactly its greatest member. */
  lemma GreatestSurvives(g: Granularity, strategy: Strategy, succeeds: string -> bool, d: Dir, k: string)
    requires Distinct(d.entries) && StampOrdered(d.entries)
    requires Pass(g, strategy, succeeds, d).ok
    requires k in KeysOf(g, d.entries) && HasNewerBucket(g, d.entries, k)
    ensures KeepsGreatest(g, d.entries, Pass(g, strategy, succeeds, d).dir.entries, k)
  {
    var files := d.entries;
    var after := Pass(g, strategy, succeeds, d).dir.entries;
    PassResult(g, strategy, succeeds, d);
    OneSurvivorPerBucket(g, strategy, succeeds, d, k);
    var i := LastWithKey(g, files, k);
    assert files[i] in after;
    var x :| x in after && KeyOf(g, x) == Some(k) && forall y :: y in after && KeyOf(g, y) == Some(k) ==> y == x;
    assert x == files[i];
    LastIsGreatest(g, files, k, i);
  }

  /** In a stamp-ordered listing the last name of a bucket is its greatest. */
  lemma LastIsGreatest(g: Granularity, files: seq<string>, k: string, i: nat)
    requires Distinct(files) && StampOrdered(files)
    requires i < |files| && KeyOf(g, files[i]) == Some(k) && !SharesLaterBucket(g, files, i)
    ensures forall y :: y in files && KeyOf(g, y) == Some(k) ==> y == files[i] || Less(y, files[i])
  {
    var x := files[i];
    forall y | y in files && KeyOf(g, y) == Some(k)
      ensures y == x || Less(y, x)
    {
      var j :| 0 <= j < |files| && files[j] == y;
      assert KeyOf(g, files[j]) == KeyOf(g, files[i]);
      if j < i {
        MatchesYear(g, y);
        MatchesYear(g, x);
        LessTotal(y, x);
      }
    }
  }

  lemma {:induction false} SortKeepsNames(files: seq<string>)
    ensures forall x :: x in Sort(files) <==> x in files
    ensures StampOrdered(Sort(files))
  {
    var r := Sort(files);
    forall x
      ensures x in r <==> x in files
    {
      assert x in r <==> x in multiset(r);
      assert x in files <==> x in multiset(files);
    }
  }

  /** The corrected pass keeps, of each bucket with a newer bucket beside
      it, exactly the bucket's greatest name: for stamped names, the most
      recent one. */
  lemma SortedPassKeepsNewest(g: Granularity, strategy: Strategy, succeeds: string -> bool, d: Dir, k: string)
    requires Distinct(d.entries)
    requires SortedPass(g, strategy, succeeds, d).ok
    requires k in KeysOf(g, d.entries) && HasNewerBucket(g, d.entries, k)
    ensures KeepsGreatest(g, d.entries, SortedPass(g, strategy, succeeds, d).dir.entries, k)
  {
    var sorted := Sort(d.entries);
    SortKeepsNames(d.entries);
    SameBuckets(g, d.entries, sorted, k);
    GreatestSurvives(g, strategy, succeeds, d.(entries := sorted), k);
    KeepsGreatestSameNames(g, sorted, d.entries, SortedPass(g, strategy, succeeds, d).dir.entries, k);
  }

  /** Listings holding the same names have the same buckets. */
  lemma SameBuckets(g: Granularity, a: seq<string>, b: seq<string>, k: string)
    requires forall x :: x in a <==> x in b
    ensures KeysOf(g, a) == KeysOf(g, b)
    ensures HasNewerBucket(g, a, k) <==> HasNewerBucket(g, b, k)
  {
    NewerBucketByKeys(g, a, k);
    NewerBucketByKeys(g, b, k);
  }

  /** Under the corrected pass, the greatest name of a bucket with a newer
      bucket beside it survives, and every smaller name of it goes. */
  lemma SortedPassVerdict(g: Granularity, strategy: Strategy, succeeds: string -> bool, d: Dir, x: string)
    requires Distinct(d.entries) && SortedPass(g, strategy, succeeds, d).ok
    requires x in d.entries && KeyOf(g, x).Some? && HasNewerBucket(g, d.entries, KeyOf(g, x).value)
    requires forall y :: y in d.entries && KeyOf(g, y) == KeyOf(g, x) ==> y == x || Less(y, x)
    ensures x in SortedPass(g, strategy, succeeds, d).dir.entries
    ensures forall y :: y in d.entries && KeyOf(g, y) == KeyOf(g, x) && y != x ==>
      y !in SortedPass(g, strategy, succeeds, d).dir.entries
  {
    var k := KeyOf(g, x).value;
    assert k in KeysOf(g, d.entries);
    SortedPassKeepsNewest(g, strategy, succeeds, d, k);
    var s :| && s in d.entries && KeyOf(g, s) == Some(k)
      && s in SortedPass(g, strategy, succeeds, d).dir.entries
      && (forall y :: y in d.entries && KeyOf(g, y) == Some(k) ==> y == s || Less(y, s))
      && (forall y :: y in SortedPass(g, strategy, succeeds, d).dir.entries && KeyOf(g, y) == Some(k) ==> y == s);
    if s != x {
      LessAsymmetric(s, x);
      assert false;
    }
  }

  /** The sorted listings are listings of the directory too, holding the
      same names as the lister's, with the stamped names in order; so
      everything `Retention.RunConserves` states holds of `SortedRun`. */
  lemma SortedListsLists(relist: (Granularity, seq<string>) -> seq<string>)
    requires Lists(relist)
    ensures Lists(SortedLists(relist))
    ensures forall g, entries :: StampOrdered(SortedLists(relist)(g, entries))
    ensures forall g, entries, x :: x in SortedLists(relist)(g, entries) <==> x in relist(g, entries)
  {
    forall g, entries
      ensures IsListing(entries, SortedLists(relist)(g, entries))
      ensures StampOrdered(SortedLists(relist)(g, entries))
      ensures forall x :: x in SortedLists(relist)(g, entries) <==> x in relist(g, entries)
    {
      assert IsListing(entries, relist(g, entries));
      SortKeepsNames(relist(g, entries));
    }
  }

  /** Of the names of bucket `k` in `listing`, exactly one is in `after`:
      the greatest. Names the listing does not hold are not counted. */
  predicate KeepsGreatestListed(g: Granularity, listing: seq<string>, after: seq<string>, k: string) {
    exists x ::
      && x in listing && KeyOf(g, x) == Some(k) && x in after
      && (forall y :: y in listing && KeyOf(g, y) == Some(k) ==> y == x || Less(y, x))
      && (forall y :: y in listing && y in after && KeyOf(g, y) == Some(k) ==> y == x)
  }

  /** One pass of the corrected run: over the sorted listing it was handed,
      a successful pass keeps, of each listed bucket with a newer listed
      bucket beside it, exactly the greatest listed name. */
  lemma SortedPassOnKeepsNewest(g: Granularity, strategy: Strategy, succeeds: string -> bool, d: Dir, listing: seq<string>, k: string)
    requires Distinct(d.entries) && IsListing(d.entries, listing)
    requires PassOn(g, strategy, succeeds, d, Sort(listing)).ok
    requires k in KeysOf(g, listing) && HasNewerBucket(g, listing, k)
    ensures KeepsGreatestListed(g, listing, PassOn(g, strategy, succeeds, d, Sort(listing)).dir.entries, k)
  {
    var inner := Dir(listing, d.moved);
    var p := Pass(g, strategy, succeeds, Dir(Sort(listing), d.moved));
    var rest := Keep(d.entries, Names(Sort(listing)));
    assert inner.(entries := Sort(listing)) == Dir(Sort(listing), d.moved);
    assert SortedPass(g, strategy, succeeds, inner) == p;
    assert PassOn(g, strategy, succeeds, d, Sort(listing)).dir.entries == p.dir.entries + rest;
    SortKeepsNames(listing);
    SortedPassKeepsNewest(g, strategy, succeeds, inner, k);
    ListedSurvivor(g, listing, p.dir.entries, rest, k);
  }

  /** Appending names the listing does not hold leaves the listing's
      survivors as they were. */
  lemma ListedSurvivor(g: Granularity, listing: seq<string>, after: seq<string>, rest: seq<string>, k: string)
    requires KeepsGreatest(g, listing, after, k)
    requires forall y :: y in listing ==> y !in rest
    ensures KeepsGreatestListed(g, listing, after + rest, k)
  {
    var x :| && x in listing && KeyOf(g, x) == Some(k) && x in after
      && (forall y :: y in listing && KeyOf(g, y) == Some(k) ==> y == x || Less(y, x))
      && (forall y :: y in after && KeyOf(g, y) == Some(k) ==> y == x);
    assert x in after + rest;
  }

  /** The corrected pass never keeps a stamped name of a closed bucket when
      the bucket holds a name stamped later: the survivor is the most
      recent file of its period. */
  lemma SortedPassDropsOlder(g: Granularity, strategy: Strategy, succeeds: string -> bool, d: Dir, k: string,
                             a: Instant, sa: string, b: Instant, sb: string)
    requires Distinct(d.entries) && SortedPass(g, strategy, succeeds, d).ok
    requires HasNewerBucket(g, d.entries, k)
    requires Valid(a) && Valid(b) && Before(a, b)
    requires Format(a) + sa in d.entries && Format(b) + sb in d.entries
    requires KeyOf(g, Format(a) + sa) == Some(k) && KeyOf(g, Format(b) + sb) == Some(k)
    ensures Format(a) + sa !in SortedPass(g, strategy, succeeds, d).dir.entries
  {
    assert k in KeysOf(g, d.entries);
    StampNameOrder(a, b, sa, sb);
    SortedPassKeepsNewest(g, strategy, succeeds, d, k);
    SmallerGoes(g, d.entries, SortedPass(g, strategy, succeeds, d).dir.entries, k, Format(a) + sa, Format(b) + sb);
  }

  /** Where only the greatest name of a bucket is kept, a name below another
      name of the bucket is not. */
  lemma SmallerGoes(g: Granularity, files: seq<string>, after: seq<string>, k: string, older: string, newer: string)
    requires KeepsGreatest(g, files, after, k)
    requires newer in files && KeyOf(g, older) == Some(k) && KeyOf(g, newer) == Some(k)
    requires Less(older, newer)
    ensures older !in after
  {
    var x :| && x in files && KeyOf(g, x) == Some(k) && x in after
      && (forall y :: y in files && KeyOf(g, y) == Some(k) ==> y == x || Less(y, x))
      && (forall y :: y in after && KeyOf(g, y) == Some(k) ==> y == x);
    if newer != x {
      LessTransitive(older, newer, x);
    }
    LessIrreflexive(x);
    assert older != x;
  }
}
