/**
 Which names one rotation pass operates on, and in which order.

 `Planned` flattens the pass of src/vault/rotate.rs into the sequence of
 names handed to the strategy; `Pruned` says independently, name by name,
 what the pass does: a name is operated on exactly when it matches the
 granularity's pattern, a name listed after it falls into the same bucket,
 and some listed name falls into a later bucket. The lemmas connect the two
 and derive what a pass leaves behind.
 */
module Schedule {
  import opened Options
  import opened Text
  import opened BucketTree
  import opened Rotate

  /** Every bucket's members but its last, bucket after bucket. */
  function Victims(buckets: seq<Bucket>): seq<string> {
    if buckets == [] then [] else AllButLast(buckets[0].members) + Victims(buckets[1..])
  }

  /** The names one pass of granularity `g` operates on, in the order it
      operates on them, when nothing fails. */
  function Planned(g: Granularity, files: seq<string>): seq<string> {
    var tree := ListTree(g, files);
    if tree == [] then [] else Victims(tree[..|tree| - 1])
  }

  /** A name listed after position `i` falls into the same bucket. */
  predicate SharesLaterBucket(g: Granularity, files: seq<string>, i: nat)
    requires i < |files|
  {
    exists j :: i < j < |files| && KeyOf(g, files[j]) == KeyOf(g, files[i])
  }

  /** Some listed name falls into a bucket after `key`. */
  predicate HasNewerBucket(g: Granularity, files: seq<string>, key: string) {
    exists j :: 0 <= j < |files| && KeyOf(g, files[j]).Some? && Less(key, KeyOf(g, files[j]).value)
  }

  /** The name at position `i` is one the pass deletes or moves. */
  predicate Pruned(g: Granularity, files: seq<string>, i: nat)
    requires i < |files|
  {
    && KeyOf(g, files[i]).Some?
    && SharesLaterBucket(g, files, i)
    && HasNewerBucket(g, files, KeyOf(g, files[i]).value)
  }

  /** Running the strategy over two sequences of names one after the other. */
  lemma {:induction false} ApplyAppend(strategy: Strategy, succeeds: string -> bool, d: Dir, a: seq<string>, b: seq<string>)
    ensures Apply(strategy, succeeds, d, a + b) ==
      (var r := Apply(strategy, succeeds, d, a); if !r.ok then r else Apply(strategy, succeeds, r.dir, b))
    decreases |a|
  {
    if a == [] {
      assert a + b == b;
    } else {
      assert (a + b)[0] == a[0] && (a + b)[1..] == a[1..] + b;
      var first := Operate(strategy, succeeds, d, a[0]);
      if first.ok {
        ApplyAppend(strategy, succeeds, first.dir, a[1..], b);
      }
    }
  }

  lemma {:induction false} RotateBucketsIsApply(strategy: Strategy, succeeds: string -> bool, d: Dir, buckets: seq<Bucket>)
    ensures RotateBuckets(strategy, succeeds, d, buckets) == Apply(strategy, succeeds, d, Victims(buckets))
    decreases |buckets|
  {
    if buckets != [] {
      var members := buckets[0].members;
      ApplyAppend(strategy, succeeds, d, AllButLast(members), Victims(buckets[1..]));
      var r := Apply(strategy, succeeds, d, AllButLast(members));
      if |members| <= 1 {
        RotateBucketsIsApply(strategy, succeeds, d, buckets[1..]);
      } else if r.ok {
        RotateBucketsIsApply(strategy, succeeds, r.dir, buckets[1..]);
      }
    }
  }

  /** A pass is the strategy applied to the planned names, stopping at the
      first failure. */
  lemma PassIsApply(g: Granularity, strategy: Strategy, succeeds: string -> bool, d: Dir)
    ensures Pass(g, strategy, succeeds, d) == Apply(strategy, succeeds, d, Planned(g, d.entries))
  {
    var tree := ListTree(g, d.entries);
    if tree != [] {
      RotateBucketsIsApply(strategy, succeeds, d, tree[..|tree| - 1]);
    }
  }

  lemma {:induction false} VictimsMembers(buckets: seq<Bucket>, x: string)
    ensures x in Victims(buckets) <==> exists m :: 0 <= m < |buckets| && x in AllButLast(buckets[m].members)
  {
    if buckets != [] {
      VictimsMembers(buckets[1..], x);
      if x in Victims(buckets[1..]) {
        var m :| 0 <= m < |buckets| - 1 && x in AllButLast(buckets[1..][m].members);
        assert buckets[1..][m] == buckets[m + 1];
      }
      if exists m :: 0 < m < |buckets| && x in AllButLast(buckets[m].members) {
        var m :| 0 < m < |buckets| && x in AllButLast(buckets[m].members);
        assert buckets[1..][m - 1] == buckets[m];
      }
    }
  }

  /** A member of a prefix's filter is followed by another one exactly when
      some later listed name starts with the prefix too. */
  lemma {:induction false} FilterAllButLast(files: seq<string>, k: string, i: nat)
    requires Distinct(files) && i < |files| && k <= files[i]
    ensures files[i] in AllButLast(Filter(files, k)) <==> exists j :: i < j < |files| && k <= files[j]
  {
    var rest := Filter(files[1..], k);
    if k <= files[0] {
      assert Filter(files, k) == [files[0]] + rest;
      if i == 0 {
        if |rest| > 0 {
          assert AllButLast(Filter(files, k))[0] == files[0];
          assert rest[0] in rest;
          var j' :| 0 <= j' < |files| - 1 && files[1..][j'] == rest[0];
          assert files[j' + 1] == rest[0];
        } else {
          assert AllButLast(Filter(files, k)) == [];
          forall j | 0 < j < |files|
            ensures !(k <= files[j])
          {
            assert files[j] == files[1..][j - 1];
            assert files[j] in files[1..];
          }
        }
      } else {
        assert files[i] == files[1..][i - 1];
        FilterAllButLast(files[1..], k, i - 1);
        if |rest| > 0 {
          assert AllButLast(Filter(files, k)) == [files[0]] + AllButLast(rest);
        }
        LaterInTail(files, k, i);
      }
    } else {
      assert Filter(files, k) == rest;
      assert i > 0;
      assert files[i] == files[1..][i - 1];
      FilterAllButLast(files[1..], k, i - 1);
      LaterInTail(files, k, i);
    }
  }

  lemma LaterInTail(files: seq<string>, k: string, i: nat)
    requires 0 < i < |files|
    ensures (exists j :: i < j < |files| && k <= files[j]) <==>
      (exists j :: i - 1 < j < |files| - 1 && k <= files[1..][j])
  {
    if exists j :: i < j < |files| && k <= files[j] {
      var j :| i < j < |files| && k <= files[j];
      assert files[1..][j - 1] == files[j];
    }
    if exists j :: i - 1 < j < |files| - 1 && k <= files[1..][j] {
      var j :| i - 1 < j < |files| - 1 && k <= files[1..][j];
      assert files[1..][j] == files[j + 1];
    }
  }

  /** The keys of the tree are the keys of the listing, each of the
      pattern's shape, and each at some position of the tree. */
  lemma TreeKeys(g: Granularity, files: seq<string>, k: string)
    requires k in KeysOf(g, files)
    ensures Fits(k, Pattern(g))
    ensures exists m :: 0 <= m < |ListTree(g, files)| && ListTree(g, files)[m].key == k
  {
    var tree := ListTree(g, files);
    assert k in KeySet(tree);
    var b :| b in tree && b.key == k;
    var m :| 0 <= m < |tree| && tree[m] == b;
  }

  /** The key of the last bucket is the newest: every other key is below it. */
  lemma NewestKey(g: Granularity, files: seq<string>, k: string)
    requires ListTree(g, files) != [] && k in KeysOf(g, files)
    ensures var tree := ListTree(g, files);
      k == tree[|tree| - 1].key || Less(k, tree[|tree| - 1].key)
  {
    TreeKeys(g, files, k);
  }

  /** The names a pass plans to operate on are listed names, and they are
      exactly the pruned ones. */
  lemma PlannedIsPruned(g: Granularity, files: seq<string>)
    requires Distinct(files)
    ensures forall x :: x in Planned(g, files) ==> x in files
    ensures forall i :: 0 <= i < |files| ==> (files[i] in Planned(g, files) <==> Pruned(g, files, i))
  {
    var tree := ListTree(g, files);
    forall x | x in Planned(g, files)
      ensures x in files
    {
      VictimsMembers(tree[..|tree| - 1], x);
    }
    forall i | 0 <= i < |files|
      ensures files[i] in Planned(g, files) <==> Pruned(g, files, i)
    {
      if files[i] in Planned(g, files) {
        PlannedImpliesPruned(g, files, i);
      }
      if Pruned(g, files, i) {
        PrunedImpliesPlanned(g, files, i);
      }
    }
  }

  lemma PlannedImpliesPruned(g: Granularity, files: seq<string>, i: nat)
    requires Distinct(files) && i < |files|
    requires files[i] in Planned(g, files)
    ensures Pruned(g, files, i)
  {
    var tree := ListTree(g, files);
    var n := |tree|;
    var older := tree[..n - 1];
    var newest := tree[n - 1].key;
    var f := files[i];
    VictimsMembers(older, f);
    var m :| 0 <= m < n - 1 && f in AllButLast(older[m].members);
    var k := tree[m].key;
    assert tree[m] in tree && k in KeysOf(g, files);
    TreeKeys(g, files, k);
    assert f in tree[m].members;
    StartsWithKey(g, k, f);
    FilterAllButLast(files, k, i);
    var j :| i < j < |files| && k <= files[j];
    StartsWithKey(g, k, files[j]);
    assert tree[n - 1] in tree && newest in KeysOf(g, files);
    var j' :| 0 <= j' < |files| && KeyOf(g, files[j']) == Some(newest);
  }

  lemma PrunedImpliesPlanned(g: Granularity, files: seq<string>, i: nat)
    requires Distinct(files) && i < |files|
    requires Pruned(g, files, i)
    ensures files[i] in Planned(g, files)
  {
    var k := KeyOf(g, files[i]).value;
    var j :| i < j < |files| && KeyOf(g, files[j]) == KeyOf(g, files[i]);
    assert k <= files[j];
    FilterAllButLast(files, k, i);
    OlderVictim(g, files, k, files[i]);
  }

  /** All members but the last of a bucket with a newer bucket beside it are
      planned. */
  lemma OlderVictim(g: Granularity, files: seq<string>, k: string, x: string)
    requires k in KeysOf(g, files) && HasNewerBucket(g, files, k)
    requires x in AllButLast(Filter(files, k))
    ensures x in Planned(g, files)
  {
    var tree := ListTree(g, files);
    var m := OlderBucket(g, files, k);
    assert tree[m].key == k && m < |tree| - 1;
    InOlderBucket(tree, files, m, x);
    assert Planned(g, files) == Victims(tree[..|tree| - 1]);
  }

  /** A name among all but the last members of a bucket before the newest
      is a victim of the pass. */
  lemma InOlderBucket(tree: seq<Bucket>, files: seq<string>, m: nat, x: string)
    requires Faithful(tree, files) && m < |tree| - 1
    requires x in AllButLast(Filter(files, tree[m].key))
    ensures x in Victims(tree[..|tree| - 1])
  {
    var older := tree[..|tree| - 1];
    assert older[m] == tree[m] && tree[m] in tree;
    VictimsMembers(older, x);
  }

  /** A key of the listing below some other key of the listing is the key
      of a bucket before the newest. */
  lemma OlderBucket(g: Granularity, files: seq<string>, k: string) returns (m: nat)
    requires k in KeysOf(g, files) && HasNewerBucket(g, files, k)
    ensures m < |ListTree(g, files)| - 1 && ListTree(g, files)[m].key == k
  {
    var j :| 0 <= j < |files| && KeyOf(g, files[j]).Some? && Less(k, KeyOf(g, files[j]).value);
    var k' := KeyOf(g, files[j]).value;
    assert k' in KeysOf(g, files);
    m := BelowNewest(ListTree(g, files), k, k');
  }

  /** In an ordered tree, a key below some key of the tree sits in a bucket
      before the last. */
  lemma BelowNewest(tree: seq<Bucket>, k: string, k': string) returns (m: nat)
    requires Ordered(tree) && k in KeySet(tree) && k' in KeySet(tree) && Less(k, k')
    ensures m < |tree| - 1 && tree[m].key == k
  {
    var b :| b in tree && b.key == k;
    var b' :| b' in tree && b'.key == k';
    var m' :| 0 <= m' < |tree| && tree[m'] == b';
    m :| 0 <= m < |tree| && tree[m] == b;
    if m == |tree| - 1 {
      if m' < m {
        LessAsymmetric(k, k');
      } else {
        LessIrreflexive(k);
      }
      assert false;
    }
  }
}
