/**
 The bucket tree of src/vault/rotate.rs (`list_uniques`, `list_filters`,
 `list_tree`): the names of a directory listing grouped by the timestamp
 prefix a granularity's regex captures, as an ordered map from that prefix
 (the bucket key) to the names that start with it.

 Rust's `BTreeMap<String, Vec<String>>` is modelled as a sequence of buckets
 kept in strictly ascending key order; `insert` replaces the bucket of an
 existing key, and iteration and `pop_last` follow the sequence.
 */
module BucketTree {
  import opened Options
  import opened Text

  /** The four retention granularities. */
  datatype Granularity = Hourly | Daily | Monthly | Yearly

  /** The anchored prefix regexes of rotate.rs lines 13-16, '#' standing for
      `[0-9]`: `^([0-9]{4}-[0-9]{2}-[0-9]{2}_[0-9]{2})` and its shorter kin. */
  function Pattern(g: Granularity): (p: string)
    ensures |p| > 0
  {
    match g
    case Hourly => "####-##-##_##"
    case Daily => "####-##-##"
    case Monthly => "####-##"
    case Yearly => "####"
  }

  /** The capture group of the granularity's regex on `name`: the first
      `|Pattern(g)|` characters when they have the pattern's shape. */
  function KeyOf(g: Granularity, name: string): (k: Option<string>)
    ensures k.Some? ==> k.value <= name && Fits(k.value, Pattern(g))
  {
    var w := |Pattern(g)|;
    if |name| >= w && Fits(name[..w], Pattern(g)) then Some(name[..w]) else None
  }

  /** A name that has the shape of a key starts with that key exactly when
      the key is what the regex captures from it. */
  lemma StartsWithKey(g: Granularity, k: string, name: string)
    requires Fits(k, Pattern(g))
    ensures k <= name <==> KeyOf(g, name) == Some(k)
  {
    if k <= name {
      assert name[..|k|] == k;
    }
  }

  /** Every pattern begins with the four year digits, so a name the yearly
      pattern rejects matches no granularity at all. */
  lemma MatchesYear(g: Granularity, name: string)
    ensures KeyOf(g, name).Some? ==> KeyOf(Yearly, name).Some?
  {
    if KeyOf(g, name).Some? {
      var w := |Pattern(g)|;
      FitsPrefix(name[..w], Pattern(g), 4);
      assert name[..w][..4] == name[..4];
      assert Pattern(g)[..4] == "####";
    }
  }

  /** All keys the listing produces. */
  function KeysOf(g: Granularity, files: seq<string>): set<string> {
    set f | f in files && KeyOf(g, f).Some? :: KeyOf(g, f).value
  }

  /** The keys of the matching names in listing order, repeats included: what
      `list_uniques` pushes before it deduplicates. */
  function Captures(g: Granularity, files: seq<string>): (ks: seq<string>)
    ensures forall k :: k in ks <==> k in KeysOf(g, files)
  {
    if files == [] then []
    else
      var rest := Captures(g, files[1..]);
      assert KeysOf(g, files) == KeysOf(g, files[..1]) + KeysOf(g, files[1..]) by {
        assert files == files[..1] + files[1..];
      }
      match KeyOf(g, files[0])
      case Some(k) => [k] + rest
      case None => rest
  }

  /** `Vec::dedup`: drops every element equal to the one before it. */
  function Dedup(s: seq<string>): (r: seq<string>)
    ensures forall x :: x in r <==> x in s
    ensures |s| > 0 ==> |r| > 0 && r[0] == s[0]
    ensures forall i :: 0 <= i < |r| - 1 ==> r[i] != r[i + 1]
  {
    if |s| <= 1 then s
    else
      var rest := Dedup(s[1..]);
      if s[0] == s[1] then rest else [s[0]] + rest
  }

  /** `dedup` drops only consecutive repeats: a name appended to the input
      appears in the output unless it repeats the input's last element.
      Together with `Dedup([]) == []` this determines `Dedup` completely. */
  lemma {:induction false} DedupSnoc(s: seq<string>, x: string)
    ensures Dedup(s + [x]) == Dedup(s) + (if s != [] && s[|s| - 1] == x then [] else [x])
    decreases |s|
  {
    var t := s + [x];
    if |s| == 0 {
      assert t == [x];
    } else if |s| == 1 {
      assert t == [s[0], x] && t[1..] == [x];
    } else {
      assert t[0] == s[0] && t[1] == s[1] && t[1..] == s[1..] + [x];
      assert s[1..][|s| - 2] == s[|s| - 1];
      DedupSnoc(s[1..], x);
    }
  }

  /** Repeats that are not neighbours survive `dedup`. */
  lemma DedupKeepsApartRepeats()
    ensures Dedup(["a", "b", "a"]) == ["a", "b", "a"]
  {
    DedupSnoc(["a"], "b");
    assert ["a"] + ["b"] == ["a", "b"];
    DedupSnoc(["a", "b"], "a");
    assert ["a", "b"] + ["a"] == ["a", "b", "a"];
  }

  /** `list_uniques` (rotate.rs lines 157-170). */
  function Uniques(g: Granularity, files: seq<string>): (ks: seq<string>)
    ensures forall k :: k in ks <==> k in KeysOf(g, files)
  {
    Dedup(Captures(g, files))
  }

  /** `list_filters` (rotate.rs lines 103-114): the names that start with
      `prefix`, in listing order. */
  function Filter(files: seq<string>, prefix: string): (r: seq<string>)
    ensures forall x :: x in r <==> x in files && prefix <= x
    ensures |r| <= |files|
  {
    if files == [] then []
    else (if prefix <= files[0] then [files[0]] else []) + Filter(files[1..], prefix)
  }

  /** The bucket of one key: the names filed under it. */
  datatype Bucket = Bucket(key: string, members: seq<string>)

  /** Strictly ascending keys: the iteration order of a `BTreeMap`. */
  predicate Ordered(tree: seq<Bucket>) {
    forall i, j :: 0 <= i < j < |tree| ==> Less(tree[i].key, tree[j].key)
  }

  function KeySet(tree: seq<Bucket>): set<string> {
    set b | b in tree :: b.key
  }

  /** Every bucket holds exactly what `list_filters` gives for its key. */
  predicate Faithful(tree: seq<Bucket>, files: seq<string>) {
    forall b :: b in tree ==> b.members == Filter(files, b.key)
  }

  /** `BTreeMap::insert`: the bucket lands at its place in key order and
      replaces the bucket of an equal key. */
  function Insert(tree: seq<Bucket>, b: Bucket): (r: seq<Bucket>)
    requires Ordered(tree)
    ensures Ordered(r)
    ensures forall x :: x in r <==> x == b || (x in tree && x.key != b.key)
  {
    if tree == [] then [b]
    else if b.key == tree[0].key then
      OrderedTail(tree);
      OrderedCons(b, tree[1..]);
      [b] + tree[1..]
    else if Less(b.key, tree[0].key) then
      assert forall x :: x in tree ==> Less(b.key, x.key) by {
        forall i | 0 < i < |tree|
          ensures Less(b.key, tree[i].key)
        {
          LessTransitive(b.key, tree[0].key, tree[i].key);
        }
      }
      OrderedCons(b, tree);
      [b] + tree
    else
      LessTotal(b.key, tree[0].key);
      OrderedTail(tree);
      var rest := Insert(tree[1..], b);
      OrderedCons(tree[0], rest);
      [tree[0]] + rest
  }

  lemma OrderedTail(tree: seq<Bucket>)
    requires Ordered(tree) && tree != []
    ensures Ordered(tree[1..])
    ensures forall x :: x in tree[1..] ==> Less(tree[0].key, x.key)
  {
  }

  /** A bucket whose key is below all keys of an ordered tree can lead it. */
  lemma OrderedCons(b: Bucket, tree: seq<Bucket>)
    requires Ordered(tree)
    requires forall x :: x in tree ==> Less(b.key, x.key)
    ensures Ordered([b] + tree)
    ensures forall x :: x in tree ==> x.key != b.key
  {
    var r := [b] + tree;
    forall i, j | 0 <= i < j < |r|
      ensures Less(r[i].key, r[j].key)
    {
      assert r[j] == tree[j - 1];
      if i > 0 {
        assert r[i] == tree[i - 1];
      }
    }
    forall x | x in tree
      ensures x.key != b.key
    {
      LessIrreflexive(b.key);
    }
  }

  /** The loop of `list_tree` (rotate.rs lines 146-150): one insertion of
      `list_filters(files, key)` per key, in the order the keys come. */
  function Build(files: seq<string>, tree: seq<Bucket>, keys: seq<string>): (r: seq<Bucket>)
    requires Ordered(tree) && Faithful(tree, files)
    ensures Ordered(r) && Faithful(r, files)
    ensures KeySet(r) == KeySet(tree) + set k | k in keys
    decreases |keys|
  {
    if keys == [] then tree
    else
      var next := Insert(tree, Bucket(keys[0], Filter(files, keys[0])));
      assert KeySet(next) == KeySet(tree) + {keys[0]} by {
        assert Bucket(keys[0], Filter(files, keys[0])) in next;
      }
      Build(files, next, keys[1..])
  }

  /** `list_tree` (rotate.rs lines 117-154) over an already read listing: the
      buckets of every key the listing produces, in ascending key order, each
      holding the listed names that start with its key. An empty listing
      gives the empty tree without building anything. */
  function ListTree(g: Granularity, files: seq<string>): (tree: seq<Bucket>)
    ensures Ordered(tree) && Faithful(tree, files)
    ensures KeySet(tree) == KeysOf(g, files)
  {
    if |files| == 0 then []
    else Build(files, [], Uniques(g, files))
  }
}
