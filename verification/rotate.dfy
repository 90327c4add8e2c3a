/**
 The retention engine of src/vault/rotate.rs. The task directory is its
 entry names plus the contents of its `moved` subdirectory. Each pass lists
 the directory anew, builds the bucket tree of one granularity from that
 listing, drops the newest bucket, and applies the strategy to every member
 but the last of every other bucket, stopping at the first operation that
 fails.

 What the directory lister returns (`fs::read_dir`, in no promised order),
 whether one file operation succeeds (`fs::remove_file`, `fs::rename`) and
 whether `fs::create_dir` succeeds are outside the model's reach and arrive
 as parameters: `relist`, `succeeds(name)` and `mkdirOk`.
 */
module Rotate {
  import opened Options
  import opened Text
  import opened BucketTree

  /** `DIRECTORY_MOVE` (rotate.rs line 10). */
  const MovedDir: string := "moved"

  /** The operation `new` picks for the task (rotate.rs lines 177-182). */
  datatype Strategy = Delete | Move | Unknown

  function StrategyOf(name: string): (s: Strategy)
    ensures s == Delete <==> name == "delete"
    ensures s == Move <==> name == "move"
  {
    if name == "delete" then Delete
    else if name == "move" then Move
    else Unknown
  }

  /** The task directory: its direct entries in listing order, and the
      names gathered in its `moved` subdirectory in the order they arrived. */
  datatype Dir = Dir(entries: seq<string>, moved: seq<string>)

  /** What a rotation step leaves behind and whether it succeeded. */
  datatype Outcome = Outcome(dir: Dir, ok: bool)

  /** The names of `entries` that are not in `gone`, in listing order. */
  function Keep(entries: seq<string>, gone: set<string>): (r: seq<string>)
    ensures forall x :: x in r <==> x in entries && x !in gone
    ensures |r| <= |entries|
  {
    if entries == [] then []
    else (if entries[0] in gone then [] else [entries[0]]) + Keep(entries[1..], gone)
  }

  /** Whether the operation on `name` succeeds: never for an unknown
      strategy (`file_unknown`, rotate.rs lines 62-66), as the file system
      decides for the other two. */
  predicate Succeeds(strategy: Strategy, succeeds: string -> bool, name: string) {
    strategy != Unknown && succeeds(name)
  }

  /** `operate` on one file: `file_delete` (rotate.rs lines 32-43) removes
      the entry, `file_move` (lines 46-59) renames it to `moved/<name>`,
      `file_unknown` (lines 62-66) fails. A failed operation changes nothing. */
  function Operate(strategy: Strategy, succeeds: string -> bool, d: Dir, name: string): (r: Outcome)
    ensures r.ok <==> Succeeds(strategy, succeeds, name)
    ensures !r.ok ==> r.dir == d
    ensures r.ok ==> r.dir.entries == Keep(d.entries, {name}) && name !in r.dir.entries
    ensures r.ok ==> r.dir.moved == d.moved + (if strategy == Move then [name] else [])
  {
    match strategy
    case Unknown => Outcome(d, false)
    case Delete =>
      if succeeds(name) then Outcome(d.(entries := Keep(d.entries, {name})), true)
      else Outcome(d, false)
    case Move =>
      if succeeds(name) then Outcome(Dir(Keep(d.entries, {name}), d.moved + [name]), true)
      else Outcome(d, false)
  }

  /** The inner loop of `rotate` (rotate.rs lines 234-241): operate on each
      name in turn and return `false` at the first failure. */
  function Apply(strategy: Strategy, succeeds: string -> bool, d: Dir, names: seq<string>): (r: Outcome)
    ensures r.ok <==> AllSucceed(strategy, succeeds, names)
    ensures r.ok ==> r.dir.entries == Keep(d.entries, Names(names))
    ensures r.ok ==> r.dir.moved == d.moved + (if strategy == Move then names else [])
    decreases |names|
  {
    if names == [] then
      KeepNothing(d.entries);
      assert Names(names) == {};
      Outcome(d, true)
    else
      var first := Operate(strategy, succeeds, d, names[0]);
      if !first.ok then first
      else
        var r := Apply(strategy, succeeds, first.dir, names[1..]);
        ApplyStep(d.entries, names);
        AllSucceedStep(strategy, succeeds, names);
        assert names == [names[0]] + names[1..];
        r
  }

  /** Every name of the sequence would be operated on successfully. */
  predicate AllSucceed(strategy: Strategy, succeeds: string -> bool, names: seq<string>) {
    forall i :: 0 <= i < |names| ==> Succeeds(strategy, succeeds, names[i])
  }

  lemma AllSucceedStep(strategy: Strategy, succeeds: string -> bool, names: seq<string>)
    requires names != []
    ensures AllSucceed(strategy, succeeds, names) <==>
      Succeeds(strategy, succeeds, names[0]) && AllSucceed(strategy, succeeds, names[1..])
  {
    if Succeeds(strategy, succeeds, names[0]) && AllSucceed(strategy, succeeds, names[1..]) {
      forall i | 0 < i < |names|
        ensures Succeeds(strategy, succeeds, names[i])
      {
        assert names[i] == names[1..][i - 1];
      }
    }
  }

  function Names(names: seq<string>): set<string> {
    set n | n in names
  }

  /** Removing the first name and then the others removes them all. */
  lemma ApplyStep(entries: seq<string>, names: seq<string>)
    requires names != []
    ensures Keep(Keep(entries, {names[0]}), Names(names[1..])) == Keep(entries, Names(names))
  {
    KeepTwice(entries, {names[0]}, Names(names[1..]));
    assert names == [names[0]] + names[1..];
    assert Names(names) == {names[0]} + Names(names[1..]);
  }

  lemma {:induction false} KeepNothing(entries: seq<string>)
    ensures Keep(entries, {}) == entries
  {
    if entries != [] {
      KeepNothing(entries[1..]);
    }
  }

  lemma {:induction false} KeepCons(x: string, rest: seq<string>, gone: set<string>)
    ensures Keep([x] + rest, gone) == (if x in gone then [] else [x]) + Keep(rest, gone)
  {
    assert ([x] + rest)[0] == x && ([x] + rest)[1..] == rest;
  }

  lemma {:induction false} KeepTwice(entries: seq<string>, a: set<string>, b: set<string>)
    ensures Keep(Keep(entries, a), b) == Keep(entries, a + b)
  {
    if entries != [] {
      var x := entries[0];
      KeepTwice(entries[1..], a, b);
      if x !in a {
        KeepCons(x, Keep(entries[1..], a), b);
      } else {
        assert Keep(entries, a) == Keep(entries[1..], a);
      }
    }
  }

  /** Keeping some names of a listing without repeats gives a listing
      without repeats. */
  lemma {:induction false} KeepDistinct(entries: seq<string>, gone: set<string>)
    requires Distinct(entries)
    ensures Distinct(Keep(entries, gone))
  {
    if entries != [] {
      assert entries == [entries[0]] + entries[1..];
      DistinctCons(entries[0], entries[1..]);
      KeepDistinct(entries[1..], gone);
      DistinctCons(entries[0], Keep(entries[1..], gone));
    }
  }

  /** All members of a bucket but the last one; nothing for a bucket of at
      most one member. */
  function AllButLast(s: seq<string>): seq<string> {
    if |s| == 0 then [] else s[..|s| - 1]
  }

  /** The outer loop of `rotate` (rotate.rs lines 213-242) over the buckets
      left after the newest was removed: buckets without members and buckets
      of one member are skipped, every other one loses all members but its
      last, and the first failure ends the pass. */
  function RotateBuckets(strategy: Strategy, succeeds: string -> bool, d: Dir, buckets: seq<Bucket>): (r: Outcome)
    decreases |buckets|
  {
    if buckets == [] then Outcome(d, true)
    else
      var members := buckets[0].members;
      if |members| == 0 then RotateBuckets(strategy, succeeds, d, buckets[1..])
      else if |members| == 1 then RotateBuckets(strategy, succeeds, d, buckets[1..])
      else
        var r := Apply(strategy, succeeds, d, members[..|members| - 1]);
        if !r.ok then r else RotateBuckets(strategy, succeeds, r.dir, buckets[1..])
  }

  /** `rotate` (rotate.rs lines 188-246): one pass of one granularity over
      the listing `d.entries`. An empty tree is a success with nothing done;
      otherwise the newest bucket is removed before the others are rotated. */
  function Pass(g: Granularity, strategy: Strategy, succeeds: string -> bool, d: Dir): Outcome {
    var tree := ListTree(g, d.entries);
    if tree == [] then Outcome(d, true)
    else RotateBuckets(strategy, succeeds, d, tree[..|tree| - 1])
  }

  /** What `list_files` (rotate.rs lines 69-100) can hand a pass: names of
      the directory, each at most once, in whatever order `fs::read_dir`
      yields them. Entries it fails to read and names that are not UTF-8
      are missing; a directory it cannot read at all gives no names. */
  predicate IsListing(entries: seq<string>, listing: seq<string>) {
    && Distinct(listing)
    && forall x :: x in listing ==> x in entries
  }

  /** `relist(g, entries)` is what the directory lister returns to the pass
      of granularity `g` when the directory holds `entries`. */
  ghost predicate Lists(relist: (Granularity, seq<string>) -> seq<string>) {
    forall g, entries :: IsListing(entries, relist(g, entries))
  }

  /** `rotate` as `run` calls it: the pass lists the directory afresh
      (rotate.rs line 123) and works on that listing, while any name the
      listing missed stays in the directory untouched. */
  function PassOn(g: Granularity, strategy: Strategy, succeeds: string -> bool, d: Dir, listing: seq<string>): Outcome {
    var r := Pass(g, strategy, succeeds, Dir(listing, d.moved));
    Outcome(Dir(r.dir.entries + Keep(d.entries, Names(listing)), r.dir.moved), r.ok)
  }

  /** The rotation flags and strategy name of a task. */
  datatype Settings = Settings(hourly: bool, daily: bool, monthly: bool, yearly: bool, strategy: string)

  function Enabled(settings: Settings, g: Granularity): bool {
    match g
    case Hourly => settings.hourly
    case Daily => settings.daily
    case Monthly => settings.monthly
    case Yearly => settings.yearly
  }

  /** The fixed order of the passes in `run` (rotate.rs lines 286-308). */
  const Order: seq<Granularity> := [Hourly, Daily, Monthly, Yearly]

  /** `run_hourly`, `run_daily`, `run_monthly`, `run_yearly` (rotate.rs lines
      315-364) chained as in `run`: a disabled granularity succeeds without
      doing anything, each pass lists the directory the previous one left
      through `relist`, and the first failing pass ends the chain. */
  function Cascade(settings: Settings, strategy: Strategy, succeeds: string -> bool,
                   relist: (Granularity, seq<string>) -> seq<string>, d: Dir, gs: seq<Granularity>): (r: Outcome)
    decreases |gs|
  {
    if gs == [] then Outcome(d, true)
    else
      var r := if Enabled(settings, gs[0]) then PassOn(gs[0], strategy, succeeds, d, relist(gs[0], d.entries)) else Outcome(d, true);
      if !r.ok then r else Cascade(settings, strategy, succeeds, relist, r.dir, gs[1..])
  }

  /** `run` (rotate.rs lines 249-312): an unknown strategy fails before any
      pass; "move" first creates the `moved` directory when it does not
      exist, failing if that cannot be done; then the passes run in order. */
  function Run(settings: Settings, succeeds: string -> bool, mkdirOk: bool,
               relist: (Granularity, seq<string>) -> seq<string>, d: Dir): (r: Outcome)
    ensures StrategyOf(settings.strategy) == Unknown ==> r == Outcome(d, false)
    ensures StrategyOf(settings.strategy) == Move && MovedDir !in d.entries && !mkdirOk ==> r == Outcome(d, false)
  {
    var strategy := StrategyOf(settings.strategy);
    match strategy
    case Unknown => Outcome(d, false)
    case Delete => Cascade(settings, strategy, succeeds, relist, d, Order)
    case Move =>
      if MovedDir in d.entries then Cascade(settings, strategy, succeeds, relist, d, Order)
      else if !mkdirOk then Outcome(d, false)
      else Cascade(settings, strategy, succeeds, relist, d.(entries := d.entries + [MovedDir]), Order)
  }
}
