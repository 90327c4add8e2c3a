# Vault retention engine in Dafny

Vault runs backup tasks that write timestamp-named files into one directory
per task, then rotates that directory. This project models three pieces of it:

- **The rotation engine** (`src/vault/rotate.rs`). For each enabled
  granularity (hourly, then daily, monthly, yearly), the engine:
  - groups the listed names into buckets by the timestamp prefix the
    granularity's regex captures;
  - drops the newest bucket;
  - deletes every member but the last of each other bucket, or moves it
    into the `moved` subdirectory.

  The first failing file operation stops everything.
- **The timestamp format** (`src/vault/time.rs`). `%Y-%m-%d_%H-%M-%S%.9f` is
  modelled as a printer and a strict parser of a timestamp record.
- **Task lookup and validation** (`src/vault/config.rs`). `task_get` and
  `task_valid` work over a TOML-like value datatype.

The model is functional. A task directory is a value `Dir(entries, moved)`,
and every pass is a pure function that returns the new directory and a
success flag. These parts of the outside world become parameters:

- what `list_files` hands each pass is `relist(g, entries)`: any selection
  of the current entries without repeats, in any order, and nothing at all
  when the directory cannot be read;
- whether a file operation succeeds is a predicate `succeeds`;
- whether creating `moved` succeeds is a boolean `mkdirOk`.

The regexes of `rotate.rs` lines 13-16 are anchored prefixes of fixed width.
They are modelled as digit templates: `KeyOf` takes the first 4, 7, 10 or 13
characters when they have the right digit and dash shape. Rust's
`BTreeMap<String, Vec<String>>` is modelled as a sequence of buckets in
strictly ascending key order, with `String`'s lexicographic order.

Modules:

- `Options`: the option type.
- `Text`: string order, digits, digit templates and zero padding.
- `Timestamp`: `time.rs`.
- `TaskTable`: `config.rs`.
- `BucketTree`: `list_uniques`, `list_filters` and `list_tree`.
- `Rotate`: the file operations, `rotate`, the chain of passes, and `run`.
- `Schedule`: the names a pass operates on, characterised name by name.
- `Retention`: what passes and runs leave behind.
- `StampBuckets`: how formatted timestamps fall into buckets.
- `Corrected`: the sorted pass.
- `Scenarios`: worked directories.

In two places the code does not do what a retention tool of this kind is
expected to do. The model follows the code in both.

- **Which member survives.** The policy is to keep the most recent file of
  every closed period, which needs a bucket's members in chronological
  order. The code keeps the member listed last, in `fs::read_dir` order,
  and never sorts (see Findings).
- **When `moved` is created.** A lazily created `moved` would appear only
  when the first file is moved. The code creates it at the start of every
  `move` run when it is absent, before any pass and whether or not anything
  will be moved (`Retention.RunDisabled`).

## Model

| member | source | states |
|---|---|---|
| TaskTable.TaskGet | src/vault/config.rs:59-75 | yields a table exactly when the task name is a key and its entry is a table; that table is the stored entry unchanged |
| TaskTable.TaskValid | src/vault/config.rs:77-109 | a valid entry has both a `cmd` and an `args` key |
| TaskTable.TaskValidCharacterised | src/vault/config.rs:77-109 | valid exactly when `cmd` holds a string and `args` holds an array; the verdict depends only on those two keys |
| TaskTable.TaskValidIgnoresOtherKeys | src/vault/config.rs:77-109 | adding, replacing or removing any key other than `cmd` and `args` never changes the verdict |
| Text.Pad | src/vault/time.rs:5 | a zero-padded field has exactly its width and only digits; `Text.PadValue` and `Text.PadLess` state what it denotes and how it orders |
| Text.PadLess | src/vault/time.rs:5 | zero-padding numbers to a common width makes string order agree with numeric order |
| Text.PadValue | src/vault/time.rs:5 | a zero-padded field reads back as the number it was printed from |
| Text.ValuePad | src/vault/time.rs:14-21 | any digit string is the zero-padded printing of the number it denotes |
| Text.PadInjective | src/vault/time.rs:30-33 | different numbers below the width's bound print differently |
| Text.LessTotal | src/vault/rotate.rs:117-154 | `String` order, used for `BTreeMap` keys, relates any two distinct strings |
| Text.LessTransitive | src/vault/rotate.rs:117-154 | `String` order is transitive |
| Text.LessIrreflexive | src/vault/rotate.rs:117-154 | no string is below itself |
| Text.DistinctConcat | src/vault/rotate.rs:263-273 | joining two repeat-free lists with no name in common gives a repeat-free list |
| Text.FitsDigits | src/vault/rotate.rs:13-16 | a run of `[0-9]` placeholders accepts exactly the digit strings of its length |
| Timestamp.Read | src/vault/time.rs:14-21 | a successful read yields one value per field of the layout |
| Timestamp.Render | src/vault/time.rs:30-33 | prints each field zero-padded after its separator; `Timestamp.RenderFits`, `Timestamp.ReadRender` and `Timestamp.RenderOrder` state its shape, inverse and order |
| Timestamp.RenderFits | src/vault/time.rs:5 | every printing has the layout's digit-and-separator shape |
| Timestamp.ReadRender | src/vault/time.rs:14-33 | reading back a printing of in-range values yields those values |
| Timestamp.RenderRead | src/vault/time.rs:14-21 | whatever the reader accepts is the printing of the in-range values it read |
| Timestamp.RenderOrder | src/vault/time.rs:5 | printings compare as strings exactly as their values compare, most significant first |
| Timestamp.RenderLength | src/vault/time.rs:5 | every printing of a layout has the same length, whatever the values |
| Timestamp.ValidFitsWidths | src/vault/time.rs:5 | every field of a representable instant fits its zero-padded width, nanoseconds in nine digits |
| Timestamp.LayoutShape | src/vault/time.rs:5 | the format prints `####-##-##_##-##-##.#########` |
| Timestamp.Format | src/vault/time.rs:30-33 | `to_string` yields 29 characters of the template's shape: zero-padded fields and a nine-digit fraction |
| Timestamp.Parse | src/vault/time.rs:14-21 | `from_string` yields only representable instants, and only from the string `to_string` prints for them |
| Timestamp.ParseFormat | src/vault/time.rs:14-33 | `from_string` accepts every `to_string` output and recovers the instant it was printed from |
| Timestamp.FormatParseFormat | src/vault/time.rs:41-54 | printing the parsed printing gives back the same string, as the smoke test asserts |
| Timestamp.ParseNone | src/vault/time.rs:14-21 | `from_string` fails exactly on strings that are no instant's printing |
| Timestamp.ParseRejectsShape | src/vault/time.rs:14-21 | a string not of the template's shape is rejected |
| Timestamp.FormatOrder | src/vault/time.rs:5 | string order of formatted instants is their chronological order |
| Timestamp.FormatInjective | src/vault/time.rs:30-33 | distinct instants print differently |
| BucketTree.Pattern | src/vault/rotate.rs:13-16 | every granularity's pattern is non-empty |
| BucketTree.KeyOf | src/vault/rotate.rs:13-16 | a captured key is a prefix of the name and has the pattern's digit shape |
| BucketTree.StartsWithKey | src/vault/rotate.rs:103-114 | a name starts with a well-shaped key exactly when the regex captures that key from it |
| BucketTree.MatchesYear | src/vault/rotate.rs:13-16 | a name without a leading four-digit year matches no granularity |
| BucketTree.Captures | src/vault/rotate.rs:157-167 | the captured keys are exactly the keys of the matching names |
| BucketTree.Dedup | src/vault/rotate.rs:168 | `dedup` keeps the same set of elements and the first one, and leaves no two equal neighbours; `BucketTree.DedupSnoc` pins it down exactly |
| BucketTree.DedupSnoc | src/vault/rotate.rs:168 | appending a name to the input appends it to the output unless it equals the input's last element, which with the empty case determines `dedup` completely |
| BucketTree.DedupKeepsApartRepeats | src/vault/rotate.rs:168 | repeats that are not neighbours survive: `["a", "b", "a"]` is left as it is |
| BucketTree.Uniques | src/vault/rotate.rs:157-170 | `list_uniques` yields exactly the keys the listing produces |
| BucketTree.Filter | src/vault/rotate.rs:103-114 | `list_filters` keeps exactly the listed names that start with the prefix |
| BucketTree.Insert | src/vault/rotate.rs:149 | `BTreeMap::insert` keeps keys ascending and replaces the bucket of an equal key, keeping every other bucket |
| BucketTree.Build | src/vault/rotate.rs:146-150 | the insert loop leaves an ordered tree whose every bucket holds `list_filters` of its key, with one bucket per inserted key |
| BucketTree.ListTree | src/vault/rotate.rs:117-154 | `list_tree` is ordered by key, has one bucket per key the listing produces, and every bucket holds exactly the names starting with its key, in listing order |
| Rotate.StrategyOf | src/vault/rotate.rs:177-182 | "delete" selects deletion, "move" selects moving, every other name selects the always-failing operation |
| Rotate.Keep | src/vault/rotate.rs:32-59 | the remaining entries are exactly the listed ones not removed, in listing order |
| Rotate.Operate | src/vault/rotate.rs:32-66 | succeeds exactly when the strategy is known and the file system allows it; a failure changes nothing; a success takes the name out of the listing, and a move appends it to `moved` |
| Rotate.Apply | src/vault/rotate.rs:234-241 | succeeds exactly when every operation succeeds, and then has removed all the names (and moved them, in order, under "move") |
| Rotate.KeepDistinct | src/vault/rotate.rs:32-59 | removing names keeps a listing free of repeats |
| Rotate.Run | src/vault/rotate.rs:249-284 | an unknown strategy fails with nothing touched; "move" with `moved` absent and not creatable fails with nothing touched; `Retention.RunConserves` and `Retention.RunDisabled` state the rest |
| Rotate.RotateBuckets | src/vault/rotate.rs:213-242 | the bucket loop; `Schedule.RotateBucketsIsApply` states it operates on all but the last member of each bucket in order, stopping at the first failure |
| Rotate.Pass | src/vault/rotate.rs:188-246 | one `rotate` over a listing; `Schedule.PassIsApply`, `Retention.PassResult` and `Retention.PassSpares` state what it operates on, when it succeeds and what it spares |
| Rotate.IsListing | src/vault/rotate.rs:69-100 | what `list_files` can return: names of the directory, without repeats, in any order, possibly none |
| Rotate.PassOn | src/vault/rotate.rs:117-154 | `rotate` over a fresh listing, with unlisted names left untouched; `Retention.PassOnResult`, `Retention.PassOnConserves` and `Retention.PassOnIdle` state its effect |
| Rotate.Enabled | src/vault/rotate.rs:315-364 | each `run_*` is guarded by its own rotation flag; `Retention.CascadeDisabled` and `Retention.RunDisabled` state that disabled granularities do nothing |
| Rotate.Cascade | src/vault/rotate.rs:286-308 | the passes in order, each over its own listing, ending at the first failure; `Retention.CascadeAppend` and `Retention.CascadeConserves` state its effect |
| Schedule.ApplyAppend | src/vault/rotate.rs:234-241 | operating on two lists one after the other is one run over both, stopping at the first failure |
| Schedule.RotateBucketsIsApply | src/vault/rotate.rs:213-242 | the bucket loop operates on all but the last member of each bucket, bucket after bucket, stopping at the first failure |
| Schedule.PassIsApply | src/vault/rotate.rs:188-246 | one pass is the strategy applied to the planned names in order |
| Schedule.VictimsMembers | src/vault/rotate.rs:228-234 | a name is operated on exactly when it is among all but the last members of one of the buckets |
| Schedule.FilterAllButLast | src/vault/rotate.rs:228-231 | a bucket member is among all but its last exactly when a later listed name starts with the same key |
| Schedule.TreeKeys | src/vault/rotate.rs:143-150 | every key of the listing is well shaped and has its bucket in the tree |
| Schedule.NewestKey | src/vault/rotate.rs:204 | the bucket `pop_last` removes holds the greatest key |
| Schedule.BelowNewest | src/vault/rotate.rs:204 | a key below another key of the tree sits in a bucket that survives `pop_last` |
| Schedule.OlderBucket | src/vault/rotate.rs:204-213 | a key with a newer key beside it is iterated over after `pop_last` |
| Schedule.InOlderBucket | src/vault/rotate.rs:213-241 | all but the last member of a bucket before the newest are operated on |
| Schedule.OlderVictim | src/vault/rotate.rs:228-241 | all but the last member of a bucket with a newer bucket are operated on |
| Schedule.PlannedImpliesPruned | src/vault/rotate.rs:204-241 | an operated-on name matches the pattern, has a later listed name in its bucket, and its bucket is not the newest |
| Schedule.PrunedImpliesPlanned | src/vault/rotate.rs:204-241 | a matching name with a later listed name in its bucket and a newer bucket beside it is operated on |
| Schedule.PlannedIsPruned | src/vault/rotate.rs:204-241 | a pass operates only on listed names, and on exactly the pruned ones |
| Retention.FirstFailure | src/vault/rotate.rs:237-240 | every name before the found position succeeds, and the name at it fails |
| Retention.ApplyStops | src/vault/rotate.rs:234-241 | the names before the first failure are done, and nothing from the failing name on is touched |
| Retention.PassOutcome | src/vault/rotate.rs:188-246 | a pass succeeds exactly when no planned operation fails; it removes (and under "move" moves) exactly the planned names before the first failure |
| Retention.CoveredSucceed | src/vault/rotate.rs:228-241 | succeeding on the plan is succeeding on every pruned name |
| Retention.PassResult | src/vault/rotate.rs:188-246 | a pass succeeds exactly when every pruned name's operation succeeds; then the survivors are exactly the names not pruned, and under "move" `moved` gains the planned names |
| Retention.PassSpares | src/vault/rotate.rs:197-241 | whatever the outcome, a pass keeps every name that is not pruned: names the pattern rejects, the newest bucket, and the last listed member of every bucket |
| Retention.UnprunedNotDone | src/vault/rotate.rs:228-241 | no name outside the plan is operated on before a failure |
| Retention.LastWithKey | src/vault/rotate.rs:228-231 | every bucket has a last listed member |
| Retention.SurvivorsPerBucket | src/vault/rotate.rs:228-241 | keeping exactly the names not pruned leaves one name in each bucket with a newer bucket, and all of the newest bucket |
| Retention.OneSurvivorPerBucket | src/vault/rotate.rs:228-241 | after a successful pass each bucket with a newer bucket holds exactly one name, and the newest bucket keeps all its names |
| Retention.NothingPruned | src/vault/rotate.rs:197-204 | with at most one bucket nothing is planned |
| Retention.PassIdle | src/vault/rotate.rs:197-201 | an empty listing, one in which nothing matches, or one with a single bucket makes a pass succeed with nothing touched |
| Retention.PassConserves | src/vault/rotate.rs:32-59 | any pass only removes listed names, keeps names no pattern accepts, keeps the listing free of repeats, loses nothing under "move", and leaves `moved` alone otherwise |
| Retention.PassOnConserves | src/vault/rotate.rs:117-154 | a pass over any listing of the directory only removes listed names, keeps names no pattern accepts, keeps the directory free of repeats, loses nothing under "move", and leaves `moved` alone otherwise |
| Retention.PassOnResult | src/vault/rotate.rs:117-246 | a pass over a listing succeeds exactly when every pruned listed name's operation succeeds; then a listed name stays exactly when it is not pruned, and every name the listing missed stays |
| Retention.PassOnIdle | src/vault/rotate.rs:123-127 | a listing with at most one bucket, including the empty listing of a failed `read_dir`, makes a pass succeed with every name kept and `moved` unchanged |
| Retention.CascadeDisabled | src/vault/rotate.rs:315-364 | a chain of granularities none of which is enabled succeeds with nothing touched |
| Retention.RunDisabled | src/vault/rotate.rs:249-312 | with every flag off a delete run succeeds with nothing touched, and a move run still creates a missing `moved` |
| Retention.CascadeAppend | src/vault/rotate.rs:286-308 | the later passes run on what the earlier ones left, and only if they succeeded |
| Retention.CascadeConserves | src/vault/rotate.rs:286-308 | whatever listing each pass is handed, the chain of passes keeps everything a single pass keeps |
| Retention.RunConserves | src/vault/rotate.rs:249-312 | whatever listing each pass is handed, a run adds nothing but `moved`, never touches a name without a leading year, loses nothing under "move", leaves `moved` in place after a successful "move" run, and leaves `moved` alone otherwise |
| StampBuckets.Depth | src/vault/rotate.rs:13-16 | a key covers one to four leading fields of a timestamp |
| StampBuckets.PatternIsTemplatePrefix | src/vault/rotate.rs:13-16 | each rotation pattern is the leading part of the timestamp's shape, as long as the fields it covers |
| StampBuckets.StampKey | src/vault/rotate.rs:13-16 | the key captured from a name that starts with a formatted instant is the printing of the instant's year, month, day or hour |
| StampBuckets.StampMatches | src/vault/rotate.rs:13-16 | every granularity accepts a name that starts with a formatted instant |
| StampBuckets.StampBucketOrder | src/vault/rotate.rs:117-154 | two stamped names share a bucket exactly when their instants fall in the same period, and buckets are ordered as their periods are |
| StampBuckets.StampNameOrder | src/vault/time.rs:5 | a name starting with the printing of an earlier instant sorts before one starting with a later instant, whatever follows |
| StampBuckets.StampBucketMonotone | src/vault/rotate.rs:204 | a later instant never lands in an older bucket |
| Corrected.InsertName | src/vault/rotate.rs:69-100 | inserting into an ascending listing keeps it ascending, adds exactly the name, and adds no repeat |
| Corrected.NotLessTransitive | src/vault/rotate.rs:117-154 | "not below" in `String` order is transitive |
| Corrected.Sort | src/vault/rotate.rs:69-100 | the sorted listing is ascending, a permutation of the listing, and free of repeats when the listing is |
| Corrected.SortKeepsNames | src/vault/rotate.rs:69-100 | sorting keeps the names and puts the stamped ones in order |
| Corrected.LastIsGreatest | src/vault/rotate.rs:228-231 | in a sorted listing, the last listed member of a bucket is its greatest |
| Corrected.NewerBucketByKeys | src/vault/rotate.rs:204 | whether a bucket is closed depends only on the keys present |
| Corrected.SameBuckets | src/vault/rotate.rs:117-154 | listings holding the same names have the same buckets |
| Corrected.GreatestSurvives | src/vault/rotate.rs:228-241 | on a sorted listing, a successful pass keeps exactly the greatest member of each bucket with a newer bucket |
| Corrected.SortedPass | src/vault/rotate.rs:228-241 | `rotate` over the listing sorted by name; `Corrected.SortedPassKeepsNewest` and `Corrected.SortedPassDropsOlder` state what survives |
| Corrected.SortedPassKeepsNewest | src/vault/rotate.rs:228-241 | a successful sorted pass keeps exactly the greatest-named member of each bucket with a newer bucket |
| Corrected.SmallerGoes | src/vault/rotate.rs:228-241 | when only a bucket's greatest member survives, a smaller member of the same bucket is gone |
| Corrected.SortedPassDropsOlder | src/vault/rotate.rs:228-241 | after a successful sorted pass, of two stamped names in one closed bucket the one with the earlier instant is gone, so only the most recent file of the period survives |
| Corrected.SortedLists | src/vault/rotate.rs:69-100 | every pass of the corrected run sorts the listing it was handed |
| Corrected.SortedListsLists | src/vault/rotate.rs:69-100 | sorted listings are still listings of the directory, hold the same names, and put stamped names in chronological order |
| Corrected.ListedSurvivor | src/vault/rotate.rs:117-154 | names the listing missed do not disturb which listed member of a bucket survives |
| Corrected.SortedPassOnKeepsNewest | src/vault/rotate.rs:228-241 | a successful pass over a sorted fresh listing keeps, among the listed members of each closed bucket, exactly the greatest |
| Corrected.SortedRun | src/vault/rotate.rs:249-312 | the run whose every pass sorts its listing; `Corrected.SortedListsLists` makes `Retention.RunConserves` apply to it and `Corrected.SortedPassOnKeepsNewest` gives each pass's survivors |
| Corrected.SortedPassVerdict | src/vault/rotate.rs:228-241 | under the sorted pass the greatest member of such a bucket survives and every other member is gone |
| Scenarios.HourlyExample | src/vault/rotate.rs:188-246 | a delete pass over three hours holding three, two and one file deletes two, then one, and leaves the newest hour alone |
| Scenarios.ExamplePass | src/vault/rotate.rs:188-246 | a pass over six names whose pruned positions are 0, 1 and 3 leaves the other three in order |
| Scenarios.ExamplePruned | src/vault/rotate.rs:117-154 | in the three-hour listing, exactly the first two files of the oldest hour and the first of the middle hour are pruned |
| Scenarios.AsWrittenKeepsOlder | src/vault/rotate.rs:228-241 | with the newer of two same-day files listed first, the pass keeps the older and deletes the newer |
| Scenarios.SortedKeepsNewer | src/vault/rotate.rs:228-241 | on the same listing the sorted pass keeps the newer and deletes the older |
| Scenarios.SortedSucceeds | src/vault/rotate.rs:237-240 | with every operation succeeding, the sorted delete pass succeeds |
| Scenarios.DayFacts | src/vault/rotate.rs:13-16 | two instants of one day share a daily key, and a later day has a greater key |
| Scenarios.DayInstantsExist | src/vault/time.rs:5 | the instants 2023-01-01 00:00:00.000000001 and .000000002, and 2023-01-02 00:00:00, meet the conditions of the two scenarios |

## Left out

- Directory listing I/O (`list_files`, rotate.rs lines 69-100) is left out. Each pass's listing comes from the `relist` parameter, constrained only by `Rotate.Lists`: names of the directory, without repeats, in any order. A failing `read_dir` gives the empty listing, for which `Retention.PassOnIdle` shows that the pass succeeds and every name stays; entries that fail to read and names that are not UTF-8 are simply missing from the listing.
- The `None` branch of `list_tree`, where a regex fails to compile, is left out. The four regexes are constants that compile, so the branch cannot be taken.
- `dbg!` and `println!` diagnostics are left out because they have no effect on the result.
- The real regex engine and chrono are left out. The regexes become digit templates and the format becomes a record printer and parser.
- The file system's semantics are left out. `fs::remove_file`, `fs::rename` and `fs::create_dir` become the `succeeds` oracle and the `mkdirOk` flag. `moved` is a sequence of names, so a collision that would overwrite a file in `moved` shows up as a repeated name.
- Rotate.Run: `moved` is taken to exist when the name `moved` is among the entries (rotate.rs line 263). `Path::exists` follows symbolic links, so a dangling link named `moved` differs: the directory lists it but `exists()` is false, `fs::create_dir` then fails, and `run` returns false (lines 266-273), whereas the model runs the passes. A regular file named `moved` behaves alike in both, since `exists()` is true for it.
- Timestamp.Format: requires a representable instant: year 0..9999 (four unsigned digits), a real Gregorian date, no leap second, nanoseconds below 10^9. Years outside that range, which chrono prints with a sign or more digits, are not modelled.
- Timestamp.Parse: a strict parser of exactly the 29-character shape. chrono's `datetime_from_str` may also accept strings of other shapes, for example with a different number of fraction digits; that leniency is not modelled. It also accepts a leap second such as `2016-12-31_23-59-60.000000000` and prints it back; the model's instants have no leap second (`Valid` requires a second below 60), so `Timestamp.Parse` rejects that string.
- Retention.OneSurvivorPerBucket: stated for one pass. For a whole run, `Retention.CascadeConserves` and `Retention.RunConserves` state what the chain keeps, pass by pass.
- Corrected.SortedRun: has no contract of its own. `Corrected.SortedListsLists` shows its listings satisfy `Rotate.Lists`, so `Retention.RunConserves` covers it, and `Corrected.SortedPassOnKeepsNewest` gives the survivors of each of its passes; no lemma chains the per-pass survivor statement through all four passes.
- The scheduler, `config::load`, state and task files, argument parsing and the CLI are left out. They are persistence and process plumbing outside the rotation core, and the scheduler's implementation is not part of this model.

## Findings

| source | as written | input that shows it | evidently intended | confidence | as-written member | corrected member |
|---|---|---|---|---|---|---|
| src/vault/rotate.rs:228-241 | keeps the member of each bucket that `fs::read_dir` listed last, and the listing is never sorted | listing `2023-01-01_00-00-00.000000002`, `2023-01-01_00-00-00.000000001`, `2023-01-02_00-00-00.000000000` with a daily delete pass: the newer file of 2023-01-01 is deleted and the older one kept | keep the most recent file of every closed period | not executed | Scenarios.AsWrittenKeepsOlder | Corrected.SortedPassDropsOlder |

`Scenarios.DayInstantsExist` shows that the three instants of the listing
meet the conditions of `Scenarios.AsWrittenKeepsOlder`.
`Scenarios.SortedKeepsNewer` shows the sorted pass keeping the newer file on
the same listing.
