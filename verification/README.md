# Benchmark comparison and daily run gate, modelled in Dafny

This project models the two pieces of decision logic in the benchmark
automation scripts of the GameVariable repository.

- **The comparator** (`scripts/compare_benchmarks.py`) loads two
  BenchmarkDotNet result documents into dictionaries keyed by benchmark
  name. It joins them on the key and classifies each key as Slower,
  Faster, Same, Removed or New against a fixed ±5% threshold. It then
  writes a Markdown table with one row per key, in ascending key order.
  Module `CompareBenchmarks` (`compare_benchmarks.dfy`).
- **The daily run gate** (`scripts/daily_benchmark_bot.py`) keeps one piece
  of durable state, the `last_run_commit` file. It runs the benchmark
  script when there is no record, or when the recorded commit differs
  from `HEAD` and files outside `scripts/` changed. It also runs when the
  diff cannot be taken (fail-open). The record is rewritten only after
  the script exits with 0. Module `DailyBenchmarkBot`
  (`daily_benchmark_bot.dfy`): the `Bot` class holds the file content
  as `marker: Option<string>`, and `Bot.Invoke` is one run of `main`.
- `Strings` (`strings.dfy`) models the parts of Python's `str` the
  scripts use: `split('.')`, `strip()`, string ordering and `sorted`.
  `Wrappers` (`wrappers.dfy`) holds `Option`.

Git calls, the benchmark script and the file system become parameters.
A git command's outcome is a `CommandResult`: its standard output, or
`Failed` for a non-zero exit. The script's exit status is an `int`.
Parsed JSON documents are `Document` values. Means are `real`.

Behaviour of the scripts as written that the model keeps:

- The join key is `DisplayInfo`, then `FullName`, then `"Unknown"`. A
  later entry with the same key replaces an earlier one.
- A mean of 0 is falsy in Python, so it counts as "no mean". A zero
  baseline against a nonzero new mean is reported as New with no
  percentage, not as an unchanged 0% row. The `old_mean == 0` branch
  (compare_benchmarks.py lines 75-77) can never run. `CompareRow`
  proves this with `assert false` in that branch.
- A zero mean is still shown as a time (`0.00 ns`), not as `-`.
- When both documents load empty, no report is written at all.
- Rows are sorted by the full key, not by the shortened display name.
- `format_time` has a fourth unit: seconds from 10⁹ ns upward.
- `shorten_name` keeps only the text after the last dot once the name has
  two or more dots. The comment above it shows a two-segment result. It
  also cuts a parameter list that contains a dot: `A.B(x: 1.5)` becomes
  `5)`.
- A `git diff` output of only white space counts as "no changes",
  because `run_command` strips the output.

## Model

| member | source | states |
|---|---|---|
| `CompareBenchmarks.Key` | scripts/compare_benchmarks.py:16 | The dictionary key of one entry: `DisplayInfo`, else `FullName`, else "Unknown". Its contract is carried by `BenchmarkMapKeys` |
| `CompareBenchmarks.BenchmarkMap` | scripts/compare_benchmarks.py:11-17 | The dictionary the loop builds, entry by entry. Specified by `BenchmarkMapKeys` and `BenchmarkMapLastWins` |
| `CompareBenchmarks.Loaded` | scripts/compare_benchmarks.py:6-21 | What `load_benchmarks` returns for a document: the empty map when the document is unreadable or has no `Benchmarks`. Specified by `LoadedSpec` |
| `CompareBenchmarks.LoadBenchmarks` | scripts/compare_benchmarks.py:6-21 | The loop builds exactly `Loaded(doc)`. An unreadable document, or one without `Benchmarks`, gives the empty map. Otherwise the keys are exactly the entry keys, and each key maps to the last entry carrying it |
| `CompareBenchmarks.LoadedSpec` | scripts/compare_benchmarks.py:11-21 | The same key set and last-entry-wins facts, stated for the loader's specification function |
| `CompareBenchmarks.BenchmarkMapKeys` | scripts/compare_benchmarks.py:14-17 | The dictionary's key set is the set of `Key(e)` over all entries (DisplayInfo, else FullName, else "Unknown") |
| `CompareBenchmarks.BenchmarkMapLastWins` | scripts/compare_benchmarks.py:14-17 | An entry with no later entry of the same key is the value stored under its key |
| `CompareBenchmarks.FormatTime` | scripts/compare_benchmarks.py:23-31 | The shown value and unit stand for exactly the input nanoseconds. The value is below 1000 in every unit except seconds, and at least 1 in every unit except nanoseconds |
| `CompareBenchmarks.FormatTimeUnique` | scripts/compare_benchmarks.py:23-31 | Any reading of the input with those three properties is the one `format_time` picks, so the unit thresholds are fully characterised |
| `CompareBenchmarks.FormatTimeMonotone` | scripts/compare_benchmarks.py:23-31 | A longer time never gets a smaller unit |
| `CompareBenchmarks.FormatTimeExamples` | scripts/compare_benchmarks.py:24-31 | 999 ns gives 999 ns; 1000 gives 1 us; 10⁶ gives 1 ms; 10⁹ gives 1 s |
| `CompareBenchmarks.ShortenName` | scripts/compare_benchmarks.py:33-40 | `shorten_name`. Specified by `ShortenNameSpec`, `ShortenLastTwoDots` and `ShortenNameCommentExample` |
| `CompareBenchmarks.ShortenNameSpec` | scripts/compare_benchmarks.py:33-40 | The result is a suffix of the name and never longer. With two or more dots it is the text after the last dot; otherwise it is the name unchanged |
| `CompareBenchmarks.ShortenLastTwoDots` | scripts/compare_benchmarks.py:37-39 | For any `a.b.c` where `c` has no dot, the result is `c` |
| `CompareBenchmarks.ShortenNameCommentExample` | scripts/compare_benchmarks.py:35-39 | The name in the comment shortens to `IsPowerOfTwo(n: 10)`, not to the `CoreMathBenchmarks.IsPowerOfTwo(n: 10)` the comment shows |
| `CompareBenchmarks.Basename` | scripts/compare_benchmarks.py:51 | `os.path.basename` of the new file's path, used in the title. Specified by `BasenameSpec` |
| `CompareBenchmarks.BasenameSpec` | scripts/compare_benchmarks.py:51 | The title's file name is the suffix of the path after its last '/', or the whole path when it has none |
| `CompareBenchmarks.Truthy` | scripts/compare_benchmarks.py:74 | Python truthiness of a mean: present and not zero. Its consequences are stated by `ZeroMeanIsAbsent` and `ClassifyCases` |
| `CompareBenchmarks.StatusFor` | scripts/compare_benchmarks.py:83-88 | The status for a percentage against the 5.0 threshold. Specified through `Classify` by `ClassifyByRatio` and `ClassifyBoundaries` |
| `CompareBenchmarks.Classify` | scripts/compare_benchmarks.py:71-92 | The percentage and status for one key's two means. Specified by `ClassifyByRatio`, `ClassifyBoundaries`, `ZeroMeanIsAbsent`, `ClassifyCases` and `ClassifySwap` |
| `CompareBenchmarks.ClassifyByRatio` | scripts/compare_benchmarks.py:78-88 | With a positive baseline and a nonzero new mean: Slower iff new·100 > old·105; Faster iff new·100 < old·95; Same iff in between, boundaries included |
| `CompareBenchmarks.ClassifyBoundaries` | scripts/compare_benchmarks.py:79-92 | Exactly +5% and −5% are Same; 105.01 and 94.99 against 100 are Slower and Faster; 100→120 is +20% Slower; 50→40 is −20% Faster; absent→10 is New |
| `CompareBenchmarks.ZeroMeanIsAbsent` | scripts/compare_benchmarks.py:74-92 | A zero mean classifies exactly like a missing one. A zero baseline with a nonzero new mean is New with no percentage. The reverse is Removed. Zero on both sides gives an empty status |
| `CompareBenchmarks.ClassifyCases` | scripts/compare_benchmarks.py:71-92 | A percentage appears iff both means are truthy. Removed iff only the old one is; New iff only the new one is; empty status iff neither is |
| `CompareBenchmarks.ClassifySwap` | scripts/compare_benchmarks.py:89-92 | Swapping the two sides swaps Removed and New and keeps the empty status |
| `CompareBenchmarks.MeanOf` | scripts/compare_benchmarks.py:65-66 | A side's mean: its `Statistics` mean, or none when the entry or its `Statistics` is missing. Stated by `RowForMissing` |
| `CompareBenchmarks.CellFor` | scripts/compare_benchmarks.py:68-69 | A time cell: "-" without a mean, else the formatted mean. Stated by `RowForMissing` |
| `CompareBenchmarks.RowFor` | scripts/compare_benchmarks.py:59-94 | The row for one key. Stated by `RowForMissing`; `CompareRow` is proved to compute it |
| `CompareBenchmarks.RowForMissing` | scripts/compare_benchmarks.py:60-72 | A side's time is "-" iff the key is missing there or its entry has no `Statistics`. A key missing on one side gets no percentage, and only New/Removed or an empty status |
| `CompareBenchmarks.CompareRow` | scripts/compare_benchmarks.py:59-94 | The loop body's branch chain yields exactly the row `RowFor` specifies: display name, both time cells, diff and status |
| `CompareBenchmarks.RowsSnoc` | scripts/compare_benchmarks.py:59-94 | Handling one more key appends exactly that key's row |
| `CompareBenchmarks.Rows` | scripts/compare_benchmarks.py:59-94 | One row per key in the given order. Stated by `RowsSnoc` and used in the contracts of `ReportLines` and `Compare` |
| `CompareBenchmarks.Header` | scripts/compare_benchmarks.py:50-54 | The four header lines: the title with the new file's base name, an empty line, the column header and the rule. Used in the contracts of `ReportLines` and `Compare` |
| `CompareBenchmarks.ReportLines` | scripts/compare_benchmarks.py:50-96 | The key list is strictly ascending and holds each key of either map once. The lines are the 4 header lines, then one row per key in that order, then an empty line |
| `CompareBenchmarks.Compare` | scripts/compare_benchmarks.py:42-99 | No report iff both documents load empty. Otherwise the report is the header, the rows for the sorted union of keys, and a trailing empty line |
| `CompareBenchmarks.ReportOrderDetermined` | scripts/compare_benchmarks.py:56-57 | Only one strictly ascending listing of the union of keys exists, so the row order is determined |
| `Strings.Split` | scripts/compare_benchmarks.py:37 | `split` always yields at least one piece |
| `Strings.JoinSplit` | scripts/compare_benchmarks.py:37 | Joining the pieces with the separator gives back the name. No piece contains the separator |
| `Strings.SplitJoin` | scripts/compare_benchmarks.py:37 | Splitting the join of separator-free pieces gives back those pieces |
| `Strings.SplitNoSeparator` | scripts/compare_benchmarks.py:37-40 | A string without the separator is one piece |
| `Strings.SplitAppend` | scripts/compare_benchmarks.py:37-39 | Appending a separator and a separator-free tail adds that tail as the last piece |
| `Strings.SplitCount` | scripts/compare_benchmarks.py:37-38 | There is one more piece than there are separators |
| `Strings.LastPieceIsSuffix` | scripts/compare_benchmarks.py:37-39 | The last piece is the text after the last separator |
| `Strings.LexLess` | scripts/compare_benchmarks.py:57 | Python's `<` on strings: code-point lexicographic order. Specified by `LexIrreflexive`, `LexTransitive`, `LexTotal` and `LexAsymmetric` |
| `Strings.LexIrreflexive` | scripts/compare_benchmarks.py:57 | Python string `<` is irreflexive |
| `Strings.LexTransitive` | scripts/compare_benchmarks.py:57 | Python string `<` is transitive |
| `Strings.LexTotal` | scripts/compare_benchmarks.py:57 | Any two different strings are ordered one way or the other |
| `Strings.LexAsymmetric` | scripts/compare_benchmarks.py:57 | Python string `<` is asymmetric |
| `Strings.Insert` | scripts/compare_benchmarks.py:57 | Inserting a new key into a strictly sorted list keeps it strictly sorted and adds exactly that key |
| `Strings.SortedUnique` | scripts/compare_benchmarks.py:57 | Two strictly sorted lists with the same elements are equal |
| `Strings.SortedKeys` | scripts/compare_benchmarks.py:56-57 | `sorted(list(keys))` is strictly ascending and holds exactly the set's elements, each once |
| `Strings.TrimLeft` | scripts/daily_benchmark_bot.py:20 | Drops exactly the leading white space |
| `Strings.TrimRight` | scripts/daily_benchmark_bot.py:20 | Drops exactly the trailing white space |
| `Strings.Strip` | scripts/daily_benchmark_bot.py:20 | The result is the slice of the input left after its leading and trailing white space. It neither starts nor ends with white space, so only white space is removed, and only at the two ends |
| `Strings.StripIdempotent` | scripts/daily_benchmark_bot.py:30-34 | Stripping a stripped commit changes nothing |
| `Strings.StripEmpty` | scripts/daily_benchmark_bot.py:44-46 | The stripped output is empty iff the output is all white space |
| `DailyBenchmarkBot.RunCommand` | scripts/daily_benchmark_bot.py:10-25 | The stripped standard output of a command that succeeded, or nothing for one that failed. `Strip` carries the contract |
| `DailyBenchmarkBot.CheckForChanges` | scripts/daily_benchmark_bot.py:36-51 | Changes iff the diff failed (fail-open) or printed at least one non-white-space character |
| `DailyBenchmarkBot.Decide` | scripts/daily_benchmark_bot.py:88-105 | The four-way decision of `main`. Specified by `NoRecordRuns`, `SameCommitSkips`, `DifferentCommitFollowsDiff` and `BlankDiffSkips` |
| `DailyBenchmarkBot.NoRecordRuns` | scripts/daily_benchmark_bot.py:92-94 | No record, or an empty one, always decides to run, whatever the diff says |
| `DailyBenchmarkBot.SameCommitSkips` | scripts/daily_benchmark_bot.py:95-97 | A record equal to the current commit skips, and the diff outcome does not affect the decision |
| `DailyBenchmarkBot.DifferentCommitFollowsDiff` | scripts/daily_benchmark_bot.py:98-105 | A different record runs iff the diff failed or listed something |
| `DailyBenchmarkBot.BlankDiffSkips` | scripts/daily_benchmark_bot.py:98-105 | A different record with an all-white-space diff output decides "no relevant changes" |
| `DailyBenchmarkBot.RunnerCommand` | scripts/daily_benchmark_bot.py:58-66 | The command is the script, then the arguments (or "*" when there are none), then "--job" "short". Its length is 4 without arguments and 3 + their count with them |
| `DailyBenchmarkBot.ReadMarker` | scripts/daily_benchmark_bot.py:30-34 | `get_last_run_commit`: the stripped file content, or none without the file. Specified by `MarkerRoundTrip` |
| `DailyBenchmarkBot.MarkerRoundTrip` | scripts/daily_benchmark_bot.py:77-97 | A commit written after a run reads back unchanged, so the next invocation at that commit decides "no new commits" |
| `DailyBenchmarkBot.Bot.constructor` | scripts/daily_benchmark_bot.py:30-34 | The bot starts with the given file content (or none) and script path |
| `DailyBenchmarkBot.Bot.Invoke` | scripts/daily_benchmark_bot.py:82-112 | A failed `git rev-parse` stops the run. Otherwise the outcome is Skipped with the four-way decision, RunFailed on a non-zero exit, or Ran. The command is the runner command. The record becomes the current commit only on Ran; otherwise it is unchanged |
| `DailyBenchmarkBot.RunThenSkip` | scripts/daily_benchmark_bot.py:107-112 | After a successful run at a commit, a second invocation at the same commit skips and keeps the record |

## Left out

- File access and JSON parsing (`open`, `json.load`): a document is given already parsed, or as `Unreadable`. Any exception raised while loading, including one in the middle of the `Benchmarks` list, is modelled as an unreadable document, which yields the empty map.
- The `KeyError` when `Statistics` has no `Mean`: `Compare` requires instead that every loaded entry with `Statistics` has a `Mean` (`HasMeanIfStatistics`).
- JSON values of unexpected types (line numbers below are in `scripts/compare_benchmarks.py`). Keys are strings and a `Mean` is a number, so the model does not represent the first four of these cases:
  - `"Mean": null`. Line 65 yields `None`, the cell shows "-", and `None` is falsy, so the row comes out New, Removed or with a blank status.
  - `"Statistics": null`. Line 65 raises `TypeError` (`None['Mean']`).
  - A `null`, number or boolean `DisplayInfo` or `FullName`. `sorted` at line 57 raises `TypeError` whenever it compares a `null` key with another key, or a string key with a non-string one. Otherwise `shorten_name` raises `AttributeError` at line 37 on the first non-string key it is given.
  - A non-numeric `Mean`, such as a string. `format_time` raises `TypeError` at line 24.
  - An array or object `DisplayInfo` or `FullName`. It cannot be a dictionary key, so line 17 raises `TypeError`, and the handler at line 19 returns an empty dictionary. The model covers this case: such a document is `Unreadable`.
- Floating point: means are exact reals, so rounding, NaN and infinities are not modelled.
- CompareBenchmarks.FormatTime: does not model the two-decimal text (`:.2f`). It models the unit choice and the scaled value only, because number-to-text formatting is floating-point presentation. The printed number is rounded, so a value just below a threshold prints in the smaller unit as the threshold: 999.999 ns prints as `1000.00 ns`. The bound `value < 1000` holds for the value, not for the printed text.
- CompareBenchmarks.Compare: the report is a list of `Line` values, not text. The emoji labels, the `:+.1f` percent text, the table cell text and the final `"\n".join` are left out. Writing the output file and the console messages are left out too.
- `sorted` is modelled by its result, via insertion into a sorted list (`SortedKeys`). `SortedUnique` shows the result does not depend on the algorithm.
- All subprocesses: `git rev-parse`, `git diff` and the benchmark script are parameters of `Bot.Invoke`. `chmod +x` is assumed to succeed; when it fails, the script stops before running the benchmarks. A missing `git` executable raises an error that `check_for_changes` does not catch; that case is not modelled.
- Which paths `git diff -- . ':!scripts/'` lists is git's concern. The model takes its output as given.
- Path constants derived from `__file__`: the script path is the `Bot.script` field. The marker file's location is implicit in `Bot.marker`.
- `print` diagnostics, `sys.argv` handling, the `__main__` blocks and the process exit code. A failed benchmark run is the `RunFailed` outcome; a failed `git rev-parse` is the `HeadLookupFailed` outcome.
- Concurrent invocations: the scripts assume one bot at a time, and so does the model.
