# ckpool log parser — a Dafny model

This project models `get_user_stats` from `metrics_api/ckpool_parser.py` and its helpers. The function reads a ckpool log once, makes one pass over its lines per concern, and builds the statistics the metrics API serves for one miner address:

- **Tokenizer** (`tokenizer.dfy`): `_strip_ts_prefix` removes the `[timestamp] ` prefix. `_brace_delta` is the brace balance of a fragment.
- **METRIC reconstructor** (`reconstructor.dfy`): `_iter_metric_events` is a state machine over `pending` and `need`. The model has it twice:
  - as the step function `Feed`, folded by `RunFrom`;
  - as the loop `IterMetricEvents`, proved equal to that fold.
- **Share filter, workinfo and timestamps** (`shares.dfy`): the first pass over the events. It keeps the shares of the address, keeps the latest-wins workinfo snapshot and tracks the largest timestamp seen.
- **Retention** (`retention.dfy`): the stable descending sort by `ts` and the `share_limit` cut, with Python slice semantics.
- **Snapshots** (`snapshots.dfy`): the reverse scan for `Worker` summaries and for the latest `User <addr>:` summary. The two regular expressions are modelled by what they accept at each start position, searched leftmost-first. The user fields are then copied with their defaults.
- **Pool** (`pool.dfy`): the reverse merge of `Pool:` objects. It uses `dict.update` and an early `break` once every required key is present, then the fixed renaming table.
- **Aggregates** (`aggregates.dfy`):
  - the 10-minute and 1-hour windows (count and mean);
  - the 24-hour best `sdiff`;
  - the per-agent and per-worker tallies, ranked by count.
- **Stats** (`stats.dfy`): the whole of `get_user_stats` as one method. It is proved equal to the specification `StatsOf`.

Other parameters and representations:
- The JSON decoder `json.loads` is a parameter `parse: string -> Option<Json>`. `None` stands for a decode error.
- The clock read `int(time.time())` is a parameter `now`.
- The log is a `seq<string>` of lines.
- JSON objects are `map<string, Json>`.

Two facts about the windows are easy to misread in the code:
- The reference time `ref` is `last_ts_seen` (or the clock when that is 0). Both the kept shares (line 146) and the accepted workinfo snapshots (line 163) raise `last_ts_seen`, so a recent workinfo can move the windows past the newest share (`Shares.LastTsSeenSpec`).
- A window keeps the shares with `ts >= ref - W` (line 252). A share 700 s before `ref` is therefore outside the 10-minute window and inside the 1-hour one. For shares at `ref-100`, `ref-700` and `ref-4000`, `Aggregates.WindowExample` proves count 1 and mean 1.0 for 10 minutes, count 2 and mean 1.5 for one hour, and a 24-hour best of 3.0.

## Model

| member | source | states |
|---|---|---|
| Text.TrimLeftSpec | metrics_api/ckpool_parser.py:59 | `lstrip` drops exactly the leading whitespace; what it keeps does not start with whitespace |
| Text.TrimRightSpec | metrics_api/ckpool_parser.py:34 | `rstrip` drops exactly the trailing whitespace; what it keeps does not end with whitespace |
| Text.FindSpec | metrics_api/ckpool_parser.py:11 | `find`/`index` return the first occurrence, and nothing exactly when the pattern never occurs |
| Text.After | metrics_api/ckpool_parser.py:59 | `split(sep, 1)[1]` is the suffix that follows an occurrence of the separator |
| Text.AfterSpec | metrics_api/ckpool_parser.py:59 | that occurrence is the FIRST one: no occurrence of the separator starts before it, so `METRIC {a} METRIC {b}` keeps `{a} METRIC {b}` |
| Text.CountConcat | metrics_api/ckpool_parser.py:17 | `count` of a concatenation is the sum of the counts |
| Reconstructor.RepairClosesGaps | metrics_api/ckpool_parser.py:51 | after the first repair step no `}"{` remains anywhere in the buffer: every one gets its comma, and no inserted `},"{` forms a new one with its neighbours |
| JsonValue.TruncateReal | metrics_api/ckpool_parser.py:129 | `int()` on a float truncates toward zero, for both signs |
| Tokenizer.StripTsPrefix | metrics_api/ckpool_parser.py:8-14 | the stripped line is a suffix of the raw line, never longer |
| Tokenizer.StripTsPrefixSpec | metrics_api/ckpool_parser.py:8-14 | a line without `"] "` is returned unchanged; otherwise the result is exactly the text after the FIRST `"] "` |
| Tokenizer.BraceDeltaConcat | metrics_api/ckpool_parser.py:16-17 | the balance of a concatenation is the sum of the balances, so the running `need` equals the balance of the whole buffer |
| Reconstructor.FromFirstBraceSpec | metrics_api/ckpool_parser.py:60-65 | the fragment starts at the first `{` of the text after the marker, and there is none exactly when the text has no `{` |
| Reconstructor.StartFragmentSteps | metrics_api/ckpool_parser.py:58-65 | `lstrip`, then keep the text when it starts with `{`, else cut at `find('{')`, else skip: the same as "from the first `{` after `METRIC `" |
| Reconstructor.StartFragment | metrics_api/ckpool_parser.py:58-66 | a fragment that opens a record always starts with `{` |
| Reconstructor.OpenFragment | metrics_api/ckpool_parser.py:58-65 | the loop's own steps compute the fragment a line opens |
| Reconstructor.TokenizeWellFormed | metrics_api/ckpool_parser.py:34-37 | a line that starts with `METRIC ` mentions the marker, and any fragment starts with `{` |
| Reconstructor.FeedLine | metrics_api/ckpool_parser.py:34-73 | one iteration on `pending`, `need` and `events` does what the step function `Feed` does; idle means `need == 0` |
| Reconstructor.IterMetricEvents | metrics_api/ckpool_parser.py:19-75 | the loop returns the fold `MetricEvents`, and at most one event per line that mentions `METRIC ` |
| Reconstructor.MetricEventsBound | metrics_api/ckpool_parser.py:29-75 | number of events ≤ number of lines that mention `METRIC ` |
| Reconstructor.FeedBound | metrics_api/ckpool_parser.py:33-73 | one line emits at most one event, and only a line that mentions `METRIC ` can open a buffer or emit beyond what was already held |
| Reconstructor.EventsBound | metrics_api/ckpool_parser.py:29-75 | events emitted plus a buffer still open never exceed the buffers opened (one per marker line) |
| Reconstructor.FeedConsistent | metrics_api/ckpool_parser.py:36-73 | one line keeps the state invariant: idle, or a buffer starting with `{` whose positive `need` is its brace balance |
| Reconstructor.RunConsistent | metrics_api/ckpool_parser.py:33-73 | every run from a consistent state ends in a consistent state |
| Reconstructor.StateAfterEveryLine | metrics_api/ckpool_parser.py:29-75 | after every prefix of the log the reconstructor is idle or holds a buffer with `need > 0` |
| Reconstructor.FeedEmitsOnlyOnClose | metrics_api/ckpool_parser.py:41-73 | an event is emitted only when a buffer beginning with `{` closes with `need <= 0`; only the multi-line path tries the repaired text, and a first-line close is parsed strictly |
| Reconstructor.RunSplit | metrics_api/ckpool_parser.py:33-75 | running over `a + b` is running over `a`, then over `b` from the state `a` left |
| Reconstructor.Supersession | metrics_api/ckpool_parser.py:36-39 | with a buffer open, a line starting with `METRIC ` behaves exactly as on an idle reconstructor, and the events are those before it followed by those of a fresh run from it |
| Reconstructor.ClosesWhenBalanced | metrics_api/ckpool_parser.py:41-55 | an open buffer fed non-record lines closes at the first line that balances it and yields the repaired decoding of all fragments joined |
| Reconstructor.OpensPending | metrics_api/ckpool_parser.py:66-68 | an unbalanced fragment opens a buffer holding that fragment and its balance |
| Reconstructor.BalancedOnOneLine | metrics_api/ckpool_parser.py:66-73 | a fragment balanced on its own line gets one strict parse and no repair |
| Reconstructor.SplitObjectParsesAlike | metrics_api/ckpool_parser.py:19-75 | an object split over several lines yields the same event as the object on one line, when that text decodes |
| Shares.CollectEvents | metrics_api/ckpool_parser.py:111-163 | the first pass returns the kept shares in event order, the latest-wins workinfo, and `last_ts_seen` |
| Shares.KeptSharesLast | metrics_api/ckpool_parser.py:127-145 | a share is kept after the last event exactly when it was kept before or the last event yields it |
| Shares.KeptShareOfEvent | metrics_api/ckpool_parser.py:117-145 | every share event accepted by the filter (no address, the user equals the address, or the worker starts with `<address>.`) has its record kept |
| Shares.KeptShareSource | metrics_api/ckpool_parser.py:117-145 | every kept record comes from a share event the filter accepts |
| Shares.UnfilteredKeepsAll | metrics_api/ckpool_parser.py:122-125 | without an address every share event is kept |
| Shares.LatestIndexSpec | metrics_api/ckpool_parser.py:148-163 | the snapshot is the workinfo event with the largest `ts`, the LAST one among ties (`>=`), or none when no workinfo event occurs |
| Shares.LatestWorkInfoSpec | metrics_api/ckpool_parser.py:148-163 | no snapshot exactly when there is no workinfo event; otherwise it is one at a latest-wins position |
| Shares.LastTsSeenSpec | metrics_api/ckpool_parser.py:112-163 | `last_ts_seen` is at least 0, bounds every kept share and the snapshot, and is 0 or attained by one of them |
| Retention.InsertSpec | metrics_api/ckpool_parser.py:165 | inserting into a descending list keeps it descending and adds exactly that element |
| Retention.SortDescSpec | metrics_api/ckpool_parser.py:165 | `sort(key=ts, reverse=True)` gives a non-increasing permutation of the same length |
| Retention.SortDescStable | metrics_api/ckpool_parser.py:165 | the sort is stable: the records with one timestamp keep their original order |
| Retention.RetainPrefix | metrics_api/ckpool_parser.py:166-167 | `shares[:limit]` when the limit is non-zero: a prefix whose length follows Python slicing, including negative limits; a zero limit keeps all |
| Retention.RecentSharesSpec | metrics_api/ckpool_parser.py:165-168 | the recent shares are a prefix of the sorted list, non-increasing, drawn from the kept shares, no older than any share cut off, and as long as the limit says |
| Snapshots.JsonGroupSpec | metrics_api/ckpool_parser.py:177 | the group `(\{.*\})\s*$` can end in one place only: the captured text is the only braced, newline-free prefix followed by whitespace alone |
| Snapshots.FirstSomeSpec | metrics_api/ckpool_parser.py:177 | `re.search` reports the match at the leftmost start position that matches, and none when no position does |
| Snapshots.ReadSnapshotLine | metrics_api/ckpool_parser.py:175-192 | one line gives a worker summary, a user summary, or neither, never both (`continue` after a `Worker ` line) |
| Snapshots.ScanSnapshots | metrics_api/ckpool_parser.py:171-192 | the reverse loop with `break` returns the specification `Scan` of the classified lines |
| Snapshots.ScanWithoutUser | metrics_api/ckpool_parser.py:174-183 | with no user summary the scan reads every line and returns all worker summaries, newest first |
| Snapshots.ScanStopsAtLastUser | metrics_api/ckpool_parser.py:185-192 | the scan stops at the LAST user summary in the file and returns exactly the worker summaries below it |
| Snapshots.EmptyAddressScansAll | metrics_api/ckpool_parser.py:185 | with an empty address no line is a user summary, so the whole file is scanned |
| Snapshots.UserFields | metrics_api/ckpool_parser.py:194-205 | a missing or falsy user summary leaves the defaults; from a truthy one, the last-share time is `lastshare` as an integer (0 when absent), each hashrate is copied when present and `"0"` otherwise, and `shares`, `workers`, `bestshare` and `difficulty` are copied when present and 0 otherwise |
| Snapshots.EmptyUserKeepsDefaults | metrics_api/ckpool_parser.py:189-205 | a user summary decoding to `{}` still ends the scan but leaves every user field at its default |
| Pool.PoolOfSpec | metrics_api/ckpool_parser.py:77-81 | a line contributes keys exactly when it starts with `Pool:` and the stripped text after the first `Pool:` decodes to an object with members, and it contributes exactly those members; a text that does not decode (`_parse_pool_line` gives `{}`) or an empty object contributes nothing |
| Pool.AccumulateSpec | metrics_api/ckpool_parser.py:210-224 | the accumulator is the merge of the objects from the stopping line to the end; a stop is reported exactly when that merge holds every required key |
| Pool.AccumulateMinimal | metrics_api/ckpool_parser.py:220-224 | the scan stops at the first line, from the end, where the merge becomes complete |
| Pool.AccumulateDone | metrics_api/ckpool_parser.py:224 | once the scan breaks, the lines above change nothing |
| Pool.MergedSource | metrics_api/ckpool_parser.py:218 | a key is merged exactly when some scanned object has it, and its value comes from the earliest such line in the file |
| Pool.MergeLine | metrics_api/ckpool_parser.py:212-224 | one iteration (`update` with a non-empty object, then the key-set test) advances the specification scan, or ends it with the final accumulator |
| Pool.MergePool | metrics_api/ckpool_parser.py:209-224 | the reverse loop with `update` and `break` returns the specification accumulator |
| Pool.TableDistinct | metrics_api/ckpool_parser.py:228-239 | the renaming table maps to 21 distinct output keys |
| Pool.TranslateRowsSpec | metrics_api/ckpool_parser.py:226-241 | an output key is present exactly when its source key is, with the source's value, and no other key appears |
| Pool.TranslatedKeys | metrics_api/ckpool_parser.py:226-241 | the reported pool object holds only table keys, at most 21 of them |
| Pool.TranslatePool | metrics_api/ckpool_parser.py:226-241 | the three copying loops build the table translation of the accumulator |
| Aggregates.InWindowSpec | metrics_api/ckpool_parser.py:251-254 | a window's values are the `sdiff` of exactly the retained shares with `ts >= ref - W`, and its count is their number |
| Aggregates.InWindowSnoc | metrics_api/ckpool_parser.py:253 | read from the end, a window gains a share's `sdiff` exactly when that share is in it, so the window holds one value per share with `ts >= ref - W`, in share order, which fixes the mean |
| Aggregates.CountSinceMonotone | metrics_api/ckpool_parser.py:251-257 | a wider window never counts fewer shares, nor more than all of them |
| Aggregates.MaxOf | metrics_api/ckpool_parser.py:259 | `max` returns a member that bounds every value |
| Aggregates.MeanAtMostMax | metrics_api/ckpool_parser.py:254 | the mean of a non-empty window is at most its maximum |
| Aggregates.WindowsNest | metrics_api/ckpool_parser.py:256-259 | the 10-minute count ≤ the 1-hour count ≤ the number of retained shares; the 10-minute mean ≤ the 24-hour best |
| Aggregates.BestOfDaySpec | metrics_api/ckpool_parser.py:258-259 | the 24-hour best is 0 for an empty window, bounds every share in it, and is attained by one of them |
| Aggregates.OccurrencesPositive | metrics_api/ckpool_parser.py:247-248 | a key occurs a positive number of times exactly when it is present |
| Aggregates.TallySpec | metrics_api/ckpool_parser.py:244-248 | the `defaultdict` counters hold exactly the keys seen, each once in insertion order, with its number of occurrences |
| Aggregates.TallyFirstSeen | metrics_api/ckpool_parser.py:244-248 | the counter's keys are in order of first appearance: a key listed before another already occurs before each occurrence of that other |
| Aggregates.TallyTotal | metrics_api/ckpool_parser.py:244-248 | the counts of a tally sum to the number of keys counted |
| Aggregates.KeysBound | metrics_api/ckpool_parser.py:246-248 | empty agents and worker names are skipped, so at most one key per share |
| Aggregates.CountByAgentAndWorker | metrics_api/ckpool_parser.py:244-248 | the counting loop builds the tallies of the truthy agents and the non-empty worker names |
| Aggregates.CountsBound | metrics_api/ckpool_parser.py:244-248 | the per-agent counts, and the per-worker counts, each sum to at most the number of retained shares |
| Aggregates.RankedSpec | metrics_api/ckpool_parser.py:265-266 | the ranked items are a non-increasing-by-count permutation of the tally, keeping insertion order among equal counts |
| Aggregates.ExampleWindows | metrics_api/ckpool_parser.py:251-258 | shares at `ref-100`, `ref-700` and `ref-4000` fall into the 10-minute, 1-hour and 24-hour windows as 1, 2 and 3 shares |
| Aggregates.WindowExample | metrics_api/ckpool_parser.py:250-259 | for those shares: count 1 and mean 1.0 over 10 minutes, count 2 and mean 1.5 over one hour, best 3.0 |
| Stats.GetUserStats | metrics_api/ckpool_parser.py:83-269 | the four passes return exactly the specification `StatsOf` |
| Stats.StatsSpec | metrics_api/ckpool_parser.py:108-168 | the reported shares are sorted by `ts`, descending, and drawn from the kept ones; their number is all of them for limit 0 and the limit capped by the kept count for a positive limit; the window counts nest; the snapshot is the latest-wins workinfo |
| Stats.NoAddressStats | metrics_api/ckpool_parser.py:113-185 | with no address, an empty one or one of whitespace only, the tracked address is empty, the user fields keep their defaults, every worker summary is reported and every share event is kept |

## Left out

- Reading the log file, and the `FileNotFoundError` fallback that returns the defaults: I/O. The model takes the lines as a sequence.
- `json.loads` is the parameter `parse`. The JSON grammar is not modelled. Object key order is not modelled either, because objects are maps.
- `time.time()` is the parameter `now`. `datetime.fromtimestamp(...).strftime(...)` depends on the local time zone, so the last-share time is kept as the integer timestamp.
- `round(..., 3)`: floating-point rounding. Means and maxima are exact reals.
- `JsonValue.CoerceInt`, `JsonValue.CoerceReal`: `int(x or 0)` and `float(x or 0)` on numbers and booleans. Strings give 0 instead of being parsed, and junk values give 0 instead of raising.
- Pool.PoolOf: a `Pool:` text that decodes to something other than an object is skipped. The source differs in two ways. A truthy scalar (`Pool: 5`, `Pool: true`, `Pool: "ab"`) makes `update` raise, which nothing catches, so `get_user_stats` fails. A list of key-value pairs (`Pool: [["runtime", 1]]`) is merged by `update` as the object it spells. The model captures neither the failure nor the pairs merge.
- Shares.CollectEvents: a share whose `username` or `workername` is a truthy value that is not a string makes `.strip()` raise in the source, which nothing catches, even with no address tracked. The model reads such a field as empty text and keeps going.
- Aggregates.CountByAgentAndWorker: an object or list `agent` on a retained share makes the counter raise (the key cannot be hashed), and the model counts it instead. Python also counts agents that compare equal, such as `true`, `1` and `1.0`, under one key; the model's tally keeps them as separate keys.
- `Text.IsSpace`: the whitespace of `strip()` and `\s` is modelled for ASCII and Latin-1. Other Unicode whitespace is not.
- `Snapshots.UserMatchAt`: the address is the stripped one, so the pattern's `\s+` takes the whole run of whitespace before it.
- `metrics_api/api.py` is not part of this model: configuration, file discovery, the Bitcoin RPC and price feed, the HTTP handler and the floating-point odds are I/O, network and floating-point code.
