# ELP violation dashboard: a Dafny model of its counting core

The dashboard reports English Language Proficiency (ELP) violations
(49 CFR 391.11(b)(2)) found in FMCSA roadside inspections. Two scripts
produce the same JSON snapshot in two ways.

- `csv_to_json_optimized.py` is the local-export build. It reads the
  violations export and keeps the recent ELP violations, each mapped from
  its inspection id to an out-of-service (OOS) flag. It then joins the
  inspections export against that map, normalising four date encodings. It
  counts the joined inspections per month, per state and per state-month,
  and assembles the report.
- `update_data.py` is the API build. It picks ELP violations out of the
  fetched records with a substring matcher. It counts them in
  `process_violations` and returns the same kind of summary.

The model states, for both builds:

- which rows and records count;
- that every bucket of the result counts exactly the events that fall in it;
- that the counts do not depend on row order;
- that the monthly series add up to the totals;
- what each statistic of the summary means: rate, average per month, peak
  month, month-over-month change, top states, state count and the
  "biggest movers" lists;
- that every date encoding written out from a date reads back as that date.

Modules, in dependency order:

| file | module | what it holds |
|---|---|---|
| `wrappers.dfy` | `Wrappers` | `Option`, `Result` |
| `seqs.dfy` | `Seqs` | counting, filtering, sums, substring search, order independence of counts |
| `text.dfy` | `Text` | Python's `strip`, `split()[0]`, `upper`, `lower`, `isdigit`, `int`, and `dict.get` with the `or` fallback |
| `dates.dfy` | `Dates` | the four date encodings, their trial order, round trips, month keys and labels |
| `sorting.dfy` | `Sorting` | the stable sort and its uniqueness |
| `tables.dfy` | `Tables` | insertion-ordered count tables, the counting loop, its invariant and its closed form |
| `ranking.dfy` | `Ranking` | `sorted(..., reverse=True)` followed by a slice |
| `summary.dfy` | `Summary` | the statistics both builds compute from the tables |
| `movers.dfy` | `Movers` | the two "biggest movers" computations |
| `csv_pipeline.dfy` | `CsvPipeline` | the local-export build |
| `api_pipeline.dfy` | `ApiPipeline` | the API build |

Modelling choices:

- A row, whether a CSV line or a JSON record, is a `map<string, string>`. A
  missing column reads as `""`, which is what `row.get(...) or ''` gives.
- Each Python dictionary built by the counting loop is a `Table`: the keys
  in insertion order plus a map to `{oos, all}` buckets. Insertion order
  matters in two places. It breaks ties for the peak month, because `max`
  returns the first maximum. It also orders states with equal counts, because
  Python's sort is stable, also with `reverse=True`.
- A month key is a `YearMonth` pair. Sorting months by `year * 12 + month`
  agrees with sorting their `"%Y-%m"` texts for years 1000 to 9999. The
  local-export build counts only years from 2025, and every parser reads at
  most four digits. The API build can count an earlier year, because
  `fromisoformat` reads `0999-06-15`. CPython releases without the
  gh-120713 change pass `%Y` to the C library, which on Linux writes that
  year as `999`. `strptime(month, "%Y-%m")` at `update_data.py:161` then
  raises. `ApiPipeline.ProcessViolations` returns `MonthTextUnreadable` in
  that case, following those releases.
- Percentages and rates are exact rationals (`real`).
- `round(avg)` is Python's round-half-to-even. `AvgPerMonth` characterises
  it, and `AvgPerMonthUnique` shows that the characterisation determines it.
- The percent change in the movers is `real`. The pools are ranked with the
  stable descending sort, which is modelled as a stable ascending sort on
  the negated key.
- `Upper` and `Lower` change only ASCII letters. `IsSpace` is Python's
  `str.isspace` over the whole Unicode range.
- `state_monthly[state]` in the local-export report is a dict keyed by
  chart label. `Summary.KeyedByLabel` models it: a label keeps its first
  place, and a later month with the same label replaces its counts. Two
  months a century apart share a label (`Dates.MonthLabelIdentifies`).

The two builds choose their movers differently:

- With fewer than three qualifying states, the local-export build returns
  them all as `increases` and no `decreases`
  (`csv_to_json_optimized.py:266-269`). `Movers.CsvMoversRanked` states this.
- The API build's `decreases` are the drops closest to zero
  (`update_data.py:262`). The API report is modelled as written, and
  "## Findings" records the discrepancy together with the corrected list.

## Model

| member | source | states |
|---|---|---|
| Seqs.Contains | update_data.py:59-60 | `code in text` holds exactly when the code occurs at some position of the text |
| Seqs.CountPermutation | csv_to_json_optimized.py:126-204 | how many rows satisfy a test does not depend on the order of the rows |
| Text.StripPadded | csv_to_json_optimized.py:55-56 | whitespace added around a value does not change what `strip()` returns |
| Text.UpperStripCommute | csv_to_json_optimized.py:56 | `strip().upper()` equals `upper().strip()`: upper-casing never creates or removes whitespace |
| Text.ValueOfDigits | csv_to_json_optimized.py:76 | `int()` of a number written with zero-padded digits is that number |
| Text.DigitsOfValue | csv_to_json_optimized.py:75-76 | a run of digits is the zero-padded writing of its `int()` value |
| Dates.ParseCompact | csv_to_json_optimized.py:154-158 | the `%Y%m%d` reading succeeds only on eight digits, and only with a real calendar date |
| Dates.ParseIso | csv_to_json_optimized.py:161-165 | the ISO reading succeeds only on `YYYY-MM-DD`, and only with a real calendar date |
| Dates.NormalizeIsTheMatchingEncoding | csv_to_json_optimized.py:149-179 | a date text normalises to `d` exactly when one of the four encodings reads it as `d`: the trial order never picks between two readings |
| Dates.CompactRoundTrip | csv_to_json_optimized.py:154-158 | `%Y%m%d` written from a valid date reads back as that date |
| Dates.CompactCanonical | csv_to_json_optimized.py:154-158 | the only eight-digit text read as `d` is the one written from `d` |
| Dates.IsoRoundTrip | csv_to_json_optimized.py:161-165 | `YYYY-MM-DD` written from a valid date reads back as that date |
| Dates.IsoCanonical | csv_to_json_optimized.py:161-165 | the only ISO text read as `d` is the one written from `d` |
| Dates.IsoBeforeT | update_data.py:125 | the text before the first `T` of a timestamp is its ISO date |
| Dates.DayMonYyRoundTrip | csv_to_json_optimized.py:168-172 | `DD-MON-YY` reads back as its date inside the two-digit-year window 1969-2068 |
| Dates.SlashRoundTrip | csv_to_json_optimized.py:175-179 | `MM/DD/YYYY` written from a valid date reads back as that date |
| Dates.NormalizeRoundTrips | csv_to_json_optimized.py:149-183 | each of the four encodings of a date normalises to that date (the two-digit year inside its window) |
| Dates.MonthRankChronological | csv_to_json_optimized.py:276 | the month sort key orders months chronologically, and equal keys mean equal months |
| Dates.MonthLabelIdentifies | csv_to_json_optimized.py:284-285 | two months share a `%b %y` chart label exactly when they are the same month of years 100 apart |
| Sorting.SortUnique | csv_to_json_optimized.py:276 | the stable sort is the only ascending arrangement that keeps ties in input order |
| Ranking.RankDesc | csv_to_json_optimized.py:264 | `sort(reverse=True)` is a permutation, descending, and keeps equal keys in input order |
| Ranking.RankDescUnique | csv_to_json_optimized.py:264 | no other descending arrangement keeps equal keys in input order |
| Ranking.TakeBeatsRest | csv_to_json_optimized.py:291 | the first `n` of a descending list beat every element left out |
| Tables.AggregateValid | csv_to_json_optimized.py:195-204 | after the counting loop the monthly, state and state-month tables each add up to the totals, and every state-month cell's state and month are listed |
| Tables.AggregateTally | csv_to_json_optimized.py:195-204 | every bucket holds the number of events in it, and the number of OOS events among them |
| Tables.AggregateKeys | csv_to_json_optimized.py:195-198 | a month, state or state-month gets a bucket exactly when some event falls in it |
| Tables.AggregateOrder | csv_to_json_optimized.py:195-198 | the key order of every table is the order in which the events first mention each key |
| Tables.AggregateOrderFree | csv_to_json_optimized.py:195-204 | permuting the events changes no bucket and no set of keys |
| Tables.EventsOf | update_data.py:117-146 | the counted events are at most the rows, and each comes from a row classified as it |
| Tables.EventsOfTally | update_data.py:117-146 | every bucket counts the input rows classified into it, and the OOS ones among them |
| Tables.EventsOfOrderFree | csv_to_json_optimized.py:126-204 | permuting the input rows changes no bucket |
| Summary.Rate | csv_to_json_optimized.py:320 | `oos_rate` is 100·oos/all, lies in 0..100, and is 0 with no violations |
| Summary.AvgPerMonth | csv_to_json_optimized.py:321 | `avg_per_month` is the integer nearest total/months, ties to even, and 0 with no months |
| Summary.AvgPerMonthUnique | update_data.py:198 | only one integer is nearest with ties to even, so the rounding is determined |
| Summary.PercentChange | csv_to_json_optimized.py:256 | the change times the previous count is 100·(current − previous); its sign is the sign of current − previous; it never drops below −100 |
| Summary.PeakMonth | csv_to_json_optimized.py:295 | the peak month is a counted month with the largest OOS count, and is absent exactly when no month is counted |
| Summary.PeakIsFirst | update_data.py:179 | the peak is the first month, in insertion order, that reaches the maximum |
| Summary.PeakCount | csv_to_json_optimized.py:323 | `peak_count` bounds every monthly OOS count and is reached, or is 0 with no months |
| Summary.SortedMonths | csv_to_json_optimized.py:276 | the chart months are the counted months, in ascending order |
| Summary.SortedMonthsStrict | update_data.py:153 | the chart months are strictly increasing in calendar order |
| Summary.SeriesSums | csv_to_json_optimized.py:283-288 | the OOS and all series over a list of months sum to that list's table total |
| Summary.MonthlySeriesAddUp | csv_to_json_optimized.py:283-288 | the chart series sum to `total_oos` and `total_all` |
| Summary.CsvMom | csv_to_json_optimized.py:299-310 | with three or more months, the change from the third-to-last to the second-to-last month, as a percentage of the earlier one; with two, from the first to the second; 0 with fewer months or a zero base; never below −100 |
| Summary.ApiMom | update_data.py:183-188 | the change from the second-to-last to the last month, as a percentage of the earlier one; 0 with fewer than two months or a zero base; never below −100 |
| Summary.CsvMomSkipsLatest | csv_to_json_optimized.py:299-303 | with three or more months the local-export build compares the two months before the latest, as the API build does without the latest |
| Summary.CsvMomIgnoresLatest | csv_to_json_optimized.py:299-303 | with three or more months the latest month's count does not affect the local-export change |
| Summary.TopStateNames | csv_to_json_optimized.py:291 | at most ten counted states, most OOS first; no state left out has more OOS than one listed; ties keep first-counted order |
| Summary.TopStates | csv_to_json_optimized.py:330-337 | each `states` entry carries its state's OOS and total counts |
| Summary.StateCountIsSetSize | csv_to_json_optimized.py:350 | `state_count` is the number of states with at least one OOS violation |
| Summary.StateCountOfEvents | update_data.py:216 | `state_count` is the number of distinct states among the OOS events |
| Summary.StateEntries | csv_to_json_optimized.py:344-345 | the pairs the comprehension visits: for each chart month in which the state has a bucket, in order, that bucket under the month's label, and no others |
| Summary.KeyedByLabelSpec | csv_to_json_optimized.py:339-346 | the label-keyed dict has one entry per label, and it is the last entry with that label |
| Summary.KeyedByLabelDistinct | csv_to_json_optimized.py:339-346 | when the labels are distinct, the dict holds every entry unchanged and in order |
| Summary.KeyedByLabelCollision | csv_to_json_optimized.py:339-346 | two entries labelled `Jan 25` leave one, holding the later counts |
| Summary.StateBreakdown | csv_to_json_optimized.py:338-347 | a state's breakdown has distinct labels; each entry is the state's bucket in one counted month; each month the state was counted in has its label there |
| Summary.CenturyLabelsIdentify | csv_to_json_optimized.py:284-285 | months within one century from 2025 have distinct chart labels |
| Summary.StateMonthlyAddsUp | csv_to_json_optimized.py:338-347 | when no two counted months share a chart label, each state's breakdown adds up to that state's totals |
| Movers.ChangeOf | csv_to_json_optimized.py:250-256 | a mover's change uses its OOS counts in the two months (0 when absent), and is positive or negative as the count rose or fell |
| Movers.Candidates | csv_to_json_optimized.py:248-262 | the candidates are the changes of the listed states whose previous count reaches the threshold |
| Movers.CsvMoversRanked | csv_to_json_optimized.py:241-269 | the local-export `increases` are the three largest changes, largest first; `decreases` are the three smallest, smallest first, or none with fewer than three candidates |
| Movers.CsvMoversOverlap | csv_to_json_optimized.py:266-269 | with three to five candidates one state appears in both lists |
| Movers.ApiMoversAsWrittenDrops | update_data.py:261-262 | as written, the API `decreases` are the negative changes closest to zero |
| Movers.ApiMoversRanked | update_data.py:236-267 | corrected, the API `increases` are the three largest rises and `decreases` the three largest drops, with none left out that changed more |
| Movers.ApiDropsMissLargest | update_data.py:258-262 | on four drops, the code as written leaves the 90% drop out |
| Movers.ApiDropsCorrected | update_data.py:258-262 | on the same four drops, the corrected list starts with the 90% drop |
| CsvPipeline.ElpCodeIgnoresPaddingAndCase | csv_to_json_optimized.py:55-65 | padding around either code and the case of the section do not change the ELP test |
| CsvPipeline.ElpCodeMatches | csv_to_json_optimized.py:60-65 | section `11B2`, `11b2-z` and `11(B)(2)` of part 391 are ELP |
| CsvPipeline.ElpCodeRejects | csv_to_json_optimized.py:60-65 | section `11B3`, part `392` and a missing part are not ELP |
| CsvPipeline.OosIndicatorIgnoresPaddingAndCase | csv_to_json_optimized.py:81-82 | padding and case do not change the OOS indicator test |
| CsvPipeline.OosIndicatorAccepts | csv_to_json_optimized.py:82 | `yes`, `True`, `y` and `1` mark a violation OOS |
| CsvPipeline.OosIndicatorRejects | csv_to_json_optimized.py:82 | an empty indicator, `N` and `no` do not |
| CsvPipeline.MissingIndicatorIsNotOos | csv_to_json_optimized.py:81-82 | a row with neither indicator column is not OOS |
| CsvPipeline.RecentDateReadsCompactDate | csv_to_json_optimized.py:70-77 | a `YYYYMMDD` change date, with or without a time after a space, passes exactly when its year is 2025 or later |
| CsvPipeline.LastWinsSpec | csv_to_json_optimized.py:84-86 | the map holds exactly the ids of accepted rows, each with the flag of its last accepted row |
| CsvPipeline.LastWinsEmpty | csv_to_json_optimized.py:366-368 | the map is empty exactly when no row is accepted |
| CsvPipeline.LoadViolations | csv_to_json_optimized.py:78-86 | no inspection is keyed by an empty id |
| CsvPipeline.RejectedRowIgnored | csv_to_json_optimized.py:60-84 | a row that is not ELP, too old, or without an id leaves the map unchanged |
| CsvPipeline.LaterRowWins | csv_to_json_optimized.py:84-86 | of two accepted rows of one inspection, the later decides its flag |
| CsvPipeline.Classify | csv_to_json_optimized.py:131-192 | a counted inspection row is in the map, has a state, and falls in a real month of 2025 or later |
| CsvPipeline.ClassifyCounts | csv_to_json_optimized.py:131-192 | a row counts exactly when its id is in the map, it has a state, and one encoding reads its stripped date as a date in 2025 or later; it counts under that month, its state and its flag |
| CsvPipeline.ClassifyReadsEveryEncoding | csv_to_json_optimized.py:149-189 | a matched row dated in 2025 or later in any of the four encodings counts under that date's month |
| CsvPipeline.Events | csv_to_json_optimized.py:126-204 | every counted event falls in a real month of 2025 or later |
| CsvPipeline.GenerateJson | csv_to_json_optimized.py:271-354 | the chart series are as long as the month list; at most ten states are listed; one monthly breakdown per state; the series add up to the totals |
| CsvPipeline.CsvCounts | csv_to_json_optimized.py:364-378 | a run that goes on has counted at least one inspection, and its tables add up |
| CsvPipeline.Run | csv_to_json_optimized.py:356-388 | every report the script writes has monthly series that add up to its totals |
| CsvPipeline.CsvCountsOutcome | csv_to_json_optimized.py:364-378 | the script stops for no ELP violations exactly when no violation row is accepted, and for no matches exactly when none of the inspection rows counts; otherwise the totals count the counted rows and their OOS flags |
| ApiPipeline.IsElpTextIsSubstringSearch | update_data.py:55-61 | a record matches exactly when a code occurs in its code, or `english` or `language` occurs in its lower-cased description |
| ApiPipeline.IsElpTextMatches | update_data.py:59-60 | codes match anywhere in the code field; the two words match in any case |
| ApiPipeline.IsElpTextRejects | update_data.py:59-60 | codes match case-sensitively; an unrelated record does not match |
| ApiPipeline.KeepElp | update_data.py:53-61 | every kept record matches and comes from the page |
| ApiPipeline.KeepElpPagewise | update_data.py:81-86 | filtering page by page and concatenating the results filters the whole result set |
| ApiPipeline.ApiClassify | update_data.py:117-133 | a counted record has a non-empty `inspection_date` and a real month |
| ApiPipeline.ApiClassifyReadsTimestamps | update_data.py:120-133 | a record stamped `YYYY-MM-DD` with an optional `T...` time counts under that month |
| ApiPipeline.OosIsExact | update_data.py:133 | only `Y` and `1` exactly mark OOS |
| ApiPipeline.ApiEvents | update_data.py:117-146 | every counted event falls in a real month |
| ApiPipeline.ApiSummary | update_data.py:152-217 | the chart series are as long as the month list, at most ten states are listed, and the series add up to the totals; the movers are computed as written |
| ApiPipeline.ApiTablesCount | update_data.py:117-146 | the tables add up, and `total_all` and `total_oos` count the records with a readable date and their OOS flags |
| ApiPipeline.ProcessViolations | update_data.py:97-223 | it raises exactly when a counted month has a year before 1000; otherwise `total_all` and `total_oos` count the records with a readable date and their OOS flags, and the monthly series add up to them |

## Left out

- File and HTTP I/O, `csv.DictReader` parsing, pagination requests, progress printing, `json.dump` and `sys.exit` are not modelled. The rows and records are inputs, and the exits are `CsvError` values.
- The `total_all < 40000` prompt in the local-export `main` is left out. It reads the terminal, and on `y` the run goes on unchanged.
- `last_updated` (`datetime.now()`), `data_source` and the API build's sample-data fallback are left out. The first is a clock reading and the other two are constants.
- The API request's date filter (`inspection_date >= 2025-06-25`) is applied by the server and is not modelled. The API build counts every record it receives.
- `round(x, 1)` on `oos_rate`, `mom_change` and each mover's change is left out. The model keeps exact values, so the movers are ranked on exact rather than rounded changes; two changes that round to the same value may be ordered or selected differently: the code keeps a rounded tie in state order, which can change which states fall inside a slice. The API build also filters on the rounded sign (`update_data.py:261-262`). A change strictly between −0.05 and 0.05 rounds to `0.0` and is in neither API list, but the model puts it in `increases` or `decreases`. Such a change needs a previous count above 2000.
- Floating-point division is modelled as exact division.
- ApiPipeline.ProcessViolations: on CPython releases with the gh-120713 change, `%Y` is zero-padded and a year before 1000 reads back. There the script returns a report, but the model still fails with `MonthTextUnreadable`. The model follows the unpadded C-library behaviour.
- The API movers read `monthly_data[current_month]` from nested `defaultdict`s, which inserts empty buckets as a side effect. The model does not model that insertion: the tables are already final when the movers are computed, and the report reads nothing from them afterwards.
- `datetime.fromisoformat` leniency is not modelled: a time after a separator other than `T`, and the week-date forms. The ISO reading accepts exactly `YYYY-MM-DD`.
- Unicode case mapping and Unicode digits are not modelled. `str.upper` and `str.lower` act on ASCII letters only, and `isdigit` accepts ASCII digits only.
- Exceptions on non-string JSON values are not modelled, nor is the local-export row loop's catch-all `except`. Every field is text, so these branches never run in the model.
- CsvPipeline.GenerateJson: its contract states lengths and sums only. The meaning of each field is stated by the function that computes it (`Rate`, `AvgPerMonth`, `PeakMonth`, `PeakCount`, `TopStateNames`, `StateBreakdown`, `CsvMoversRanked`, `StateCountIsSetSize`).
- ApiPipeline.ApiSummary: same as `GenerateJson`, with `ApiMoversAsWrittenDrops` for the movers.
- Summary.StateMonthlyAddsUp: it requires that no two counted months share a chart label. Two counted months a century apart, such as 2025-01 and 2125-01, share `Jan 25`. The dict then keeps only the later bucket, and the breakdown no longer adds up (`KeyedByLabelCollision`).
- CsvPipeline.Run: its contract states only that the series add up. Why a run stops is stated by `CsvCountsOutcome`.
- ApiPipeline.ApiEvents: its contract states only valid months. The counts are stated by `ApiTablesCount`.

## Findings

| source | as written | input that shows it | evidently intended | confidence | as-written member | corrected member |
|---|---|---|---|---|---|---|
| update_data.py:262 | `decreases` takes the first three negative changes of the list sorted largest first, so it lists the drops closest to zero | changes −10, −20, −30 and −90 (`Movers.FourDrops`): `decreases` is −10, −20, −30 and the 90% drop is left out | the three largest drops, largest first, as the local-export build computes them: −90, −30, −20 | high; not executed | Movers.ApiDropsMissLargest | Movers.ApiMoversRanked |

`Movers.ApiMoversAsWritten` models the code as written.
`Movers.ApiDropsMissLargest` exhibits the discrepancy on that input, and
`Movers.ApiMoversAsWrittenDrops` states it for every input.
`Movers.ApiMovers` is the corrected definition, and `Movers.ApiMoversRanked`
proves the intended property of it. `Movers.ApiDropsCorrected` shows it on
the same input. `ApiPipeline.ApiSummary` uses `Movers.ApiMoversAsWritten`,
as the code does.
