# nats-metrics.js, modelled in Dafny

`index.js` of nats-metrics.js reads CSV files of benchmark results. Each line
after the header is one measurement: `metric,count,millis,date,version`, and
for the request-reply metric `rr` an optional sixth field holding a latency.
The script groups the measurements by metric and then by version. It reduces
each group to one summary (total count and millis, min and max millis, the
`samples` figure and an average latency). Per metric, it ranks the summaries
by message rate and prints them as a table whose `rate` column is the floored
rate with thousands separators followed by ` msgs/sec`.

The model follows that pipeline, one module per stage:

- `Wrappers` holds `Option`. `None` stands for JavaScript's `NaN`, both for a
  number `parseInt` could not read and for arithmetic on such a number. In
  the `lat` fields of samples and summaries, `None` is an absent field.
- `Strings` models `String.prototype.split` on one character and `join`. It
  also models `parseInt(s, 10)`: leading white space, a sign, then the
  longest run of digits. Last come the decimal `toString` of an integer and
  the round trips between these.
- `Samples` turns one line into one `Sample` (the `lines.forEach` body,
  lines 48-66) and a file's text into the samples of its lines.
- `Store` models `tables`, the metric → version → samples map. It defines
  `Insert`, which is lines 69-78 for one sample. It also covers the grouping
  of a whole sequence of samples and the total number of samples stored.
- `Aggregate` models the `samples.reduce` fold of `loaded`. `SummaryOf`
  states each field of a summary by its own definition. `Reduce` is a method
  with a loop that mirrors the accumulator and is proved equal to it.
- `Report` covers the rest of the printed row:
  - the exact rate `count*1000/millis` and its floor;
  - the regular expression `/\B(?=(\d{3})+(?!\d))/g`, modelled position by
    position;
  - the sort comparator;
  - a ranking sort working in place on an `array`;
  - the row that keeps a summary's remaining fields.
- `Metrics` is a class with the script's two globals, `tables` and
  `summaries`, as fields. Its methods are:
  - `Add`, lines 69-78;
  - `Ingest`, lines 45-79 for one file's text;
  - `Summarize` and `SummarizeMetric`, lines 89-126;
  - `Print`, lines 140-148.

  Each method is proved against the module's specification functions. Those
  functions carry the whole-pipeline lemmas: one summary per group, counts
  preserved, and ranked rows.

Parameters stand in for the host's behaviour, which the model does not see:
- `parseFloat` is a parameter `string -> real`.
- The `Object.keys` orders of metrics and versions are parameters. Each
  version order lists its metric's versions once each, and so does the
  metric order given to `Print`. `Summarize` accepts a metric order that
  lists metrics at most once and may leave some out. The pass over all keys
  is the case `Metrics.OneSummaryPerGroup` states, which requires the metric
  order to list every metric.

## Model

| member | source | states |
|---|---|---|
| Strings.Split | index.js:45-54 | `split` on one character: the pieces between the separators, at least one, none containing the separator. Its meaning is stated in JoinSplit, SplitJoin, SplitPrefix and SplitCount |
| Strings.JoinSplit | index.js:54 | joining the pieces of `s.split(sep)` with `sep` gives `s` back |
| Strings.SplitJoin | index.js:54 | splitting a join of separator-free pieces gives exactly those pieces back |
| Strings.SplitPrefix | index.js:54 | a split of `head + sep + tail` is `head` followed by the split of `tail` |
| Strings.ParseInt | index.js:57-58 | `parseInt(s, 10)`: skip leading white space, take an optional sign and the longest run of digits, NaN (`None`) when there are none. Its meaning is stated in ParseIntToString, ParseIntSkipsSpace and ParseIntUndefined |
| Strings.TrimStart | index.js:57-58 | the white space `parseInt` skips is a prefix of spaces, and what remains does not start with one |
| Strings.DigitPrefix | index.js:57-58 | the digits `parseInt` reads are the longest run of digits at the front |
| Strings.Digits | index.js:132 | `toString` of a natural is a non-empty digit string, with no leading zero, whose decimal value is the number |
| Strings.ParseIntToString | index.js:57-58 | `parseInt` reads back any integer's decimal text, whatever follows it |
| Strings.ParseIntSkipsSpace | index.js:57-58 | `parseInt` ignores leading white space |
| Strings.ParseIntUndefined | index.js:57-58 | a missing field, seen as "undefined", reads as NaN |
| Samples.ParseLine | index.js:54-66 | one line's sample: fields 0-4 as metric, count, millis, date and version, and the `rr` latency from field 5. Its meaning is stated in RecordReadsBack and LatencyPresence |
| Samples.SplitCount | index.js:54 | a line splits into one more field than it has commas |
| Samples.LatencyPresence | index.js:64-66 | a sample has a latency exactly when its first field is `rr` and its line has exactly five commas |
| Samples.RecordReadsBack | index.js:54-61 | a record written as five comma-separated fields parses back to that record, with no latency |
| Samples.FileSamplesAppend | index.js:45-52 | the header line adds no sample, and any later line adds exactly one at the end unless it is empty |
| Samples.FileSamples | index.js:45-52 | the samples of a file's lines: none for the header or an empty line, one for every other line, in line order. Its meaning is stated in FileSamplesAppend, HeaderIgnored and EmptyLineIgnored |
| Samples.HeaderIgnored | index.js:49-52 | the first line's content does not matter |
| Samples.EmptyLineIgnored | index.js:49-52 | an empty line adds nothing wherever it appears |
| Store.Insert | index.js:69-78 | the sample is appended to its own group. The metric and version entries are created if missing. Every other group and every other metric is unchanged |
| Store.InsertWellFormed | index.js:69-78 | the store stays well formed: no empty metric, and each group holds only samples of its metric and version |
| Store.InsertTotal | index.js:78 | storing a sample raises the total number of stored samples by exactly one |
| Store.InsertAll | index.js:48-78 | the store after `Insert` of each sample in turn. Its meaning is stated in InsertAllGroup, InsertAllTotal, InsertAllWellFormed and InsertAllAppend |
| Store.InsertAllAppend | index.js:30-32 | storing one file's samples and then another's is storing all of them in that order, as the files filling one `tables` do |
| Store.InsertAllGroup | index.js:48-78 | after storing a sequence of samples, each group is its old contents followed by the samples of that group, in input order |
| Store.InsertAllTotal | index.js:48-78 | storing n samples raises the total by n |
| Store.InsertAllWellFormed | index.js:48-78 | storing any sequence of samples keeps the store well formed |
| Aggregate.SummaryOf | index.js:94-118 | one group's summary, each field by its own definition: the `count` and `millis` totals, `max`, `min`, `samples` and the average latency. Its meaning is stated in Reduce and the field lemmas below |
| Aggregate.Reduce | index.js:94-118 | the accumulator loop computes `SummaryOf` of the group: every field of the summary |
| Aggregate.SumIsNaN | index.js:102-103 | a total is NaN exactly when one of the group's numbers is |
| Aggregate.SumAppend | index.js:102-103 | the total of two groups joined is the sum of their totals |
| Aggregate.SumPermutation | index.js:102-103 | the totals do not depend on the order of the samples |
| Aggregate.PeakIsMaximum | index.js:104 | with no NaN, `max` is at least every millis and at least 0, and is 0 or one of the millis |
| Aggregate.PeakIsNaN | index.js:104 | `max` is NaN exactly when some millis is |
| Aggregate.PeakPermutation | index.js:104 | `max` does not depend on the order of the samples |
| Aggregate.LeastIsMinimum | index.js:96-105 | in a non-empty group without NaN, `min` is one of the millis and at most each of them. Seeding from the first sample means 0 is never taken in |
| Aggregate.LeastIsNaN | index.js:96-105 | `min` is NaN exactly when some millis is |
| Aggregate.LeastPermutation | index.js:96-105 | `min` does not depend on the order of the samples |
| Aggregate.FirstNonzeroIsFirst | index.js:99-101 | `samples` is the count of the first sample whose count is not 0, or 0 when every count is 0 |
| Aggregate.SamplesIsFirstCount | index.js:99-101 | for two samples, `samples` is the first count (1000), not the number of samples (2) |
| Aggregate.LatSumOfNoLatency | index.js:107-118 | a group with no latencies has latency sum 0 and gets no average |
| Aggregate.AverageLatPresence | index.js:107-118 | with non-negative latencies, the sum is never negative and an average is present exactly when some sample has a non-zero latency |
| Aggregate.AverageOverWholeGroup | index.js:115 | when a group has an average, one more sample without latency keeps the sum and joins the denominator: the new average times n+1 equals the old times n |
| Report.FormatRate | index.js:131-133 | `rate(s)`: the floored rate's decimal text, with commas from the regular expression, then ` msgs/sec`. Its meaning is stated in RateReadsBack and RateHasComma |
| Report.FlooredRate | index.js:132 | the floored rate is the greatest integer not above `count*1000/millis` |
| Report.Compare | index.js:140-142 | the comparator: `b`'s rate minus `a`'s, as exact reals. Its meaning is stated in CompareByCrossMultiplication, and it is used by SortByRate |
| Report.CompareByCrossMultiplication | index.js:140-142 | the comparator is positive, or zero, exactly when the cross products of count and millis say the second rate is higher, or equal |
| Report.ReplaceOnNumber | index.js:132 | on an optional minus sign followed by digits, the match-by-match replacement of the regular expression puts a comma exactly before the digit positions that are not first and have a multiple of three digits after them |
| Report.GroupFromIsGrouped | index.js:132 | inserting those commas left to right gives the digits in groups of three counted from the right |
| Report.CommasOnInteger | index.js:132 | on an integer's text the replacement puts a comma before each complete group of three digits from the right. A minus sign stays in front of the grouped digits |
| Report.GroupedHasComma | index.js:132 | a grouped digit string has a comma exactly when it is longer than three digits |
| Report.UncommaGrouped | index.js:132 | removing the commas from a grouped digit string gives the digits back |
| Report.UncommaInteger | index.js:132 | removing the commas from an integer's formatted text gives its plain text back |
| Report.RateReadsBack | index.js:131-133 | the rate text ends in ` msgs/sec`, and without the suffix and the commas `parseInt` reads it as the floored rate |
| Report.RateHasComma | index.js:132 | the rate text has a comma exactly when the floored rate has four or more digits |
| Report.SortByRate | index.js:140-142 | after the sort the array is a permutation of what it held before and its rates never increase |
| Report.InsertAt | index.js:140-142 | one insertion step extends the ranked prefix by one element. The first i+1 elements keep their multiset, and every element after them stays in place |
| Report.ToRow | index.js:143-148 | one row: the summary with `rate` set to `rate(s)` and without `count`, `millis` and `metric`. Its meaning is stated in ShownRatesDescend |
| Metrics.EnumerationSize | index.js:89-91 | a duplicate-free listing of the keys visits exactly as many keys as there are |
| Metrics.SummarizeAll | index.js:89-126 | the summaries after visiting the metrics in the given order, each metric's versions in theirs, pushing one summary per group. Its meaning is stated in SummarizeAllAt and OneSummaryPerGroup |
| Metrics.MetricSummaryAt | index.js:91-124 | the k-th summary pushed for a metric is the summary of its k-th version's group |
| Metrics.SummarizeAllAt | index.js:89-126 | after the pass, a visited metric's list is its old list followed by one summary per version. An unvisited metric is untouched |
| Metrics.OneSummaryPerGroup | index.js:89-126 | from empty summaries, the pass yields lists for exactly the metrics of the store. Each list has one summary per group, each is that group's summary, and no version appears twice |
| Metrics.EnumeratedGroupsSummarized | index.js:90-124 | one metric's list holds every group's summary and nothing else |
| Metrics.MetricCountsAgree | index.js:102-124 | a metric's summaries count, between them, exactly the messages its stored groups count |
| Metrics.SummariesCountReadSamples | index.js:48-124 | for a store built from the samples read, a metric's summaries count, between them, exactly the messages of the samples of that metric that were read |
| Metrics.ShownRatesDescend | index.js:143-148 | the rows of a ranked list keep each summary's version, max, min, samples and latency, each shows its summary's floored rate, and the shown rates never increase |
| Metrics.Metrics.constructor | index.js:7-8 | both globals start empty |
| Metrics.Metrics.Add | index.js:69-78 | `tables` becomes `Insert` of the sample, a well-formed store stays well formed, and `summaries` is unchanged |
| Metrics.Metrics.Ingest | index.js:45-79 | `tables` becomes the old store with the samples of the file's lines stored in line order, a well-formed store stays well formed, and `summaries` is unchanged |
| Metrics.Metrics.Summarize | index.js:89-126 | `summaries` becomes the summary pass over the given metric and version orders, and `tables` is unchanged |
| Metrics.Metrics.SummarizeMetric | index.js:91-125 | one metric's versions push their summaries onto its list in version order |
| Metrics.Metrics.Print | index.js:137-148 | for an order listing every metric once, each metric's summaries are sorted in place into a permutation ranked by rate, `tables` and the set of metrics are unchanged, and the i-th row list returned is the rows of the i-th metric's sorted list |

## Left out

- File discovery and reading (index.js:24-44): `readdirSync`, the `.csv` filter, `existsSync` and the `readFile` callback with its `throw`. This is I/O. `Ingest` takes the file's text, already decoded from its `Buffer`.
- The completion counter `processed`/`notFound` (index.js:9, 15, 86-87). This is asynchronous orchestration. No member of the model plays the part of that counter. A caller is expected to call `Ingest` once per file, then `Summarize`, then `Print`. The model proves each step separately: `Store.InsertAllAppend` joins the files' samples into one store, `Metrics.OneSummaryPerGroup` covers the summary pass, and `Metrics.ShownRatesDescend` covers the printed rows.
- Command-line arguments (index.js:11-14).
- Console output (index.js:40, 149): `console.log` of file names and `console.table`. `Print` returns the rows instead of printing them.
- The title lookup `metricTitles[metric].toUpperCase()` (index.js:17-22, 138). It is configuration, not logic. It throws for any metric without a title, `rr` among them, so `print` stops at the first such metric, and that metric and the ones after it are never sorted or printed. The model gives no title, and its `Print` goes on where the script stops: it ranks and returns rows for every metric.
- `Date.parse` (index.js:59). It is a host function, and a sample keeps the date's text, which nothing downstream reads.
- `parseFloat` (index.js:65). It is a parameter. A `NaN` from it is falsy and acts as 0.0 wherever the latency is used, so the model gives it no value of its own. Float rounding of the latency sum and average is exact `real` arithmetic here.
- Numbers beyond 2^53 and the exponent notation `toString` uses from 1e21 on. Counts, millis and rates are unbounded integers, or exact reals for the rate.
- JavaScript's negative zero. `parseInt("-0")` is `-0`, and the model reads it as the integer 0. In the script, `-0` can reach a summary in two ways (index.js:96-105). A count of "-0" on a group's last sample, after counts that are all 0, stays in `samples`. A first millis of "-0" stays in `min` unless a smaller millis follows. The sums and `max` start from `+0` and never become `-0`. The model does not tell `-0` from 0.
- Report.SortByRate, Report.InsertAt, Report.RateOf, Report.FlooredRate, Report.FormatRate, Report.Compare, Report.ToRow, Metrics.Rows, Metrics.Metrics.Print: they require `Rated`, meaning a count and positive millis. They do not model the `NaN` or `Infinity` rates of a malformed field or `millis == 0`, which the comparator would order inconsistently.
- Aggregate.AverageLatPresence: it requires latencies that are not negative. Otherwise a positive and a negative latency could cancel, and the group would get no average although it has truthy latencies.
- Report.SortByRate: it does not promise stability. The model ranks by rate and keeps a permutation, nothing about the order of equal rates.
- The per-sample `e.rate` (index.js:62), which nothing reads, and `summary.rate` (index.js:113), which `print` overwrites before it is shown.
- `Object.keys` order (index.js:89-90, 137), which puts integer-like keys first. The orders are parameters. Keys inherited from `Object.prototype` (such as `constructor`), which the truthiness tests on lines 69 and 75 would mistake for entries, are not modelled either.
- The `versions` wrapper object of `tables[metric]` (index.js:70-72) is dropped. A metric maps directly to its versions.
- Metrics.Metrics.Print: rows are values of a separate `Row` type built from the sorted summaries. It does not delete `count`, `millis` and `metric` from the stored summary objects in place, so `summaries` keeps them.

## Notes on the design

- The latency average is present when the latency sum is non-zero, which is what the code tests (index.js:114). One might expect an average whenever some sample carried a latency, but the code tests the sum instead: a group whose only latencies are `0` (or `NaN`) gets no average. `Aggregate.AverageLatPresence` states the code's condition.
- `samples` is the first non-zero count, not the number of samples (index.js:99-101). `Aggregate.SamplesIsFirstCount` exhibits the difference.
