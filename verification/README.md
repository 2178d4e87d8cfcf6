# BigQuery remote storage for Prometheus: the translation engine

This project models the part of the Prometheus BigQuery remote-storage adapter
that sits between a decoded remote-write or remote-read request and the
BigQuery API (`bigquerydb/client.go`). It proves properties of that model in
Dafny. There are four pieces.

- **Row codec** (`rowcodec.dfy`, with `labels.dfy` and `tagsjson.dfy`).
  - A series' label list becomes a label map. When a name repeats, the last value wins.
  - The labels other than `__name__` are written to the `tags` column as a JSON object of strings. The keys are in ascending order and escaped the way Go's `encoding/json` escapes them.
  - A sample becomes an `Item` only if its value is finite. Its timestamp is the sample's milliseconds divided by 1000, truncated toward zero as `model.Time.Unix()` does.
- **Batch writer** (`batchwriter.dfy`).
  - `Write` collects the items of all series, in series order and then sample order, into one batch.
  - It hands the batch to one `Put`, which is a parameter of the model.
  - It counts the ignored (non-finite) samples and the fetched samples.
- **Matcher translator** (`sqltext.dfy`, `translator.dfy`, `commandtext.dfy`).
  - `buildCommand` turns every matcher into a condition and appends the two inclusive timestamp bounds. It joins them with ` AND ` inside `SELECT … WHERE … ORDER BY timestamp`.
  - `__name__` matchers compare the `metricname` column. Other labels compare `IFNULL(JSON_EXTRACT(tags, '$.<name>'), '""')`. An unknown matcher type is an error.
  - Conditions are built as a small syntax tree and printed with the source's format strings (`AsWritten`). A second quoting, `Escaped`, puts every value through a complete escaper.
  - A reader for the generated text follows BigQuery's literal lexer: quoted `'…'` with backslash escapes, and raw `r'…'`. It says what a command means. This is how the round trip and the injection findings are stated.
- **Result merger** (`merger.dfy`).
  - `rowToSample` decodes a row's `tags`, adds `__name__`, and sorts the labels by name. Tags that are not a JSON object of strings are an error.
  - `mergeResult` folds rows into series keyed by label set. A series starts at the first row of its label set, and later rows append samples.
  - `Read` shares one set of series across all queries and returns them as a single query result. Any failure aborts the read.

`roundtrip.dfy` models the scenario of the source's two tests, in which a
written series is read back unchanged. The warehouse is a parameter
(`string -> Answer`). In that file it stores each item's timestamp as whole
seconds and returns `UNIX_MILLIS` of it.

`wrappers.dfy` holds `Option` and `Result`, and `text.dfy` holds string
helpers:
- String order by code point, which equals Go's byte-wise `<` on valid UTF-8.
- `strings.Join`.
- The `%v` rendering of integers and a reader for it.

## Model

| member | source | states |
|---|---|---|
| BatchWriter.MetricOf | bigquerydb/client.go:172-175 | The loop builds exactly the map of the label list, in which a repeated name keeps its last value. |
| RowCodec.TagsFromMetric | bigquerydb/client.go:149-158 | The `tags` text decodes to the label map minus `__name__`. It is `{}` exactly when there is no label other than `__name__`. |
| RowCodec.TagsMembers | bigquerydb/client.go:149-158 | The JSON members are in strictly ascending key order, none is `__name__`, and together they carry exactly the other labels' values. |
| RowCodec.TagsDependOnlyOnMetric | bigquerydb/client.go:172-177 | Two label lists give the same `tags` text if and only if they give the same map without `__name__`, whatever the order or repetitions of the labels. |
| RowCodec.MetricNameOfLabels | bigquerydb/client.go:172-189 | The `metricname` column is the value of the last `__name__` label of the received list, and the empty string when the list has none. |
| RowCodec.UnixSeconds | bigquerydb/client.go:190 | Seconds are milliseconds divided by 1000 and truncated toward zero, so the remainder has the sign of the input and is below 1000. |
| RowCodec.UnixSecondsExact | bigquerydb/client.go:190 | A timestamp on a whole second survives the conversion to seconds and back to milliseconds. |
| RowCodec.EncodeSample | bigquerydb/client.go:179-192 | A sample yields an item if and only if its value is finite. |
| BatchWriter.FiniteSamplesSpec | bigquerydb/client.go:179-185 | The kept samples are exactly the finite ones. Kept plus dropped equals received. |
| BatchWriter.ItemsOfFinite | bigquerydb/client.go:179-193 | The k-th item of a series is built from its k-th finite sample, with the series' metric name and tags, the sample's value, and its timestamp in seconds. |
| BatchWriter.BatchCount | bigquerydb/client.go:168-193 | Batch items plus ignored samples equal fetched samples. |
| BatchWriter.BatchAppend | bigquerydb/client.go:166-194 | The batch of a concatenation of series lists is the concatenation of their batches: series order, then sample order. |
| BatchWriter.SampleLoop | bigquerydb/client.go:179-193 | The sample loop appends exactly the series' items and skips exactly its non-finite samples. |
| BatchWriter.Write | bigquerydb/client.go:161-211 | The batch is all series' items in order. `Put` is called once, with the whole batch, and its error is the result. The counter increments are the ignored and fetched counts, which differ by the batch size. |
| SqlText.Escape | bigquerydb/client.go:379-385 | The output is longer than the input by the number of occurrences of the escaped character. |
| SqlText.UnescapeEscape | bigquerydb/client.go:379-385 | Removing the inserted backslashes restores the input, so nothing else changes. |
| SqlText.EscapeGuardsEvery | bigquerydb/client.go:379-385 | Every occurrence of the escaped character in the output has a backslash in front of it. |
| SqlText.EscapeSingleQuotesAgrees | bigquerydb/client.go:379-381 | On values without backslashes or line breaks, `escapeSingleQuotes` coincides with the complete escaper. |
| SqlText.ReadEscapeLiteral | bigquerydb/client.go:283 | Any value written with the complete escaper between single quotes reads back as itself, whatever follows the literal. |
| SqlText.EscapeSlashesRawSafe | bigquerydb/client.go:383-385 | A value without quotes, backslashes or line breaks, with its slashes escaped, can sit inside `r'…'` and is read back as written. |
| SqlText.TrailingBackslashEscapesQuote | bigquerydb/client.go:379-381 | `escapeSingleQuotes` leaves the value `a\` unchanged, and its backslash then escapes the closing quote, so the literal does not end there. The complete escaper reads it back. |
| SqlText.QuoteEndsRawLiteral | bigquerydb/client.go:383-385 | `escapeSlashes` leaves `a'b` unchanged, and inside `r'…'` the raw literal then ends after `a`. |
| Translator.Translate | bigquerydb/client.go:278-308 | A matcher fails to translate exactly when its type is none of EQ, NEQ, RE, NRE, and the error names that type. |
| Translator.AsWrittenText | bigquerydb/client.go:279-305 | As written, every matcher of a known type prints exactly its format string's text. `__name__` EQ and NEQ give `metricname = '…'` and `metricname != '…'` with `escapeSingleQuotes`. RE and NRE give `REGEXP_CONTAINS(metricname, r'…')` and its `not` form with `escapeSlashes`. A label gives `IFNULL(JSON_EXTRACT(tags, '$.<name>'), '""')` compared with, or matched against, the value in JSON double quotes, with the name and value spliced in unescaped. |
| Translator.Conds | bigquerydb/client.go:277-309 | The conditions succeed exactly when every matcher type is known. They are in matcher order, one per matcher. Otherwise the error is that of the first unknown matcher. |
| Translator.BuildCommand | bigquerydb/client.go:276-317 | A command is produced exactly when every matcher type is known. Otherwise the error is that of the first unknown matcher. |
| Translator.BuildCommandText | bigquerydb/client.go:276-313 | As written, for every query whose matcher types are all known, the command is the `SELECT` head, each matcher's format-string text in matcher order, then the two `TIMESTAMP_MILLIS` bounds, joined by ` AND `, then `ORDER BY timestamp`. This holds whether or not the values are escaped enough. |
| Text.JoinConcat | bigquerydb/client.go:309-313 | `strings.Join` of two non-empty lists puts exactly one separator between their joins. So the WHERE clause is the matcher conditions, then ` AND `, then the two bounds. |
| Text.ParseIntToString | bigquerydb/client.go:310-311 | The `%v` text of any integer (`Text.IntToString`), read back, gives the integer when the next character is not a digit. |
| TagsJson.DecodeEncode | bigquerydb/client.go:156 | Decoding the encoding of any member list gives that list back. |
| TagsJson.EncodeEmpty | bigquerydb/client.go:156 | The encoding is `{}` exactly when there are no members. |
| TagsJson.EncodeObjectClean | bigquerydb/client.go:156 | As `json.Marshal` promises, the `tags` text holds no raw control character, no `<`, `>` or `&`, and no U+2028 or U+2029: every such character is written as an escape. |
| CommandText.ParseConditionText | bigquerydb/client.go:282-305 | A printed condition whose literals are well formed reads back as its meaning, and the reading stops at its end. |
| CommandText.ParseCommandText | bigquerydb/client.go:313 | The `SELECT … WHERE` head and `ORDER BY timestamp` tail are recognised, and what is read is the WHERE clause. |
| CommandText.TranslateMeaning | bigquerydb/client.go:279-308 | The condition printed for a matcher means what it should. For `__name__` it compares `metricname` with the value. For other labels it compares the JSON text at `$.<name>`, or `""` when absent, with the quoted value. This holds for corrected quoting always, and as written for values the source escapes enough. |
| CommandText.CommandRoundTrip | bigquerydb/client.go:276-317 | Reading back a generated command gives every matcher's intended condition, in matcher order, and the two bounds. |
| CommandText.IntendedsInjective | bigquerydb/client.go:277-309 | Under corrected quoting, different matcher lists have different intended conditions. |
| CommandText.EscapedInjective | bigquerydb/client.go:276-317 | Under corrected quoting, two queries that print the same command are equal. |
| CommandText.LabelValueInjection | bigquerydb/client.go:298-305 | As written, one label matcher whose value holds `"' AND …` prints the same command as two matchers, for any names and values. |
| Merger.RowToSample | bigquerydb/client.go:352-377 | A row fails exactly when its tags are not a JSON object of strings. Otherwise the sample is the row's timestamp and value, the label set is the tags with `__name__` set to the metric name, and the label list is sorted by name and builds that set. |
| Merger.RowLabels | bigquerydb/client.go:360-372 | The label list has one entry per tag plus the metric name, and a label is in it exactly when it is the metric-name label or a tag entry. |
| Merger.RowLabelsCanonical | bigquerydb/client.go:369-375 | When the tags carry no `__name__`, the label list is strictly sorted: the one canonical list of its label set. |
| Merger.DecodeRows | bigquerydb/client.go:324-337 | All rows decode exactly when every row is well formed, each to its own decoding. Otherwise the error is that of the first malformed row. |
| Merger.Find | bigquerydb/client.go:340 | The lookup finds a series of the given label set, and finds none exactly when no series has it. |
| Merger.MergeRowNew | bigquerydb/client.go:340-344 | A row of an unseen label set keeps the gathering invariant by starting a series with the row's labels. |
| Merger.MergeRowKnown | bigquerydb/client.go:345 | A row of a known label set keeps the gathering invariant by appending its sample to that series. |
| Merger.MergeRow | bigquerydb/client.go:339-345 | Adding one row to series of distinct label sets leaves the label sets distinct, as the fingerprint-keyed map keeps them. |
| Merger.MergeResultDecodes | bigquerydb/client.go:320-349 | `mergeResult` fails exactly when a row is malformed, with the first such row's error. Otherwise it is the fold of the decoded rows. |
| Merger.MergeResult | bigquerydb/client.go:320-349 | Merging a query's rows keeps at most one series per label set. |
| Merger.MergeResultAppend | bigquerydb/client.go:238-258 | Merging a query's rows into the series left by earlier queries equals merging all the rows at once, since the map is shared. |
| Merger.MergeGathers | bigquerydb/client.go:339-345 | The fold yields one series per distinct label set among the rows, holding all of that set's samples in row order and the label list of its first row. |
| Merger.ReadLoopGathered | bigquerydb/client.go:239-262 | The query loop succeeds exactly when every query yields rows and every row is well formed. It then equals one merge over all rows of all queries. |
| Merger.ReadLoopMeaning | bigquerydb/client.go:239-262 | Starting from no series, the loop's result gathers the rows of all queries as `MergeGathers` describes. |
| Merger.ReadLoop | bigquerydb/client.go:239-262 | The query loop keeps at most one series per label set across all queries, since they share one map. |
| Merger.SeriesOf | bigquerydb/client.go:264-271 | The response lists exactly the gathered series, one per label set. |
| Merger.Read | bigquerydb/client.go:237-273 | A read fails exactly when a query cannot be translated, the warehouse rejects one, or a row is malformed, and the error is that of the loop. Otherwise there is a single query result holding exactly the series gathered from all rows. |
| Labels.Canon | bigquerydb/client.go:156 | The canonical list is strictly sorted and builds the same map as the input. |
| Labels.CanonDeterminedByMap | bigquerydb/client.go:156 | Two label lists have the same canonical list exactly when they build the same map. |
| Labels.InsertByName | bigquerydb/client.go:374 | Sorted insertion keeps the list sorted, and the result is a permutation of the list plus the new label. |
| Labels.InsertByNameMap | bigquerydb/client.go:373-375 | The inserted label is the one the map keeps for its name. |
| Labels.SortedUnique | bigquerydb/client.go:374 | A label map has exactly one strictly sorted label list. |
| RoundTrip.NonFiniteBatch | bigquerydb/client.go:179-185 | A series of NaN and infinities adds no item and counts every sample as ignored. |
| RoundTrip.StoredRowReads | bigquerydb/client.go:352-377 | A stored item of a storable series reads back as the original sample, label set and label list. |
| RoundTrip.OneSeries | bigquerydb/client.go:339-345 | Rows that all carry one label set and label list become exactly one series with all the samples in order. |
| RoundTrip.WriteReadRoundTrip | bigquerydb/client_test.go:134-204 | The rows stored for a written storable series, read with any translatable query, merge into exactly that series: labels and samples unchanged. |
| RoundTrip.WriteTwice | bigquerydb/client_test.go:101-106 | Writing a series and then a series of NaN samples stores exactly the first series' batch. The ignored count adds up over both writes: the first series' non-finite samples plus every NaN sample. |
| RoundTrip.ReadStored | bigquerydb/client_test.go:108-130 | Reading from a warehouse that holds the batch of a storable series returns one result holding exactly that series. |
| RoundTrip.WriteThenRead | bigquerydb/client_test.go:44-130 | Write a finite series, write a NaN series, and read: every NaN sample is ignored, and the response is one result holding exactly the finite series. |

## Left out

- `main.go`: HTTP handlers, snappy and protobuf decoding, flag parsing, signal handling and the fan-out to writers. All of this is I/O and concurrency around the engine.
- `tracing/tracing.go` and `pkg/version`: wrappers over foreign libraries.
- `NewClient`, `Name`, `Describe`, `Collect` and `Item.Save` are left out: they are credential-file I/O and metric-collector wiring. Context timeouts, durations, logging and the printing of `PutMultiError` are also left out.
- The BigQuery calls.
  - The inserter's `Put` is a function parameter of `Write`.
  - The query is a function from command text to rows or a failure.
  - `RowIterator.Next` is a sequence of rows.
  - The case `iter == nil` is not modelled: the warehouse always answers with rows or a failure.
- SQL evaluation: the warehouse parameter decides which rows a command returns. The round-trip scenario uses a warehouse that returns the stored rows of one series for any command, instead of filtering them by the matchers.
- Regular-expression semantics: `REGEXP_CONTAINS` patterns are compared as text. The model does not evaluate them.
- Strings are sequences of Unicode characters, so Go strings holding invalid UTF-8 are not represented. On such bytes `json.Marshal` writes U+FFFD (bigquerydb/client.go:156), so the label would not read back. Go's `<` (bigquerydb/client.go:374) and the key sort of `json.Marshal` compare bytes, and the model's code-point order agrees with them only on valid UTF-8.
- TagsJson.EscapeChar: follows `encoding/json` from Go 1.22 on, which writes U+0008 and U+000C as `\b` and `\f`. Earlier versions write them as `\u0008` and `\u000c`.
- Floating point: a sample value is `Finite(real)`, `NaN`, `PosInf` or `NegInf`. No float64 rounding is modelled.
- `model.Metric.Fingerprint()`: series are keyed by the label map itself, so hash collisions are not modelled.
- Merger.Read: each query's answer is either all of its rows or one failure. The source streams rows and converts each one as it arrives (bigquerydb/client.go:324-337). So when a row with malformed tags comes before a failing `Next`, the source reports the row's error and the model reports `WarehouseError`.
- Merger.Read: the `sqlQueryCount` counter (bigquerydb/client.go:247) is not modelled; it only feeds the metrics collector.
- Merger.Read: the response lists series in the order their label sets were first seen. The source iterates a Go map, whose order is unspecified.
- Merger.RowToSample: Go's `sort.Slice` is not stable. The model sorts with a stable insertion, which differs only when the stored tags themselves carry `__name__`.
- Merger.RowToSample: a `tags` value that is not a JSON object of strings makes the source panic on a type assertion. The model returns the `MalformedTags` error instead. Column types are fixed by the `Row` datatype, so a row whose `metricname`, `timestamp` or `value` column has the wrong type (bigquerydb/client.go:371, 375-376) cannot be represented.
- TagsJson.DecodeObject: reads only JSON objects of strings, since no other shape can come from the writer. Numeric escapes in SQL literals (octal, `\x`, `\u`) are not read either, because neither escaper produces them.
- RoundTrip.WriteReadRoundTrip: needs at least one sample, timestamps on whole seconds, strictly sorted labels with a `__name__`, and strictly increasing times. A series with no samples stores no row, so nothing reads back. The stored column keeps only seconds, and the read returns rows in timestamp order and labels in sorted order. The source's tests meet all of these.

## Findings

| source | as written | input that shows it | evidently intended | confidence | as-written member | corrected member |
|---|---|---|---|---|---|---|
| bigquerydb/client.go:298-305 | A label matcher's name and value are spliced into the SQL text unescaped. | An EQ matcher on label `a` whose value is `b"' AND IFNULL(JSON_EXTRACT(tags, '$.c'), '""') = '"d` prints the same command as the two matchers `a = b` and `c = d`. | Each matcher's condition stays inside its own literals, so different queries give different commands. | high (proved on the model; not executed) | CommandText.LabelValueInjection | CommandText.EscapedInjective |
| bigquerydb/client.go:379-381 | `escapeSingleQuotes` escapes `'` but not `\`. | The metric name `a\` gives `metricname = 'a\'`, in which the backslash escapes the closing quote. | Every value reads back as itself between the quotes. | high (proved on the model; not executed) | SqlText.TrailingBackslashEscapesQuote | SqlText.ReadEscapeLiteral |
| bigquerydb/client.go:383-385 | `escapeSlashes` escapes `/` inside a raw literal delimited by `'`, and leaves `'` alone. | The regex `a'b` gives `r'a'b'`, whose literal ends after `a`. | The pattern reaches the engine whole. | high (proved on the model; not executed) | SqlText.QuoteEndsRawLiteral | CommandText.CommandRoundTrip |

The corrected quoting (`Escaped`) writes every value as a quoted literal
through `SqlText.EscapeLiteral`. `CommandText.CommandRoundTrip` proves that,
under it, every value reads back as intended, and
`CommandText.EscapedInjective` proves that the translation is injective.
`Merger.Read` keeps the source's quoting so that it stays faithful to the
code. The `AsWritten` round trip is proved only for matchers that the
source's quoting handles (`CommandText.SafeAsWritten`).

## Where the program's own behaviour is loose

The model follows the code in each case.

- Only `'` in quoted metric names and `/` in raw patterns are escaped, and label names and values are spliced unescaped (bigquerydb/client.go:283-305, 379-385). See the findings above.
- Series order in the response is unspecified: series are appended by iterating a Go map (bigquerydb/client.go:268-271). The model lists series in first-seen order, which is one of the orders the code can produce.
- NEQ writes `!=`, both for `__name__` (bigquerydb/client.go:285) and for a label (bigquerydb/client.go:301).
