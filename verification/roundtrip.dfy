/** Writing a series and reading it back (the scenario of
    bigquerydb/client_test.go). The warehouse is a parameter of the model:
    here it holds the rows of the batches written, stores each timestamp as
    whole seconds, and answers every query with those rows. */
module RoundTrip {
  import opened Wrappers
  import opened Labels
  import opened TagsJson
  import opened Prom
  import opened RowCodec
  import opened BatchWriter
  import opened Translator
  import opened Merger

  /** The row the warehouse returns for a stored item: `UNIX_MILLIS` of a
      timestamp saved as whole seconds. */
  function StoredRow(it: Item): Row
  {
    Row(it.metricname, it.tags, it.timestamp * 1000, Finite(it.value))
  }

  function Stored(items: seq<Item>): (rows: seq<Row>)
    ensures |rows| == |items| && forall k :: 0 <= k < |items| ==> rows[k] == StoredRow(items[k])
  {
    if |items| == 0 then [] else [StoredRow(items[0])] + Stored(items[1..])
  }

  /** A warehouse that answers every query with `rows`. */
  function Serving(rows: seq<Row>): string -> Answer
  {
    command => Rows(rows)
  }

  /** A series the table represents exactly: labels in canonical order with
      a metric name, finite values at whole seconds in increasing time order
      (so the stored order is also the `ORDER BY timestamp` order). */
  predicate Storable(ts: TimeSeries)
  {
    && StrictlySorted(ts.labels)
    && MetricNameLabel in Names(ts.labels)
    && |ts.samples| > 0
    && (forall k :: 0 <= k < |ts.samples| ==> ts.samples[k].value.Finite? && ts.samples[k].timestamp % 1000 == 0)
    && (forall j, k :: 0 <= j < k < |ts.samples| ==> ts.samples[j].timestamp < ts.samples[k].timestamp)
  }

  lemma {:induction false} AllFiniteKept(samples: seq<Sample>)
    requires forall k :: 0 <= k < |samples| ==> samples[k].value.Finite?
    ensures FiniteSamples(samples) == samples
  {
    if |samples| > 0 {
      AllFiniteKept(samples[..|samples| - 1]);
      assert samples == samples[..|samples| - 1] + [samples[|samples| - 1]];
    }
  }

  /** A series of NaN and infinities adds no row and counts every sample as
      ignored. */
  lemma {:induction false} NonFiniteWritesNothing(samples: seq<Sample>, metric: LabelMap, tags: string)
    requires forall k :: 0 <= k < |samples| ==> !samples[k].value.Finite?
    ensures ItemsOf(metric, tags, samples) == []
    ensures NonFinite(samples) == |samples|
  {
    if |samples| > 0 {
      NonFiniteWritesNothing(samples[..|samples| - 1], metric, tags);
    }
  }

  lemma BatchOfOne(ts: TimeSeries)
    requires forall k :: 0 <= k < |ts.samples| ==> ts.samples[k].value.Finite?
    ensures |Batch([ts])| == |ts.samples|
    ensures forall k :: 0 <= k < |ts.samples| ==>
      Batch([ts])[k] == Item(ts.samples[k].value.r, MetricName(ToMap(ts.labels)), UnixSeconds(ts.samples[k].timestamp), TagsFromMetric(ts.labels))
  {
    assert [ts][..0] == [];
    assert Batch([ts]) == SeriesItems(ts);
    AllFiniteKept(ts.samples);
    ItemsOfFinite(ToMap(ts.labels), TagsFromMetric(ts.labels), ts.samples);
  }

  /** A stored row of a storable series reads back as the sample, the
      series' label set and its label list. */
  lemma StoredRowReads(ts: TimeSeries, s: Sample)
    requires StrictlySorted(ts.labels) && MetricNameLabel in Names(ts.labels)
    requires s.value.Finite? && s.timestamp % 1000 == 0
    ensures var it := Item(s.value.r, MetricName(ToMap(ts.labels)), UnixSeconds(s.timestamp), TagsFromMetric(ts.labels));
      RowToSample(StoredRow(it)) == Ok(Decoded(s, ToMap(ts.labels), ts.labels))
  {
    var m := ToMap(ts.labels);
    var row := StoredRow(Item(s.value.r, MetricName(m), UnixSeconds(s.timestamp), TagsFromMetric(ts.labels)));
    UnixSecondsExact(s.timestamp);
    assert row.timestamp == s.timestamp && row.value == s.value;
    TagsReadBack(ts.labels);
    RowLabelsCanonical(row);
    SortedUnique(RowToSample(row).value.labels, ts.labels);
  }

  /** The tags of a series with a metric name, read back and given the metric
      name again, are the series' label set. */
  lemma TagsReadBack(labels: seq<Label>)
    requires MetricNameLabel in Names(labels)
    ensures DecodeTags(TagsFromMetric(labels)).Some?
    ensures MetricNameLabel !in DecodeTags(TagsFromMetric(labels)).value
    ensures DecodeTags(TagsFromMetric(labels)).value[MetricNameLabel := MetricName(ToMap(labels))] == ToMap(labels)
  {
    var m := ToMap(labels);
    ToMapKeys(labels);
    assert (m - {MetricNameLabel})[MetricNameLabel := m[MetricNameLabel]] == m;
  }

  lemma {:induction false} SamplesForAll(ds: seq<Decoded>, m: LabelMap, samples: seq<Sample>)
    requires |ds| == |samples|
    requires forall k :: 0 <= k < |ds| ==> ds[k].metric == m && ds[k].sample == samples[k]
    ensures SamplesFor(ds, m) == samples
  {
    if |ds| > 0 {
      SamplesForAll(ds[..|ds| - 1], m, samples[..|samples| - 1]);
      assert samples == samples[..|samples| - 1] + [samples[|samples| - 1]];
    }
  }

  lemma {:induction false} FirstLabelsAll(ds: seq<Decoded>, m: LabelMap, labels: seq<Label>)
    requires |ds| > 0
    requires forall k :: 0 <= k < |ds| ==> ds[k].metric == m && ds[k].labels == labels
    ensures FirstLabels(ds, m) == Some(labels)
  {
    if |ds| > 1 {
      FirstLabelsAll(ds[..|ds| - 1], m, labels);
    }
  }

  /** Rows of one label set gather into exactly one series. */
  lemma {:induction false} OneSeries(ds: seq<Decoded>, m: LabelMap, ts: TimeSeries)
    requires |ds| == |ts.samples| > 0
    requires forall k :: 0 <= k < |ds| ==> ds[k] == Decoded(ts.samples[k], m, ts.labels)
    ensures Merge([], ds) == [Group(m, ts)]
  {
    var gs := Merge([], ds);
    MergeGathers(ds);
    OneMetric(ds, m);
    OneGroup(gs, m);
    SamplesForAll(ds, m, ts.samples);
    FirstLabelsAll(ds, m, ts.labels);
    assert gs[0] == Group(m, ts);
  }

  lemma OneMetric(ds: seq<Decoded>, m: LabelMap)
    requires |ds| > 0 && forall k :: 0 <= k < |ds| ==> ds[k].metric == m
    ensures MetricsOf(ds) == {m}
  {
    assert ds[0].metric == m;
  }

  /** Distinct series all of one label set are a single series. */
  lemma OneGroup(gs: seq<Group>, m: LabelMap)
    requires DistinctMetrics(gs) && GroupMetrics(gs) == {m}
    ensures |gs| == 1 && gs[0].metric == m
  {
    assert |gs| < 2 || gs[0].metric != gs[1].metric;
    assert m in GroupMetrics(gs);
    forall i | 0 <= i < |gs| ensures gs[i].metric == m {
      assert gs[i].metric in GroupMetrics(gs);
    }
  }

  /** The rows stored for a storable series decode to its samples, one by
      one, each with the series' label set and label list. */
  lemma StoredRowsDecode(ts: TimeSeries)
    requires Storable(ts)
    ensures DecodeRows(Stored(Batch([ts]))).Ok?
    ensures var ds := DecodeRows(Stored(Batch([ts]))).value;
      |ds| == |ts.samples| && forall k :: 0 <= k < |ds| ==> ds[k] == Decoded(ts.samples[k], ToMap(ts.labels), ts.labels)
  {
    var rows := Stored(Batch([ts]));
    BatchOfOne(ts);
    forall k | 0 <= k < |rows| ensures RowToSample(rows[k]) == Ok(Decoded(ts.samples[k], ToMap(ts.labels), ts.labels)) {
      StoredRowReads(ts, ts.samples[k]);
    }
  }

  lemma GatheredOne(q: Query, dataset: string, table: string, rows: seq<Row>)
    requires BuildCommand(AsWritten, dataset, table, q).Ok?
    ensures Gathered(dataset, table, [q], Serving(rows)) == Ok(rows)
  {
    assert [q][1..] == [];
    assert rows + [] == rows;
  }

  /** Reading back a written storable series with any well-formed query
      gives that series, labels and samples unchanged. */
  lemma WriteReadRoundTrip(ts: TimeSeries, q: Query, dataset: string, table: string)
    requires Storable(ts)
    requires BuildCommand(AsWritten, dataset, table, q).Ok?
    ensures var rows := Stored(Batch([ts]));
      && Gathered(dataset, table, [q], Serving(rows)) == Ok(rows)
      && DecodeRows(rows).Ok?
      && Merge([], DecodeRows(rows).value) == [Group(ToMap(ts.labels), ts)]
  {
    var rows := Stored(Batch([ts]));
    StoredRowsDecode(ts);
    OneSeries(DecodeRows(rows).value, ToMap(ts.labels), ts);
    GatheredOne(q, dataset, table, rows);
  }

  /** The batch of a series of NaN and infinities is empty and every
      sample is counted as ignored. */
  lemma NonFiniteBatch(ts: TimeSeries)
    requires forall k :: 0 <= k < |ts.samples| ==> !ts.samples[k].value.Finite?
    ensures Batch([ts]) == [] && Ignored([ts]) == |ts.samples|
  {
    assert [ts][..0] == [];
    NonFiniteWritesNothing(ts.samples, ToMap(ts.labels), TagsFromMetric(ts.labels));
  }

  /** What a read over the stored rows of a storable series returns. */
  lemma ReadBack(ts: TimeSeries, q: Query, dataset: string, table: string)
    requires Storable(ts)
    requires BuildCommand(AsWritten, dataset, table, q).Ok?
    ensures var rows := Stored(Batch([ts]));
      && Gathered(dataset, table, [q], Serving(rows)) == Ok(rows)
      && DecodeRows(rows).Ok?
      && SeriesOf(Merge([], DecodeRows(rows).value)) == [ts]
  {
    WriteReadRoundTrip(ts, q, dataset, table);
    assert SeriesOf([Group(ToMap(ts.labels), ts)]) == [ts];
  }

  /** A read from a warehouse holding the batch written for a storable
      series. */
  method ReadStored(ts: TimeSeries, batch: seq<Item>, q: Query, dataset: string, table: string)
    returns (r: Result<ReadResponse, Error>)
    requires Storable(ts) && batch == Batch([ts])
    requires BuildCommand(AsWritten, dataset, table, q).Ok?
    ensures r == Ok(ReadResponse([QueryResult([ts])]))
  {
    ReadBack(ts, q, dataset, table);
    r := Read(ReadRequest([q]), dataset, table, Serving(Stored(batch)));
  }

  /** The two writes of the source's tests: a series, then a series of NaN
      and infinities. The second adds no row and all its samples are
      ignored; the ignored-samples counter adds up over both writes. */
  method WriteTwice(good: TimeSeries, bad: TimeSeries)
    returns (batch: seq<Item>, ignored: nat)
    requires forall k :: 0 <= k < |bad.samples| ==> !bad.samples[k].value.Finite?
    ensures batch == Batch([good])
    ensures ignored == NonFinite(good.samples) + |bad.samples|
  {
    var batch1, ignored1, fetched1, err1 := Write([good], items => None);
    var batch2, ignored2, fetched2, err2 := Write([bad], items => None);
    NonFiniteBatch(bad);
    assert [good][..0] == [];
    batch := batch1 + batch2;
    ignored := ignored1 + ignored2;
    assert batch == batch1;
  }

  /** The two writes and the read of the source's tests: a series of finite
      samples, then a series of NaN samples with the same metric name, then
      a read. The NaN samples are all ignored, and the read returns exactly
      the first series. */
  method WriteThenRead(good: TimeSeries, bad: TimeSeries, q: Query, dataset: string, table: string)
    returns (ignored: nat, r: Result<ReadResponse, Error>)
    requires Storable(good)
    requires forall k :: 0 <= k < |bad.samples| ==> !bad.samples[k].value.Finite?
    requires BuildCommand(AsWritten, dataset, table, q).Ok?
    ensures ignored == |bad.samples|
    ensures r == Ok(ReadResponse([QueryResult([good])]))
  {
    var batch;
    batch, ignored := WriteTwice(good, bad);
    AllFiniteKept(good.samples);
    FiniteSamplesSpec(good.samples);
    r := ReadStored(good, batch, q, dataset, table);
  }
}
