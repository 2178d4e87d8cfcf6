/** The write path (bigquerydb/client.go, `Write`): every series of a
    remote-write request becomes rows of one batch, non-finite samples are
    dropped and counted, and the batch is handed to the table inserter once. */
module BatchWriter {
  import opened Wrappers
  import opened Labels
  import opened Prom
  import opened RowCodec

  /** Rows of one series, in sample order. */
  function ItemsOf(metric: LabelMap, tags: string, samples: seq<Sample>): seq<Item>
  {
    if |samples| == 0 then []
    else
      var last := samples[|samples| - 1];
      ItemsOf(metric, tags, samples[..|samples| - 1])
        + match EncodeSample(metric, tags, last) case Some(it) => [it] case None => []
  }

  function SeriesItems(ts: TimeSeries): seq<Item>
  {
    ItemsOf(ToMap(ts.labels), TagsFromMetric(ts.labels), ts.samples)
  }

  /** The batch of a request: the series' rows, series after series. */
  function Batch(series: seq<TimeSeries>): seq<Item>
  {
    if |series| == 0 then [] else Batch(series[..|series| - 1]) + SeriesItems(series[|series| - 1])
  }

  /** Samples whose value is NaN or an infinity. */
  function NonFinite(samples: seq<Sample>): nat
  {
    if |samples| == 0 then 0
    else NonFinite(samples[..|samples| - 1]) + (if samples[|samples| - 1].value.Finite? then 0 else 1)
  }

  function Ignored(series: seq<TimeSeries>): nat
  {
    if |series| == 0 then 0 else Ignored(series[..|series| - 1]) + NonFinite(series[|series| - 1].samples)
  }

  /** Samples received, before any filtering. */
  function Fetched(series: seq<TimeSeries>): nat
  {
    if |series| == 0 then 0 else Fetched(series[..|series| - 1]) + |series[|series| - 1].samples|
  }

  /** The finite samples, in order. */
  function FiniteSamples(samples: seq<Sample>): seq<Sample>
  {
    if |samples| == 0 then []
    else
      var last := samples[|samples| - 1];
      FiniteSamples(samples[..|samples| - 1]) + (if last.value.Finite? then [last] else [])
  }

  /** A sample is kept exactly when it is finite, and the count of kept and
      dropped samples is the count received. */
  lemma {:induction false} FiniteSamplesSpec(samples: seq<Sample>)
    ensures forall x :: x in FiniteSamples(samples) <==> x in samples && x.value.Finite?
    ensures |FiniteSamples(samples)| + NonFinite(samples) == |samples|
  {
    if |samples| > 0 {
      var init := samples[..|samples| - 1];
      FiniteSamplesSpec(init);
      assert samples == init + [samples[|samples| - 1]];
    }
  }

  /** Each kept sample becomes one row carrying the series' metric name and
      tags, its value, and its timestamp in seconds; rows follow the samples'
      order. */
  lemma {:induction false} ItemsOfFinite(metric: LabelMap, tags: string, samples: seq<Sample>)
    ensures |ItemsOf(metric, tags, samples)| == |FiniteSamples(samples)|
    ensures forall k :: 0 <= k < |ItemsOf(metric, tags, samples)| ==>
      var s := FiniteSamples(samples)[k];
      s.value.Finite? && ItemsOf(metric, tags, samples)[k] == Item(s.value.r, MetricName(metric), UnixSeconds(s.timestamp), tags)
  {
    if |samples| > 0 {
      ItemsOfFinite(metric, tags, samples[..|samples| - 1]);
    }
  }

  lemma {:induction false} ItemsOfCount(metric: LabelMap, tags: string, samples: seq<Sample>)
    ensures |ItemsOf(metric, tags, samples)| + NonFinite(samples) == |samples|
  {
    ItemsOfFinite(metric, tags, samples);
    FiniteSamplesSpec(samples);
  }

  /** Every row of the batch is accounted for: kept plus ignored is received. */
  lemma {:induction false} BatchCount(series: seq<TimeSeries>)
    ensures |Batch(series)| + Ignored(series) == Fetched(series)
  {
    if |series| > 0 {
      var last := series[|series| - 1];
      BatchCount(series[..|series| - 1]);
      ItemsOfCount(ToMap(last.labels), TagsFromMetric(last.labels), last.samples);
    }
  }

  /** The batch of two requests' series is the two batches one after the other. */
  lemma {:induction false} BatchAppend(a: seq<TimeSeries>, b: seq<TimeSeries>)
    ensures Batch(a + b) == Batch(a) + Batch(b)
  {
    if |b| > 0 {
      assert (a + b)[..|a + b| - 1] == a + b[..|b| - 1];
      BatchAppend(a, b[..|b| - 1]);
    } else {
      assert a + b == a;
    }
  }

  /** The loop of `Write` that builds `metric` from the received labels. */
  method MetricOf(labels: seq<Label>) returns (metric: LabelMap)
    ensures metric == ToMap(labels)
  {
    metric := map[];
    for k := 0 to |labels|
      invariant metric == ToMap(labels[..k])
    {
      assert labels[..k + 1][..k] == labels[..k];
      metric := metric[labels[k].name := labels[k].value];
    }
    assert labels[..|labels|] == labels;
  }

  /** The loop of `Write` over one series' samples: the rows it appends and
      the number of samples it skips. */
  method SampleLoop(metric: LabelMap, t: string, samples: seq<Sample>) returns (items: seq<Item>, skipped: nat)
    ensures items == ItemsOf(metric, t, samples)
    ensures skipped == NonFinite(samples)
  {
    items := [];
    skipped := 0;
    for j := 0 to |samples|
      invariant items == ItemsOf(metric, t, samples[..j])
      invariant skipped == NonFinite(samples[..j])
    {
      var s := samples[j];
      assert samples[..j + 1][..j] == samples[..j];
      if !s.value.Finite? {
        skipped := skipped + 1;
        continue;
      }
      items := items + [Item(s.value.r, MetricName(metric), UnixSeconds(s.timestamp), t)];
    }
    assert samples[..|samples|] == samples;
  }

  /** `Write`. `put` stands for the inserter's `Put`, called once with the
      whole batch; its error, if any, is the result. The two counters are
      returned as the amounts added to `ignoredSamples` and `recordsFetched`. */
  method Write(series: seq<TimeSeries>, put: seq<Item> -> Option<string>)
    returns (batch: seq<Item>, ignored: nat, fetched: nat, err: Option<string>)
    ensures batch == Batch(series)
    ensures ignored == Ignored(series) && fetched == Fetched(series)
    ensures |batch| + ignored == fetched
    ensures err == put(Batch(series))
  {
    batch := [];
    ignored := 0;
    fetched := 0;
    for i := 0 to |series|
      invariant batch == Batch(series[..i])
      invariant ignored == Ignored(series[..i]) && fetched == Fetched(series[..i])
    {
      var ts := series[i];
      fetched := fetched + |ts.samples|;
      var metric := MetricOf(ts.labels);
      var t := TagsFromMetric(ts.labels);
      var items, skipped := SampleLoop(metric, t, ts.samples);
      batch := batch + items;
      ignored := ignored + skipped;
      assert series[..i + 1][..i] == series[..i];
    }
    assert series[..|series|] == series;
    BatchCount(series);
    err := put(batch);
  }
}
