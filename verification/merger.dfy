/** The read path: `rowToSample` turns a result row back into a sample and
    its labels, `mergeResult` gathers the rows of one query into series keyed
    by label set, and `Read` runs every query of a request through both.

    The source keys its series map by the fingerprint (a hash) of the label
    set and returns the series in Go's map iteration order; the model keys
    by the label set itself and keeps the order in which label sets are
    first seen. */
module Merger {
  import opened Wrappers
  import opened Labels
  import opened TagsJson
  import opened Prom
  import opened Translator

  /** What `rowToSample` makes of one row: the sample, the label set
      (`model.Metric`) and the label list. */
  datatype Decoded = Decoded(sample: Sample, metric: LabelMap, labels: seq<Label>)

  predicate WellFormed(row: Row)
  {
    DecodeObject(row.tags).Some?
  }

  /** `rowToSample`. The `tags` text must decode to a JSON object of strings
      (the source's type assertions would panic otherwise; here that is the
      `MalformedTags` error). The label list holds every tag and the metric
      name, ordered by name; the label set is the tags with `__name__` set to
      the row's metric name. */
  function RowToSample(row: Row): (r: Result<Decoded, Error>)
    ensures r.Err? <==> !WellFormed(row)
    ensures r.Err? ==> r.error == MalformedTags(row.tags)
    ensures r.Ok? ==> r.value.sample == Sample(row.timestamp, row.value)
    ensures r.Ok? ==> r.value.metric == DecodeTags(row.tags).value[MetricNameLabel := row.metricname]
    ensures r.Ok? ==> Sorted(r.value.labels) && ToMap(r.value.labels) == r.value.metric
  {
    match DecodeObject(row.tags)
    case None => Err(MalformedTags(row.tags))
    case Some(members) =>
      var pairs := Canon(members);
      var name := Label(MetricNameLabel, row.metricname);
      StrictlySortedIsSorted(pairs);
      InsertByNameMap(pairs, name);
      Ok(Decoded(Sample(row.timestamp, row.value), ToMap(members)[MetricNameLabel := row.metricname], InsertByName(pairs, name)))
  }

  /** The label list holds one entry per tag and one for the metric name,
      and nothing else. */
  lemma RowLabels(row: Row, l: Label)
    requires WellFormed(row)
    ensures |RowToSample(row).value.labels| == |DecodeTags(row.tags).value| + 1
    ensures l in RowToSample(row).value.labels <==>
      l == Label(MetricNameLabel, row.metricname)
      || (l.name in DecodeTags(row.tags).value && DecodeTags(row.tags).value[l.name] == l.value)
  {
    var members := DecodeObject(row.tags).value;
    var pairs := Canon(members);
    var name := Label(MetricNameLabel, row.metricname);
    var labels := RowToSample(row).value.labels;
    StrictlySortedIsSorted(pairs);
    assert labels == InsertByName(pairs, name);
    StrictSize(pairs);
    assert l in labels <==> l in multiset(labels);
    assert l in pairs <==> l in multiset(pairs);
    StrictMembership(pairs, l);
  }

  /** When the tags carry no `__name__`, the label list is the canonical
      list of the label set. */
  lemma RowLabelsCanonical(row: Row)
    requires WellFormed(row) && MetricNameLabel !in DecodeTags(row.tags).value
    ensures StrictlySorted(RowToSample(row).value.labels)
    ensures RowToSample(row).value.labels == Canon(RowToSample(row).value.labels)
  {
    var members := DecodeObject(row.tags).value;
    var pairs := Canon(members);
    var name := Label(MetricNameLabel, row.metricname);
    ToMapKeys(pairs);
    StrictlySortedIsSorted(pairs);
    InsertByNameFresh(pairs, name);
    CanonOfSorted(RowToSample(row).value.labels);
  }

  // ----------------------------------------------------------- decoding

  predicate FirstMalformed(rows: seq<Row>, i: int)
  {
    0 <= i < |rows| && !WellFormed(rows[i]) && forall j :: 0 <= j < i ==> WellFormed(rows[j])
  }

  /** Every row decoded, or the error of the first malformed one. */
  function DecodeRows(rows: seq<Row>): (r: Result<seq<Decoded>, Error>)
    ensures r.Ok? <==> forall j :: 0 <= j < |rows| ==> WellFormed(rows[j])
    ensures r.Ok? ==> |r.value| == |rows| && forall j :: 0 <= j < |rows| ==> RowToSample(rows[j]) == Ok(r.value[j])
    ensures r.Err? ==> exists i :: FirstMalformed(rows, i) && r.error == MalformedTags(rows[i].tags)
  {
    if |rows| == 0 then Ok([])
    else
      var init := rows[..|rows| - 1];
      var last := rows[|rows| - 1];
      match DecodeRows(init)
      case Err(e) =>
        DecodePrefixErr(rows, init, e);
        Err(e)
      case Ok(ds) =>
        match RowToSample(last)
        case Err(e) =>
          DecodeLastErr(rows, init);
          Err(e)
        case Ok(d) =>
          DecodeSnoc(rows, init, ds, d);
          Ok(ds + [d])
  }

  lemma DecodePrefixErr(rows: seq<Row>, init: seq<Row>, e: Error)
    requires |rows| > 0 && init == rows[..|rows| - 1]
    requires exists i :: FirstMalformed(init, i) && e == MalformedTags(init[i].tags)
    ensures exists i :: FirstMalformed(rows, i) && e == MalformedTags(rows[i].tags)
  {
    var i :| FirstMalformed(init, i) && e == MalformedTags(init[i].tags);
    assert init[i] == rows[i];
    forall j | 0 <= j < i ensures WellFormed(rows[j]) {
      assert init[j] == rows[j];
    }
    assert FirstMalformed(rows, i);
  }

  lemma DecodeLastErr(rows: seq<Row>, init: seq<Row>)
    requires |rows| > 0 && init == rows[..|rows| - 1] && !WellFormed(rows[|rows| - 1])
    requires forall j :: 0 <= j < |init| ==> WellFormed(init[j])
    ensures FirstMalformed(rows, |rows| - 1)
  {
    forall j | 0 <= j < |rows| - 1 ensures WellFormed(rows[j]) {
      assert init[j] == rows[j];
    }
  }

  lemma DecodeSnoc(rows: seq<Row>, init: seq<Row>, ds: seq<Decoded>, d: Decoded)
    requires |rows| > 0 && init == rows[..|rows| - 1] && RowToSample(rows[|rows| - 1]) == Ok(d)
    requires |ds| == |init| && forall j :: 0 <= j < |init| ==> RowToSample(init[j]) == Ok(ds[j])
    ensures forall j :: 0 <= j < |rows| ==> RowToSample(rows[j]) == Ok((ds + [d])[j])
  {
    forall j | 0 <= j < |rows| ensures RowToSample(rows[j]) == Ok((ds + [d])[j]) {
      if j < |rows| - 1 {
        assert init[j] == rows[j];
      }
    }
  }

  // ------------------------------------------------------------ merging

  /** One entry of `tsMap`: the series collected for one label set. */
  datatype Group = Group(metric: LabelMap, series: TimeSeries)

  predicate DistinctMetrics(gs: seq<Group>)
  {
    forall i, j :: 0 <= i < j < |gs| ==> gs[i].metric != gs[j].metric
  }

  function Find(gs: seq<Group>, k: LabelMap): (r: Option<nat>)
    ensures r.Some? ==> r.value < |gs| && gs[r.value].metric == k
    ensures r.None? <==> forall i :: 0 <= i < |gs| ==> gs[i].metric != k
  {
    if |gs| == 0 then None
    else if gs[0].metric == k then Some(0)
    else
      match Find(gs[1..], k)
      case None =>
        assert forall i :: 0 < i < |gs| ==> gs[i] == gs[1..][i - 1];
        None
      case Some(i) => Some(i + 1)
  }

  /** One iteration of `mergeResult` after `rowToSample`: a label set not
      seen before starts a series with the row's label list; a known one
      gets the sample appended and keeps its label list. */
  function MergeRow(gs: seq<Group>, d: Decoded): (r: seq<Group>)
    requires DistinctMetrics(gs)
    ensures DistinctMetrics(r)
  {
    match Find(gs, d.metric)
    case None => gs + [Group(d.metric, TimeSeries(d.labels, [d.sample]))]
    case Some(i) => gs[i := Group(d.metric, TimeSeries(gs[i].series.labels, gs[i].series.samples + [d.sample]))]
  }

  /** `mergeResult`: the rows in order; the first malformed row aborts. */
  function MergeResult(gs: seq<Group>, rows: seq<Row>): (r: Result<seq<Group>, Error>)
    requires DistinctMetrics(gs)
    ensures r.Ok? ==> DistinctMetrics(r.value)
  {
    if |rows| == 0 then Ok(gs)
    else
      var prev :- MergeResult(gs, rows[..|rows| - 1]);
      var d :- RowToSample(rows[|rows| - 1]);
      Ok(MergeRow(prev, d))
  }

  /** The decoded rows folded into the series, one by one. */
  function Merge(gs: seq<Group>, ds: seq<Decoded>): (r: seq<Group>)
    requires DistinctMetrics(gs)
    ensures DistinctMetrics(r)
  {
    if |ds| == 0 then gs else MergeRow(Merge(gs, ds[..|ds| - 1]), ds[|ds| - 1])
  }

  /** `mergeResult` fails exactly when some row is malformed, with the first
      such row's error, and otherwise folds the decoded rows in. */
  lemma {:induction false} MergeResultDecodes(gs: seq<Group>, rows: seq<Row>)
    requires DistinctMetrics(gs)
    ensures MergeResult(gs, rows)
      == match DecodeRows(rows)
         case Err(e) => Err(e)
         case Ok(ds) => Ok(Merge(gs, ds))
  {
    if |rows| > 0 {
      var init := rows[..|rows| - 1];
      MergeResultDecodes(gs, init);
      var p := DecodeRows(init);
      if p.Ok? && RowToSample(rows[|rows| - 1]).Ok? {
        var ds := p.value + [RowToSample(rows[|rows| - 1]).value];
        assert ds[..|ds| - 1] == p.value;
      }
    }
  }

  /** Merging two runs of rows is merging their concatenation. */
  lemma {:induction false} MergeResultAppend(gs: seq<Group>, a: seq<Row>, b: seq<Row>)
    requires DistinctMetrics(gs)
    ensures MergeResult(gs, a + b)
      == match MergeResult(gs, a)
         case Err(e) => Err(e)
         case Ok(mid) => MergeResult(mid, b)
  {
    if |b| == 0 {
      assert a + b == a;
    } else {
      assert (a + b)[..|a + b| - 1] == a + b[..|b| - 1];
      assert (a + b)[|a + b| - 1] == b[|b| - 1];
      MergeResultAppend(gs, a, b[..|b| - 1]);
    }
  }

  // ------------------------------------------------ what merging yields

  /** The label sets of the decoded rows. */
  function MetricsOf(ds: seq<Decoded>): set<LabelMap>
  {
    set j | 0 <= j < |ds| :: ds[j].metric
  }

  function GroupMetrics(gs: seq<Group>): set<LabelMap>
  {
    set i | 0 <= i < |gs| :: gs[i].metric
  }

  /** The samples of the rows with label set `k`, in row order. */
  function SamplesFor(ds: seq<Decoded>, k: LabelMap): seq<Sample>
  {
    if |ds| == 0 then []
    else
      var last := ds[|ds| - 1];
      SamplesFor(ds[..|ds| - 1], k) + (if last.metric == k then [last.sample] else [])
  }

  /** The label list of the first row with label set `k`. */
  function FirstLabels(ds: seq<Decoded>, k: LabelMap): Option<seq<Label>>
  {
    if |ds| == 0 then None
    else
      var last := ds[|ds| - 1];
      match FirstLabels(ds[..|ds| - 1], k)
      case Some(ls) => Some(ls)
      case None => if last.metric == k then Some(last.labels) else None
  }

  /** The series gathered from the rows: one per label set among them,
      holding every sample of that label set in row order and the label list
      of its first row. */
  predicate Gathers(gs: seq<Group>, ds: seq<Decoded>)
  {
    && DistinctMetrics(gs)
    && GroupMetrics(gs) == MetricsOf(ds)
    && (forall i :: 0 <= i < |gs| ==> gs[i].series.samples == SamplesFor(ds, gs[i].metric))
    && (forall i :: 0 <= i < |gs| ==> FirstLabels(ds, gs[i].metric) == Some(gs[i].series.labels))
  }

  lemma {:induction false} Unseen(ds: seq<Decoded>, k: LabelMap)
    requires k !in MetricsOf(ds)
    ensures SamplesFor(ds, k) == [] && FirstLabels(ds, k) == None
  {
    if |ds| > 0 {
      var init := ds[..|ds| - 1];
      assert MetricsOf(init) <= MetricsOf(ds) by {
        forall m | m in MetricsOf(init) ensures m in MetricsOf(ds) {
          var j :| 0 <= j < |init| && init[j].metric == m;
          assert init[j] == ds[j];
        }
      }
      assert ds[|ds| - 1].metric in MetricsOf(ds);
      Unseen(init, k);
    }
  }

  lemma MetricsOfSnoc(ds: seq<Decoded>, d: Decoded)
    ensures MetricsOf(ds + [d]) == MetricsOf(ds) + {d.metric}
  {
    var all := ds + [d];
    forall m | m in MetricsOf(all) ensures m in MetricsOf(ds) + {d.metric} {
      var j :| 0 <= j < |all| && all[j].metric == m;
      if j < |ds| {
        assert all[j] == ds[j];
      }
    }
    forall m | m in MetricsOf(ds) ensures m in MetricsOf(all) {
      var j :| 0 <= j < |ds| && ds[j].metric == m;
      assert all[j] == ds[j];
    }
    assert all[|ds|] == d;
  }

  lemma MergeRowNew(gs: seq<Group>, ds: seq<Decoded>, d: Decoded)
    requires Gathers(gs, ds) && Find(gs, d.metric).None?
    ensures Gathers(MergeRow(gs, d), ds + [d])
  {
    var all := ds + [d];
    var r := MergeRow(gs, d);
    assert all[..|all| - 1] == ds && all[|all| - 1] == d;
    MetricsOfSnoc(ds, d);
    assert d.metric !in GroupMetrics(gs);
    Unseen(ds, d.metric);
    assert GroupMetrics(r) == GroupMetrics(gs) + {d.metric} by {
      forall m | m in GroupMetrics(r) ensures m in GroupMetrics(gs) + {d.metric} {
        var i :| 0 <= i < |r| && r[i].metric == m;
        if i < |gs| {
          assert r[i] == gs[i];
        }
      }
      forall m | m in GroupMetrics(gs) ensures m in GroupMetrics(r) {
        var i :| 0 <= i < |gs| && gs[i].metric == m;
        assert r[i] == gs[i];
      }
      assert r[|gs|].metric == d.metric;
    }
    forall i | 0 <= i < |r|
      ensures r[i].series.samples == SamplesFor(all, r[i].metric)
      ensures FirstLabels(all, r[i].metric) == Some(r[i].series.labels)
    {
      if i < |gs| {
        assert r[i] == gs[i];
      }
    }
  }

  lemma MergeRowKnown(gs: seq<Group>, ds: seq<Decoded>, d: Decoded)
    requires Gathers(gs, ds) && Find(gs, d.metric).Some?
    ensures Gathers(MergeRow(gs, d), ds + [d])
  {
    var all := ds + [d];
    var k := Find(gs, d.metric).value;
    var r := MergeRow(gs, d);
    assert all[..|all| - 1] == ds && all[|all| - 1] == d;
    MetricsOfSnoc(ds, d);
    assert gs[k].metric in GroupMetrics(gs);
    assert GroupMetrics(r) == GroupMetrics(gs) by {
      forall m | m in GroupMetrics(r) ensures m in GroupMetrics(gs) {
        var i :| 0 <= i < |r| && r[i].metric == m;
        assert r[i].metric == gs[i].metric;
      }
      forall m | m in GroupMetrics(gs) ensures m in GroupMetrics(r) {
        var i :| 0 <= i < |gs| && gs[i].metric == m;
        assert r[i].metric == gs[i].metric;
      }
    }
    forall i | 0 <= i < |r|
      ensures r[i].series.samples == SamplesFor(all, r[i].metric)
      ensures FirstLabels(all, r[i].metric) == Some(r[i].series.labels)
    {
      if i != k {
        assert r[i] == gs[i];
      }
    }
  }

  /** Folding rows into no series gathers exactly the series of those rows. */
  lemma {:induction false} MergeGathers(ds: seq<Decoded>)
    ensures Gathers(Merge([], ds), ds)
  {
    if |ds| == 0 {
      assert GroupMetrics([]) == {};
      assert MetricsOf(ds) == {};
    } else {
      var init := ds[..|ds| - 1];
      var d := ds[|ds| - 1];
      assert ds == init + [d];
      MergeGathers(init);
      var gs := Merge([], init);
      if Find(gs, d.metric).None? {
        MergeRowNew(gs, init, d);
      } else {
        MergeRowKnown(gs, init, d);
      }
    }
  }

  // -------------------------------------------------------------- Read

  function Fetch(a: Answer): Result<seq<Row>, Error>
  {
    match a
    case Rows(rows) => Ok(rows)
    case Failed(message) => Err(WarehouseError(message))
  }

  /** The query loop of `Read` from series `gs` on: each query is
      translated as written, sent to the warehouse and merged; the first
      failure aborts. */
  function ReadLoop(gs: seq<Group>, dataset: string, table: string, queries: seq<Query>,
                    warehouse: string -> Answer): (r: Result<seq<Group>, Error>)
    requires DistinctMetrics(gs)
    ensures r.Ok? ==> DistinctMetrics(r.value)
    decreases |queries|
  {
    if |queries| == 0 then Ok(gs)
    else
      var command :- BuildCommand(AsWritten, dataset, table, queries[0]);
      var rows :- Fetch(warehouse(command));
      var merged :- MergeResult(gs, rows);
      ReadLoop(merged, dataset, table, queries[1..], warehouse)
  }

  /** The rows the warehouse returns for every query, in query order; the
      first query that cannot be translated or that the warehouse rejects
      makes this an error. */
  function Gathered(dataset: string, table: string, queries: seq<Query>,
                    warehouse: string -> Answer): Result<seq<Row>, Error>
    decreases |queries|
  {
    if |queries| == 0 then Ok([])
    else
      var command :- BuildCommand(AsWritten, dataset, table, queries[0]);
      var rows :- Fetch(warehouse(command));
      var rest :- Gathered(dataset, table, queries[1..], warehouse);
      Ok(rows + rest)
  }

  /** The query loop succeeds exactly when every query yields rows and every
      row is well formed, and then it is the merge of all rows at once. */
  lemma {:induction false} ReadLoopGathered(gs: seq<Group>, dataset: string, table: string,
                                            queries: seq<Query>, warehouse: string -> Answer)
    requires DistinctMetrics(gs)
    ensures ReadLoop(gs, dataset, table, queries, warehouse).Ok? <==>
      Gathered(dataset, table, queries, warehouse).Ok? && MergeResult(gs, Gathered(dataset, table, queries, warehouse).value).Ok?
    ensures ReadLoop(gs, dataset, table, queries, warehouse).Ok? ==>
      ReadLoop(gs, dataset, table, queries, warehouse) == MergeResult(gs, Gathered(dataset, table, queries, warehouse).value)
    decreases |queries|
  {
    if |queries| > 0 {
      var c := BuildCommand(AsWritten, dataset, table, queries[0]);
      if c.Ok? && warehouse(c.value).Rows? {
        var rows := warehouse(c.value).rows;
        var g := Gathered(dataset, table, queries[1..], warehouse);
        var m := MergeResult(gs, rows);
        if m.Ok? {
          ReadLoopGathered(m.value, dataset, table, queries[1..], warehouse);
        }
        if g.Ok? {
          MergeResultAppend(gs, rows, g.value);
        }
      }
    }
  }

  function SeriesOf(gs: seq<Group>): (r: seq<TimeSeries>)
    ensures |r| == |gs| && forall i :: 0 <= i < |gs| ==> r[i] == gs[i].series
  {
    if |gs| == 0 then [] else [gs[0].series] + SeriesOf(gs[1..])
  }

  /** What the query loop as a whole yields: the series gathered from all
      rows of all queries, or a failure exactly when some query cannot be
      translated, the warehouse rejects one, or a row is malformed. */
  lemma ReadLoopMeaning(dataset: string, table: string, queries: seq<Query>, warehouse: string -> Answer)
    ensures ReadLoop([], dataset, table, queries, warehouse).Ok? <==>
      (Gathered(dataset, table, queries, warehouse).Ok? && DecodeRows(Gathered(dataset, table, queries, warehouse).value).Ok?)
    ensures ReadLoop([], dataset, table, queries, warehouse).Ok? ==>
      var ds := DecodeRows(Gathered(dataset, table, queries, warehouse).value).value;
      ReadLoop([], dataset, table, queries, warehouse) == Ok(Merge([], ds)) && Gathers(Merge([], ds), ds)
  {
    ReadLoopGathered([], dataset, table, queries, warehouse);
    var g := Gathered(dataset, table, queries, warehouse);
    if g.Ok? {
      MergeResultDecodes([], g.value);
      if DecodeRows(g.value).Ok? {
        MergeGathers(DecodeRows(g.value).value);
      }
    }
  }

  /** `Read`: every query's rows are merged into one set of series, returned
      as a single query result. It fails when a query cannot be translated,
      when the warehouse rejects one, or when a row is malformed. */
  method Read(req: ReadRequest, dataset: string, table: string, warehouse: string -> Answer)
    returns (r: Result<ReadResponse, Error>)
    ensures r.Err? ==> ReadLoop([], dataset, table, req.queries, warehouse) == Err(r.error)
    ensures r.Ok? <==> (Gathered(dataset, table, req.queries, warehouse).Ok?
                        && DecodeRows(Gathered(dataset, table, req.queries, warehouse).value).Ok?)
    ensures r.Ok? ==>
      var ds := DecodeRows(Gathered(dataset, table, req.queries, warehouse).value).value;
      Gathers(Merge([], ds), ds) && r.value.results == [QueryResult(SeriesOf(Merge([], ds)))]
  {
    ReadLoopMeaning(dataset, table, req.queries, warehouse);
    var gs: seq<Group> := [];
    var i := 0;
    while i < |req.queries|
      invariant 0 <= i <= |req.queries|
      invariant DistinctMetrics(gs)
      invariant ReadLoop(gs, dataset, table, req.queries[i..], warehouse) == ReadLoop([], dataset, table, req.queries, warehouse)
    {
      var rest := req.queries[i..];
      assert rest[0] == req.queries[i] && rest[1..] == req.queries[i + 1..];
      var command := BuildCommand(AsWritten, dataset, table, req.queries[i]);
      if command.Err? {
        return Err(command.error);
      }
      var rows := Fetch(warehouse(command.value));
      if rows.Err? {
        return Err(rows.error);
      }
      var merged := MergeResult(gs, rows.value);
      if merged.Err? {
        return Err(merged.error);
      }
      gs := merged.value;
      i := i + 1;
    }
    r := Ok(ReadResponse([QueryResult(SeriesOf(gs))]));
  }
}
