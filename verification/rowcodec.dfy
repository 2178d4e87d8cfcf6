/** Turning one received series into table rows (bigquerydb/client.go,
    `tagsFromMetric` and the per-sample loop of `Write`). */
module RowCodec {
  import opened Wrappers
  import opened Labels
  import opened TagsJson
  import opened Prom

  /** `metric[model.MetricNameLabel]`: the empty string when absent. */
  function MetricName(metric: LabelMap): string
  {
    if MetricNameLabel in metric then metric[MetricNameLabel] else ""
  }

  /** The metric name of a received label list is the value of its last
      `__name__` label, and the empty string when it has none. */
  lemma {:induction false} MetricNameOfLabels(labels: seq<Label>)
    ensures MetricNameLabel !in Names(labels) ==> MetricName(ToMap(labels)) == ""
    ensures MetricNameLabel in Names(labels) ==>
      exists i :: 0 <= i < |labels| && labels[i].name == MetricNameLabel
        && (forall j :: i < j < |labels| ==> labels[j].name != MetricNameLabel)
        && MetricName(ToMap(labels)) == labels[i].value
  {
    ToMapKeys(labels);
    if MetricNameLabel in Names(labels) {
      var i := LastOfName(labels, MetricNameLabel);
      ToMapLast(labels, MetricNameLabel, i);
    }
  }

  /** The index of the last label named `n`. */
  lemma {:induction false} LastOfName(ls: seq<Label>, n: string) returns (i: int)
    requires n in Names(ls)
    ensures 0 <= i < |ls| && ls[i].name == n
    ensures forall j :: i < j < |ls| ==> ls[j].name != n
  {
    var k :| 0 <= k < |ls| && ls[k].name == n;
    if ls[|ls| - 1].name == n {
      i := |ls| - 1;
    } else {
      var init := ls[..|ls| - 1];
      assert init[k] == ls[k];
      i := LastOfName(init, n);
      assert forall j :: i < j < |ls| ==> ls[j].name != n by {
        forall j | i < j < |ls| ensures ls[j].name != n {
          if j < |ls| - 1 {
            assert ls[j] == init[j];
          }
        }
      }
    }
  }

  /** The `tags` column of a series: every label except `__name__`, as a
      JSON object with its keys in ascending order. Duplicate label names
      keep their last value, because the series is first turned into a map. */
  function TagsFromMetric(labels: seq<Label>): (r: string)
    ensures DecodeTags(r) == Some(ToMap(labels) - {MetricNameLabel})
    ensures r == "{}" <==> ToMap(labels).Keys <= {MetricNameLabel}
  {
    var ms := Canon(WithoutName(labels));
    DecodeEncode(ms);
    WithoutNameMap(labels);
    EncodeEmpty(ms);
    EmptyMapEmptyList(ms);
    MinusEmpty(ToMap(labels), MetricNameLabel);
    EncodeObject(ms)
  }

  lemma MinusEmpty(m: LabelMap, k: string)
    ensures m - {k} == map[] <==> m.Keys <= {k}
  {
    if m.Keys <= {k} {
      assert (m - {k}).Keys == {};
    } else {
      var x :| x in m && x != k;
      assert x in m - {k};
    }
  }

  /** The members are written in strictly ascending key order, none of them
      is `__name__`, and they carry exactly the other labels' values. */
  lemma TagsMembers(labels: seq<Label>)
    ensures DecodeObject(TagsFromMetric(labels)).Some?
    ensures StrictlySorted(DecodeObject(TagsFromMetric(labels)).value)
    ensures MetricNameLabel !in Names(DecodeObject(TagsFromMetric(labels)).value)
    ensures ToMap(DecodeObject(TagsFromMetric(labels)).value) == ToMap(labels) - {MetricNameLabel}
  {
    var ms := Canon(WithoutName(labels));
    DecodeEncode(ms);
    WithoutNameMap(labels);
    ToMapKeys(ms);
  }

  /** The column depends only on the label map, not on the order or the
      repetitions of the received labels. */
  lemma TagsDependOnlyOnMetric(a: seq<Label>, b: seq<Label>)
    ensures TagsFromMetric(a) == TagsFromMetric(b) <==> ToMap(a) - {MetricNameLabel} == ToMap(b) - {MetricNameLabel}
  {
    WithoutNameMap(a);
    WithoutNameMap(b);
    CanonDeterminedByMap(WithoutName(a), WithoutName(b));
    if TagsFromMetric(a) == TagsFromMetric(b) {
      DecodeEncode(Canon(WithoutName(a)));
      DecodeEncode(Canon(WithoutName(b)));
    }
  }

  /** `model.Time(ms).Unix()`: Go's integer division, which truncates
      toward zero. */
  function UnixSeconds(ms: int): (s: int)
    ensures ms >= 0 ==> 0 <= ms - s * 1000 < 1000
    ensures ms < 0 ==> 0 <= s * 1000 - ms < 1000
  {
    if ms >= 0 then ms / 1000 else -((-ms) / 1000)
  }

  /** Whole seconds survive the conversion exactly. */
  lemma UnixSecondsExact(ms: int)
    requires ms % 1000 == 0
    ensures UnixSeconds(ms) * 1000 == ms
  {
  }

  /** The row a sample becomes, or nothing for NaN and the infinities. */
  function EncodeSample(metric: LabelMap, tags: string, s: Sample): (r: Option<Item>)
    ensures r.Some? <==> s.value.Finite?
  {
    match s.value
    case Finite(v) => Some(Item(v, MetricName(metric), UnixSeconds(s.timestamp), tags))
    case _ => None
  }
}
