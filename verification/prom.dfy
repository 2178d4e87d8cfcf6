/** The Prometheus remote-storage messages the adapter consumes and produces
    (`prompb.TimeSeries`, `prompb.Query`, ...) and the BigQuery row shapes it
    writes and reads. */
module Prom {
  import opened Labels

  /** A sample value. Floating-point arithmetic is not modelled: a finite
      value is a real, and the three non-finite cases are told apart. */
  datatype Value = Finite(r: real) | NaN | PosInf | NegInf

  /** `prompb.Sample`: a timestamp in milliseconds since the epoch and a value. */
  datatype Sample = Sample(timestamp: int, value: Value)

  /** `prompb.TimeSeries`: a label list as received (order and duplicates
      preserved) and its samples. */
  datatype TimeSeries = TimeSeries(labels: seq<Label>, samples: seq<Sample>)

  /** The `Item` written to the table: `timestamp` is in whole seconds. */
  datatype Item = Item(value: real, metricname: string, timestamp: int, tags: string)

  /** Wire codes of `prompb.LabelMatcher_Type`. Any other code can arrive
      in a decoded message and is rejected by the translator. */
  const EQ: int := 0
  const NEQ: int := 1
  const RE: int := 2
  const NRE: int := 3

  predicate KnownKind(kind: int)
  {
    kind == EQ || kind == NEQ || kind == RE || kind == NRE
  }

  /** `prompb.LabelMatcher`. */
  datatype Matcher = Matcher(kind: int, name: string, value: string)

  /** `prompb.Query`: inclusive bounds in milliseconds and the matchers. */
  datatype Query = Query(startMs: int, endMs: int, matchers: seq<Matcher>)

  datatype ReadRequest = ReadRequest(queries: seq<Query>)

  datatype QueryResult = QueryResult(timeseries: seq<TimeSeries>)

  datatype ReadResponse = ReadResponse(results: seq<QueryResult>)

  /** A row of the query result: `timestamp` is `UNIX_MILLIS(timestamp)`. */
  datatype Row = Row(metricname: string, tags: string, timestamp: int, value: Value)

  /** What the warehouse answers to one query text: the rows, or the
      failure it reported. */
  datatype Answer = Rows(rows: seq<Row>) | Failed(message: string)

  /** The errors the translation engine reports. */
  datatype Error =
    | UnknownMatchType(kind: int)
    | MalformedTags(tags: string)
    | WarehouseError(message: string)
}
