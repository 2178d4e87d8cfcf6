/** `buildCommand` (bigquerydb/client.go): a remote-read query becomes one
    SQL text. Each matcher becomes a condition on the `metricname` column or
    on a key of the `tags` JSON, and two timestamp bounds are added.

    A condition is built as a small syntax tree (`Cond`) and printed by
    `CondText`; with `AsWritten` quoting the printed text is what the
    source's format strings produce. `Escaped` quoting is the corrected
    translation: every value goes through `EscapeLiteral`. A parser
    for the generated text (`ParseCommand`) reads the conditions back through
    the literal lexer of `SqlText`, which is how the round-trip and the
    injection properties are stated. */
module Translator {
  import opened Wrappers
  import opened Text
  import opened Labels
  import opened Prom
  import opened SqlText

  datatype Quoting = AsWritten | Escaped

  datatype Op = Eq | Neq | Re | Nre

  function OpOf(kind: int): (r: Option<Op>)
    ensures r.Some? <==> KnownKind(kind)
  {
    if kind == EQ then Some(Eq)
    else if kind == NEQ then Some(Neq)
    else if kind == RE then Some(Re)
    else if kind == NRE then Some(Nre)
    else None
  }

  // ------------------------------------------------------ the text built

  /** A string literal in the query text: its body between the quotes, and
      whether it is raw (`r'...'`). */
  datatype Lit = Lit(raw: bool, body: string)

  datatype Column = MetricColumn | TagColumn(path: Lit, fallback: Lit)

  datatype Cond = Cond(op: Op, column: Column, operand: Lit)

  function LitText(l: Lit): string
  {
    (if l.raw then "r'" else "'") + l.body + "'"
  }

  function ColumnText(c: Column): string
  {
    match c
    case MetricColumn => "metricname"
    case TagColumn(p, f) => "IFNULL(JSON_EXTRACT(tags, " + LitText(p) + "), " + LitText(f) + ")"
  }

  function RegexText(column: Column, pattern: Lit): string
  {
    "REGEXP_CONTAINS(" + ColumnText(column) + ", " + LitText(pattern) + ")"
  }

  /** The printed condition. With `AsWritten` quoting these are the format
      strings of `buildCommand`: `metricname = '%s'`,
      `REGEXP_CONTAINS(metricname, r'%s')`,
      `IFNULL(JSON_EXTRACT(tags, '$.%s'), '""') != '"%s"'`, and so on. */
  function CondText(c: Cond): string
  {
    match c.op
    case Eq => ColumnText(c.column) + " = " + LitText(c.operand)
    case Neq => ColumnText(c.column) + " != " + LitText(c.operand)
    case Re => RegexText(c.column, c.operand)
    case Nre => "not " + RegexText(c.column, c.operand)
  }

  /** A quoted literal holding `v`. */
  function Quoted(q: Quoting, v: string): Lit
  {
    match q
    case AsWritten => Lit(false, EscapeSingleQuotes(v))
    case Escaped => Lit(false, EscapeLiteral(v))
  }

  /** A literal holding the text `v` verbatim: as written it is spliced in
      unescaped. */
  function Spliced(q: Quoting, v: string): Lit
  {
    match q
    case AsWritten => Lit(false, v)
    case Escaped => Lit(false, EscapeLiteral(v))
  }

  /** The regular-expression literal: as written a raw literal with slashes
      escaped (metric names) or spliced (labels). */
  function Pattern(q: Quoting, isName: bool, v: string): Lit
  {
    match q
    case AsWritten => Lit(true, if isName then EscapeSlashes(v) else v)
    case Escaped => Lit(false, EscapeLiteral(v))
  }

  /** The condition for one matcher, or the error for an unknown type. */
  function Translate(q: Quoting, m: Matcher): (r: Result<Cond, Error>)
    ensures r.Err? <==> !KnownKind(m.kind)
    ensures r.Err? ==> r.error == UnknownMatchType(m.kind)
  {
    match OpOf(m.kind)
    case None => Err(UnknownMatchType(m.kind))
    case Some(op) =>
      if m.name == MetricNameLabel then
        var operand := if op == Eq || op == Neq then Quoted(q, m.value) else Pattern(q, true, m.value);
        Ok(Cond(op, MetricColumn, operand))
      else
        var column := TagColumn(Spliced(q, "$." + m.name), Lit(false, "\"\""));
        var jsonValue := "\"" + m.value + "\"";
        var operand := if op == Eq || op == Neq then Spliced(q, jsonValue) else Pattern(q, false, jsonValue);
        Ok(Cond(op, column, operand))
  }

  /** The text `buildCommand`'s format strings print for a matcher of a
      known type: the metric name escaped, label names and values spliced. */
  function FormatText(m: Matcher): string
    requires KnownKind(m.kind)
  {
    var v := m.value;
    if m.name == MetricNameLabel then
      if m.kind == EQ then "metricname = '" + EscapeSingleQuotes(v) + "'"
      else if m.kind == NEQ then "metricname != '" + EscapeSingleQuotes(v) + "'"
      else if m.kind == RE then "REGEXP_CONTAINS(metricname, r'" + EscapeSlashes(v) + "')"
      else "not " + "REGEXP_CONTAINS(metricname, r'" + EscapeSlashes(v) + "')"
    else
      var tag := "IFNULL(JSON_EXTRACT(tags, '$." + m.name + "'), '\"\"')";
      if m.kind == EQ then tag + " = '\"" + v + "\"'"
      else if m.kind == NEQ then tag + " != '\"" + v + "\"'"
      else if m.kind == RE then "REGEXP_CONTAINS(" + tag + ", r'\"" + v + "\"')"
      else "not " + "REGEXP_CONTAINS(" + tag + ", r'\"" + v + "\"')"
  }

  /** As written, the printed condition of every matcher of a known type is
      exactly the text of `buildCommand`'s format string for it. */
  lemma AsWrittenText(m: Matcher)
    requires KnownKind(m.kind)
    ensures Translate(AsWritten, m).Ok?
    ensures CondText(Translate(AsWritten, m).value) == FormatText(m)
  {
    if m.name == MetricNameLabel {
      if m.kind == EQ || m.kind == NEQ {
        NameQuotedText(m);
      } else {
        NameRawText(m);
      }
    } else {
      if m.kind == EQ || m.kind == NEQ {
        LabelQuotedText(m);
      } else {
        LabelRawText(m);
      }
    }
  }

  lemma NameQuotedText(m: Matcher)
    requires m.name == MetricNameLabel && (m.kind == EQ || m.kind == NEQ)
    ensures Translate(AsWritten, m).Ok? && CondText(Translate(AsWritten, m).value) == FormatText(m)
  {
    var op := if m.kind == EQ then Eq else Neq;
    var e := EscapeSingleQuotes(m.value);
    assert Translate(AsWritten, m) == Ok(Cond(op, MetricColumn, Lit(false, e)));
    QuotedCondText(op, MetricColumn, e);
    assert "metricname" + (if op == Eq then " = '" else " != '")
      == (if op == Eq then "metricname = '" else "metricname != '");
  }

  lemma NameRawText(m: Matcher)
    requires m.name == MetricNameLabel && (m.kind == RE || m.kind == NRE)
    ensures Translate(AsWritten, m).Ok? && CondText(Translate(AsWritten, m).value) == FormatText(m)
  {
    var p := EscapeSlashes(m.value);
    NameRegexText(p);
    if m.kind == RE {
      assert Translate(AsWritten, m) == Ok(Cond(Re, MetricColumn, Lit(true, p)));
    } else {
      assert Translate(AsWritten, m) == Ok(Cond(Nre, MetricColumn, Lit(true, p)));
      NotNameRegexText(p);
    }
  }

  lemma NameRegexText(p: string)
    ensures RegexText(MetricColumn, Lit(true, p)) == "REGEXP_CONTAINS(metricname, r'" + p + "')"
  {
    RegexLitText(MetricColumn, p);
    assert "REGEXP_CONTAINS(" + "metricname" + ", r'" == "REGEXP_CONTAINS(metricname, r'";
  }

  lemma NotNameRegexText(p: string)
    ensures "not " + ("REGEXP_CONTAINS(metricname, r'" + p + "')") == "not " + "REGEXP_CONTAINS(metricname, r'" + p + "')"
  {
    PrefixNot("REGEXP_CONTAINS(metricname, r'" + p, "')");
    PrefixNot("REGEXP_CONTAINS(metricname, r'", p);
  }

  lemma LabelQuotedText(m: Matcher)
    requires m.name != MetricNameLabel && (m.kind == EQ || m.kind == NEQ)
    ensures Translate(AsWritten, m).Ok? && CondText(Translate(AsWritten, m).value) == FormatText(m)
  {
    var op := if m.kind == EQ then Eq else Neq;
    var column := TagColumn(Lit(false, "$." + m.name), Lit(false, "\"\""));
    var tag := "IFNULL(JSON_EXTRACT(tags, '$." + m.name + "'), '\"\"')";
    var json := "\"" + m.value + "\"";
    assert Translate(AsWritten, m) == Ok(Cond(op, column, Lit(false, json)));
    TagColumnText(m.name);
    QuotedCondText(op, column, json);
    JsonOperand(tag + (if op == Eq then " = '" else " != '"), m.value, "'");
  }

  lemma LabelRawText(m: Matcher)
    requires m.name != MetricNameLabel && (m.kind == RE || m.kind == NRE)
    ensures Translate(AsWritten, m).Ok? && CondText(Translate(AsWritten, m).value) == FormatText(m)
  {
    var column := TagColumn(Lit(false, "$." + m.name), Lit(false, "\"\""));
    var tag := "IFNULL(JSON_EXTRACT(tags, '$." + m.name + "'), '\"\"')";
    var json := "\"" + m.value + "\"";
    var re := "REGEXP_CONTAINS(" + tag + ", r'\"" + m.value + "\"')";
    assert RegexText(column, Lit(true, json)) == re by {
      TagColumnText(m.name);
      RegexLitText(column, json);
      JsonOperand("REGEXP_CONTAINS(" + tag + ", r'", m.value, "')");
    }
    if m.kind == RE {
      assert Translate(AsWritten, m) == Ok(Cond(Re, column, Lit(true, json)));
    } else {
      assert Translate(AsWritten, m) == Ok(Cond(Nre, column, Lit(true, json)));
      PrefixNot("REGEXP_CONTAINS(" + tag, ", r'\"" + m.value + "\"')");
      PrefixNot("REGEXP_CONTAINS(", tag);
    }
  }

  /** `not` in front of a text is prefixed to its first part. */
  lemma PrefixNot(a: string, b: string)
    ensures "not " + (a + b) == ("not " + a) + b
  {
    ConcatAssoc("not ", a, b);
  }

  lemma RegexLitText(column: Column, p: string)
    ensures RegexText(column, Lit(true, p)) == "REGEXP_CONTAINS(" + ColumnText(column) + ", r'" + p + "')"
  {
    var h := "REGEXP_CONTAINS(" + ColumnText(column);
    var lit := LitText(Lit(true, p));
    assert lit == "r'" + p + "'";
    assert RegexText(column, Lit(true, p)) == h + ", " + lit + ")";
    assert ", " + "r'" == ", r'";
    assert "'" + ")" == "')";
    ConcatAssoc(h, ", ", "r'");
    ConcatAssoc(h + ", ", "r'" + p + "'", ")");
    ConcatAssoc(h + ", ", "r'" + p, "'");
    ConcatAssoc(h + ", ", "r'", p);
    ConcatAssoc(h + ", r'" + p, "'", ")");
  }

  lemma JsonOperand(pre: string, v: string, post: string)
    ensures pre + ("\"" + v + "\"") + post == pre + "\"" + v + ("\"" + post)
  {
    ConcatAssoc(pre, "\"" + v, "\"");
    ConcatAssoc(pre + "\"" + v, "\"", post);
    ConcatAssoc(pre, "\"", v);
  }

  lemma TagColumnText(name: string)
    ensures ColumnText(TagColumn(Lit(false, "$." + name), Lit(false, "\"\"")))
      == "IFNULL(JSON_EXTRACT(tags, '$." + name + "'), '\"\"')"
  {
    var pre := "IFNULL(JSON_EXTRACT(tags, ";
    var path := LitText(Lit(false, "$." + name));
    var fallback := LitText(Lit(false, "\"\""));
    assert path == "'" + ("$." + name) + "'";
    assert fallback == "'\"\"'";
    assert ColumnText(TagColumn(Lit(false, "$." + name), Lit(false, "\"\""))) == pre + path + ("), " + fallback + ")");
    assert "), " + fallback + ")" == "), '\"\"')";
    assert pre + "'" + "$." == "IFNULL(JSON_EXTRACT(tags, '$.";
    ConcatAssoc(pre, "'", "$." + name);
    ConcatAssoc(pre, "'" + ("$." + name), "'");
    ConcatAssoc(pre + "'", "$.", name);
    ConcatAssoc(pre + path, "'", "), '\"\"')");
    assert "'" + "), '\"\"')" == "'), '\"\"')";
    ConcatAssoc(pre + "'" + "$." + name, "'", "), '\"\"')");
  }

  lemma QuotedCondText(op: Op, column: Column, e: string)
    requires op == Eq || op == Neq
    ensures CondText(Cond(op, column, Lit(false, e)))
      == ColumnText(column) + (if op == Eq then " = '" else " != '") + e + "'"
  {
    var c := ColumnText(column);
    var sym := if op == Eq then " = " else " != ";
    assert sym + "'" == (if op == Eq then " = '" else " != '");
    assert CondText(Cond(op, column, Lit(false, e))) == c + sym + ("'" + e + "'");
    ConcatAssoc(c, sym, "'");
    ConcatAssoc(c + sym, "'", e);
    ConcatAssoc(c + sym, "'" + e, "'");
  }

  /** The conditions of all matchers, in matcher order; the first unknown
      type aborts. */
  function Conds(q: Quoting, ms: seq<Matcher>): (r: Result<seq<Cond>, Error>)
    ensures r.Ok? <==> forall i :: 0 <= i < |ms| ==> KnownKind(ms[i].kind)
    ensures r.Ok? ==> |r.value| == |ms| && forall i :: 0 <= i < |ms| ==> Translate(q, ms[i]) == Ok(r.value[i])
    ensures r.Err? ==> exists i :: FirstUnknown(ms, i) && r.error == UnknownMatchType(ms[i].kind)
  {
    if |ms| == 0 then Ok([])
    else
      match Translate(q, ms[0])
      case Err(e) => Err(e)
      case Ok(c) =>
        match Conds(q, ms[1..])
        case Err(e) =>
          ConsErr(ms, e);
          Err(e)
        case Ok(cs) => Ok([c] + cs)
  }

  lemma ConsErr(ms: seq<Matcher>, e: Error)
    requires |ms| > 0 && KnownKind(ms[0].kind)
    requires exists i :: FirstUnknown(ms[1..], i) && e == UnknownMatchType(ms[1..][i].kind)
    ensures exists i :: FirstUnknown(ms, i) && e == UnknownMatchType(ms[i].kind)
  {
    var i :| FirstUnknown(ms[1..], i) && e == UnknownMatchType(ms[1..][i].kind);
    forall j | 0 < j < i + 1 ensures KnownKind(ms[j].kind) {
      assert ms[j] == ms[1..][j - 1];
    }
    assert FirstUnknown(ms, i + 1);
  }

  /** `ms[i]` is the first matcher of an unknown type. */
  predicate FirstUnknown(ms: seq<Matcher>, i: int)
  {
    0 <= i < |ms| && !KnownKind(ms[i].kind) && forall j :: 0 <= j < i ==> KnownKind(ms[j].kind)
  }

  function Texts(cs: seq<Cond>): (r: seq<string>)
    ensures |r| == |cs|
  {
    if |cs| == 0 then [] else [CondText(cs[0])] + Texts(cs[1..])
  }

  const LowerBound: string := "timestamp >= TIMESTAMP_MILLIS("
  const UpperBound: string := "timestamp <= TIMESTAMP_MILLIS("
  const And: string := " AND "

  /** The two inclusive timestamp bounds, printed with `%v`. */
  function Bounds(startMs: int, endMs: int): seq<string>
  {
    [LowerBound + IntToString(startMs) + ")", UpperBound + IntToString(endMs) + ")"]
  }

  function Head(dataset: string, table: string): string
  {
    "SELECT metricname, tags, UNIX_MILLIS(timestamp) as timestamp, value FROM " + dataset + "." + table + " WHERE "
  }

  const Tail: string := " ORDER BY timestamp"

  /** `buildCommand`. */
  function BuildCommand(q: Quoting, dataset: string, table: string, query: Query): (r: Result<string, Error>)
    ensures r.Ok? <==> forall i :: 0 <= i < |query.matchers| ==> KnownKind(query.matchers[i].kind)
    ensures r.Err? ==> exists i :: FirstUnknown(query.matchers, i) && r.error == UnknownMatchType(query.matchers[i].kind)
  {
    var cs :- Conds(q, query.matchers);
    Ok(Head(dataset, table) + Join(Texts(cs) + Bounds(query.startMs, query.endMs), And) + Tail)
  }

  /** The format-string texts of matchers of known types, in order. */
  function FormatTexts(ms: seq<Matcher>): (r: seq<string>)
    requires forall i :: 0 <= i < |ms| ==> KnownKind(ms[i].kind)
    ensures |r| == |ms|
  {
    if |ms| == 0 then [] else [FormatText(ms[0])] + FormatTexts(ms[1..])
  }

  lemma {:induction false} AsWrittenTexts(ms: seq<Matcher>)
    requires forall i :: 0 <= i < |ms| ==> KnownKind(ms[i].kind)
    ensures Texts(Conds(AsWritten, ms).value) == FormatTexts(ms)
  {
    if |ms| > 0 {
      AsWrittenText(ms[0]);
      AsWrittenTexts(ms[1..]);
      var cs := Conds(AsWritten, ms).value;
      assert cs == [Translate(AsWritten, ms[0]).value] + Conds(AsWritten, ms[1..]).value;
      assert cs[1..] == Conds(AsWritten, ms[1..]).value;
    }
  }

  /** As written, the whole command for a query whose matcher types are all
      known: the `SELECT` head, each matcher's format-string text in order,
      then the two bounds, all joined by ` AND `, and the `ORDER BY` tail.
      This holds for every such query, including those whose values the
      source's escaping does not protect. */
  lemma BuildCommandText(dataset: string, table: string, query: Query)
    requires forall i :: 0 <= i < |query.matchers| ==> KnownKind(query.matchers[i].kind)
    ensures var where := Join(FormatTexts(query.matchers) + Bounds(query.startMs, query.endMs), And);
      && BuildCommand(AsWritten, dataset, table, query) == Ok(Head(dataset, table) + where + Tail)
      && (|query.matchers| == 0 ==> where == Join(Bounds(query.startMs, query.endMs), And))
      && (|query.matchers| > 0 ==>
            where == Join(FormatTexts(query.matchers), And) + And + Join(Bounds(query.startMs, query.endMs), And))
  {
    var bounds := Bounds(query.startMs, query.endMs);
    AsWrittenTexts(query.matchers);
    if |query.matchers| == 0 {
      assert FormatTexts(query.matchers) + bounds == bounds;
    } else {
      JoinConcat(FormatTexts(query.matchers), bounds, And);
    }
  }

  // ------------------------------------------------ reading the text back

  /** What a column reference denotes once its literals are read. */
  datatype Target = MetricNameTarget | TagTarget(path: string, fallback: string)

  /** What a condition denotes once its literals are read. */
  datatype Predicate = Predicate(op: Op, target: Target, operand: string)

  function Expect(s: string, p: string): (r: Option<string>)
    ensures r.Some? ==> |r.value| == |s| - |p|
  {
    if HasPrefix(s, p) then Some(s[|p|..]) else None
  }

  function ParseColumn(s: string): (r: Option<(Target, string)>)
    ensures r.Some? ==> |r.value.1| < |s|
  {
    if HasPrefix(s, "metricname") then Some((MetricNameTarget, s[10..]))
    else
      var r1 :- Expect(s, "IFNULL(JSON_EXTRACT(tags, ");
      var (path, r2) :- ReadLiteral(r1);
      var r3 :- Expect(r2, "), ");
      var (fallback, r4) :- ReadLiteral(r3);
      var r5 :- Expect(r4, ")");
      Some((TagTarget(path, fallback), r5))
  }

  function ParseRegex(s: string): (r: Option<(Target, string, string)>)
    ensures r.Some? ==> |r.value.2| < |s|
  {
    var r1 :- Expect(s, "REGEXP_CONTAINS(");
    var (t, r2) :- ParseColumn(r1);
    var r3 :- Expect(r2, ", ");
    var (v, r4) :- ReadLiteral(r3);
    var r5 :- Expect(r4, ")");
    Some((t, v, r5))
  }

  /** Reads ` = ` or ` != `. */
  function ParseOperator(s: string): (r: Option<(Op, string)>)
    ensures r.Some? ==> |r.value.1| < |s|
  {
    if HasPrefix(s, " = ") then Some((Eq, s[3..]))
    else if HasPrefix(s, " != ") then Some((Neq, s[4..]))
    else None
  }

  /** Reads `column = literal` or `column != literal`. */
  function ParseCompare(s: string): (r: Option<(Predicate, string)>)
    ensures r.Some? ==> |r.value.1| < |s|
  {
    var (t, r1) :- ParseColumn(s);
    var (op, r2) :- ParseOperator(r1);
    var (v, rest) :- ReadLiteral(r2);
    Some((Predicate(op, t, v), rest))
  }

  /** Reads one condition from the front of `s`. */
  function ParseCondition(s: string): (r: Option<(Predicate, string)>)
    ensures r.Some? ==> |r.value.1| < |s|
  {
    if HasPrefix(s, "not ") then
      var (t, v, rest) :- ParseRegex(s[4..]);
      Some((Predicate(Nre, t, v), rest))
    else if HasPrefix(s, "REGEXP_CONTAINS(") then
      var (t, v, rest) :- ParseRegex(s);
      Some((Predicate(Re, t, v), rest))
    else
      ParseCompare(s)
  }

  function ParseBounds(s: string): Option<(int, int)>
  {
    var r1 :- Expect(s, LowerBound);
    var (a, r2) :- ParseInt(r1);
    var r3 :- Expect(r2, ")");
    var r4 :- Expect(r3, And);
    var r5 :- Expect(r4, UpperBound);
    var (b, r6) :- ParseInt(r5);
    if r6 == ")" then Some((a, b)) else None
  }

  /** Reads the WHERE clause: conditions joined by ` AND `, then the bounds. */
  function ParseWhere(s: string): Option<(seq<Predicate>, int, int)>
    decreases |s|
  {
    if HasPrefix(s, LowerBound) then
      var (a, b) :- ParseBounds(s);
      Some(([], a, b))
    else
      var (p, r1) :- ParseCondition(s);
      var r2 :- Expect(r1, And);
      var (ps, a, b) :- ParseWhere(r2);
      Some(([p] + ps, a, b))
  }

  function ParseCommand(dataset: string, table: string, s: string): Option<(seq<Predicate>, int, int)>
  {
    var h := Head(dataset, table);
    if |s| >= |h| + |Tail| && s[..|h|] == h && s[|s| - |Tail|..] == Tail then
      ParseWhere(s[|h|..|s| - |Tail|])
    else None
  }
}
