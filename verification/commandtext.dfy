/** What the generated query text says: reading it back with the literal
    lexer recovers, for every matcher, the condition the translation intends.
    With the corrected quoting this holds for every query and makes the
    translation injective; with the source's quoting it holds only for values
    free of the characters it fails to escape, and `LabelValueInjection`
    shows two different queries that print the same text. */
module CommandText {
  import opened Wrappers
  import opened Text
  import opened Labels
  import opened Prom
  import opened SqlText
  import opened Translator

  // ------------------------------------------------- literals and columns

  /** The literal's text reads as one whole literal. */
  predicate LitOk(l: Lit)
  {
    ReadLiteral(LitText(l)).Some? && ReadLiteral(LitText(l)).value.1 == ""
  }

  /** The value the warehouse sees for a literal. */
  function LitValue(l: Lit): string
    requires LitOk(l)
  {
    ReadLiteral(LitText(l)).value.0
  }

  predicate ColumnOk(c: Column)
  {
    match c
    case MetricColumn => true
    case TagColumn(p, f) => LitOk(p) && LitOk(f)
  }

  function TargetOf(c: Column): Target
    requires ColumnOk(c)
  {
    match c
    case MetricColumn => MetricNameTarget
    case TagColumn(p, f) => TagTarget(LitValue(p), LitValue(f))
  }

  predicate CondOk(c: Cond)
  {
    ColumnOk(c.column) && LitOk(c.operand)
  }

  /** What a printed condition means to the warehouse. */
  function Meaning(c: Cond): Predicate
    requires CondOk(c)
  {
    Predicate(c.op, TargetOf(c.column), LitValue(c.operand))
  }

  // ------------------------------------------------------- text algebra

  lemma ExpectConcat(p: string, t: string)
    ensures Expect(p + t, p) == Some(t)
  {
    PrefixOfConcat(p, t);
  }

  lemma NotPrefix(s: string, p: string)
    requires |p| > 0 && |s| > 0 && s[0] != p[0]
    ensures !HasPrefix(s, p)
  {
  }

  lemma ReadLit(l: Lit, t: string)
    requires LitOk(l)
    ensures ReadLiteral(LitText(l) + t) == Some((LitValue(l), t))
  {
    ReadLiteralExtend(LitText(l), t);
    assert "" + t == t;
  }

  lemma ColumnHead(c: Column, t: string)
    ensures |ColumnText(c) + t| > 0
    ensures (ColumnText(c) + t)[0] == (if c.MetricColumn? then 'm' else 'I')
  {
  }

  lemma ParseColumnText(c: Column, t: string)
    requires ColumnOk(c)
    ensures ParseColumn(ColumnText(c) + t) == Some((TargetOf(c), t))
  {
    match c
    case MetricColumn =>
      ExpectConcat("metricname", t);
    case TagColumn(p, f) =>
      var s := ColumnText(c) + t;
      var open := "IFNULL(JSON_EXTRACT(tags, ";
      var r4 := ")" + t;
      var r3 := LitText(f) + r4;
      var r2 := "), " + r3;
      var r1 := LitText(p) + r2;
      assert s == open + r1;
      ColumnHead(c, t);
      NotPrefix(s, "metricname");
      ExpectConcat(open, r1);
      ReadLit(p, r2);
      ExpectConcat("), ", r3);
      ReadLit(f, r4);
      ExpectConcat(")", t);
  }

  lemma ParseRegexSteps(s: string, r1: string, r2: string, r3: string, r4: string, tg: Target, v: string, t: string)
    requires Expect(s, "REGEXP_CONTAINS(") == Some(r1) && ParseColumn(r1) == Some((tg, r2))
    requires Expect(r2, ", ") == Some(r3) && ReadLiteral(r3) == Some((v, r4)) && Expect(r4, ")") == Some(t)
    ensures ParseRegex(s) == Some((tg, v, t))
  {
  }

  lemma RegexTextSplit(col: Column, pattern: Lit, t: string)
    ensures RegexText(col, pattern) + t == "REGEXP_CONTAINS(" + (ColumnText(col) + (", " + (LitText(pattern) + (")" + t))))
  {
  }

  lemma ParseRegexText(col: Column, pattern: Lit, t: string)
    requires ColumnOk(col) && LitOk(pattern)
    ensures ParseRegex(RegexText(col, pattern) + t) == Some((TargetOf(col), LitValue(pattern), t))
  {
    var r4 := ")" + t;
    var r3 := LitText(pattern) + r4;
    var r2 := ", " + r3;
    var r1 := ColumnText(col) + r2;
    var s := RegexText(col, pattern) + t;
    RegexTextSplit(col, pattern, t);
    ExpectConcat("REGEXP_CONTAINS(", r1);
    ParseColumnText(col, r2);
    ExpectConcat(", ", r3);
    ReadLit(pattern, r4);
    ExpectConcat(")", t);
    ParseRegexSteps(s, r1, r2, r3, r4, TargetOf(col), LitValue(pattern), t);
  }

  lemma ParseOperatorText(op: Op, t: string)
    requires op == Eq || op == Neq
    ensures ParseOperator((if op == Eq then " = " else " != ") + t) == Some((op, t))
  {
    if op == Eq {
      ExpectConcat(" = ", t);
    } else {
      var s := " != " + t;
      assert s[1] == '!';
      NotPrefixAt(s, " = ", 1);
      ExpectConcat(" != ", t);
    }
  }

  lemma NotPrefixAt(s: string, p: string, i: int)
    requires 0 <= i < |p| && i < |s| && s[i] != p[i]
    ensures !HasPrefix(s, p)
  {
  }

  lemma ParseCompareText(c: Cond, t: string)
    requires CondOk(c) && (c.op == Eq || c.op == Neq)
    ensures ParseCompare(CondText(c) + t) == Some((Meaning(c), t))
  {
    var opText := if c.op == Eq then " = " else " != ";
    var r2 := LitText(c.operand) + t;
    var r1 := opText + r2;
    assert CondText(c) + t == ColumnText(c.column) + r1;
    ParseColumnText(c.column, r1);
    ParseOperatorText(c.op, r2);
    ReadLit(c.operand, t);
  }

  lemma CompareIsNotRegex(c: Cond, t: string)
    requires CondOk(c) && (c.op == Eq || c.op == Neq)
    ensures ParseCondition(CondText(c) + t) == Some((Meaning(c), t))
  {
    var s := CondText(c) + t;
    var rest := (if c.op == Eq then " = " else " != ") + LitText(c.operand) + t;
    assert s == ColumnText(c.column) + rest;
    ColumnHead(c.column, rest);
    NotPrefix(s, "not ");
    NotPrefix(s, "REGEXP_CONTAINS(");
    ParseCompareText(c, t);
  }

  /** A printed condition reads back as its meaning, and reading stops
      exactly at its end. */
  lemma ParseConditionText(c: Cond, t: string)
    requires CondOk(c)
    ensures ParseCondition(CondText(c) + t) == Some((Meaning(c), t))
  {
    var s := CondText(c) + t;
    match c.op
    case Eq => CompareIsNotRegex(c, t);
    case Neq => CompareIsNotRegex(c, t);
    case Re =>
      assert s == RegexText(c.column, c.operand) + t;
      NotPrefix(s, "not ");
      ExpectConcat("REGEXP_CONTAINS(", ColumnText(c.column) + ", " + LitText(c.operand) + ")" + t);
      ParseRegexText(c.column, c.operand, t);
    case Nre =>
      assert s == "not " + (RegexText(c.column, c.operand) + t);
      ExpectConcat("not ", RegexText(c.column, c.operand) + t);
      ParseRegexText(c.column, c.operand, t);
  }

  // ------------------------------------------------------ the WHERE clause

  function Meanings(cs: seq<Cond>): (r: seq<Predicate>)
    requires forall i :: 0 <= i < |cs| ==> CondOk(cs[i])
    ensures |r| == |cs|
  {
    if |cs| == 0 then [] else [Meaning(cs[0])] + Meanings(cs[1..])
  }

  lemma BoundsText(a: int, b: int)
    ensures Join(Bounds(a, b), And)
      == LowerBound + (IntToString(a) + (")" + (And + (UpperBound + (IntToString(b) + ")")))))
  {
  }

  lemma ParseBoundsText(a: int, b: int)
    ensures ParseBounds(Join(Bounds(a, b), And)) == Some((a, b))
  {
    var r5 := IntToString(b) + ")";
    var r4 := UpperBound + r5;
    var r3 := And + r4;
    var r2 := IntToString(a) + (")" + r3);
    BoundsText(a, b);
    ExpectConcat(LowerBound, r2);
    ParseIntToString(a, ")" + r3);
    ExpectConcat(")", r3);
    ExpectConcat(And, r4);
    ExpectConcat(UpperBound, r5);
    ParseIntToString(b, ")");
  }

  lemma CondNotBound(c: Cond, t: string)
    ensures !HasPrefix(CondText(c) + t, LowerBound)
  {
    var s := CondText(c) + t;
    if c.op == Eq {
      assert s == ColumnText(c.column) + (" = " + LitText(c.operand) + t);
      ColumnHead(c.column, " = " + LitText(c.operand) + t);
    } else if c.op == Neq {
      assert s == ColumnText(c.column) + (" != " + LitText(c.operand) + t);
      ColumnHead(c.column, " != " + LitText(c.operand) + t);
    }
    NotPrefix(s, LowerBound);
  }

  lemma ParseWhereBounds(a: int, b: int)
    ensures ParseWhere(Join(Bounds(a, b), And)) == Some(([], a, b))
  {
    BoundsText(a, b);
    PrefixOfConcat(LowerBound, IntToString(a) + (")" + (And + (UpperBound + (IntToString(b) + ")")))));
    ParseBoundsText(a, b);
  }

  lemma ParseWhereStep(c: Cond, rest: string, ps: seq<Predicate>, a: int, b: int)
    requires CondOk(c)
    requires ParseWhere(rest) == Some((ps, a, b))
    ensures ParseWhere(CondText(c) + (And + rest)) == Some(([Meaning(c)] + ps, a, b))
  {
    CondNotBound(c, And + rest);
    ParseConditionText(c, And + rest);
    ExpectConcat(And, rest);
  }

  /** The WHERE clause reads back as the meanings of its conditions, in
      order, and the two bounds. */
  lemma {:induction false} ParseWhereText(cs: seq<Cond>, a: int, b: int)
    requires forall i :: 0 <= i < |cs| ==> CondOk(cs[i])
    ensures ParseWhere(Join(Texts(cs) + Bounds(a, b), And)) == Some((Meanings(cs), a, b))
  {
    var parts := Texts(cs) + Bounds(a, b);
    if |cs| == 0 {
      assert parts == Bounds(a, b);
      ParseWhereBounds(a, b);
    } else {
      var tailParts := Texts(cs[1..]) + Bounds(a, b);
      assert parts[1..] == tailParts;
      var rest := Join(tailParts, And);
      assert Join(parts, And) == CondText(cs[0]) + (And + rest);
      ParseWhereText(cs[1..], a, b);
      ParseWhereStep(cs[0], rest, Meanings(cs[1..]), a, b);
    }
  }

  // ------------------------------------------------- the whole command

  lemma ParseCommandText(dataset: string, table: string, w: string)
    ensures ParseCommand(dataset, table, Head(dataset, table) + w + Tail) == ParseWhere(w)
  {
    var h := Head(dataset, table);
    var s := h + w + Tail;
    assert s[..|h|] == h;
    assert s[|s| - |Tail|..] == Tail;
    assert s[|h|..|s| - |Tail|] == w;
  }

  // ------------------------------------------- what the translation means

  /** The condition a matcher is meant to become. A metric-name matcher
      compares the `metricname` column with the value; any other matcher
      compares the JSON text found at `$.<name>` in `tags` (`""` when absent)
      with the value in double quotes. As written, a metric-name pattern
      reaches the regular-expression engine with its slashes escaped. For a
      pattern with no backslash, which is what `SafeAsWritten` admits, RE2
      reads each escaped slash as a plain slash. */
  function Intended(q: Quoting, m: Matcher): Predicate
    requires KnownKind(m.kind)
  {
    var op := OpOf(m.kind).value;
    if m.name == MetricNameLabel then
      Predicate(op, MetricNameTarget, if q == AsWritten && (op == Re || op == Nre) then EscapeSlashes(m.value) else m.value)
    else
      Predicate(op, TagTarget("$." + m.name, "\"\""), "\"" + m.value + "\"")
  }

  function Intendeds(q: Quoting, ms: seq<Matcher>): (r: seq<Predicate>)
    requires forall i :: 0 <= i < |ms| ==> KnownKind(ms[i].kind)
    ensures |r| == |ms|
  {
    if |ms| == 0 then [] else [Intended(q, ms[0])] + Intendeds(q, ms[1..])
  }

  /** The matchers the source's quoting handles: values it escapes enough,
      and spliced names and values with nothing to escape. */
  predicate SafeAsWritten(m: Matcher)
  {
    if m.name == MetricNameLabel then
      if m.kind == EQ || m.kind == NEQ then NoBackslashOrBreak(m.value) else Plain(m.value)
    else Plain(m.name) && Plain(m.value)
  }

  lemma QuotedLit(v: string)
    ensures LitOk(Lit(false, EscapeLiteral(v))) && LitValue(Lit(false, EscapeLiteral(v))) == v
  {
    var s := LitText(Lit(false, EscapeLiteral(v)));
    assert s[1..] == EscapeLiteral(v) + "'" + "";
    ReadEscapeLiteral(v, "");
  }

  lemma PlainLit(v: string)
    requires Plain(v)
    ensures LitOk(Lit(false, v)) && LitValue(Lit(false, v)) == v
  {
    EscapeLiteralPlain(v);
    QuotedLit(v);
  }

  lemma RawLit(b: string)
    requires RawSafe(b)
    ensures LitOk(Lit(true, b)) && LitValue(Lit(true, b)) == b
  {
    var s := LitText(Lit(true, b));
    assert s[2..] == b + "'" + "";
    ReadRawSafe(b, "");
  }

  lemma JsonQuotedPlain(v: string)
    requires Plain(v)
    ensures Plain("\"" + v + "\"")
  {
    PlainConcat("\"", v);
    PlainConcat("\"" + v, "\"");
  }

  lemma TranslateNameMeaning(q: Quoting, m: Matcher)
    requires KnownKind(m.kind) && m.name == MetricNameLabel
    requires q == AsWritten ==> SafeAsWritten(m)
    ensures CondOk(Translate(q, m).value) && Meaning(Translate(q, m).value) == Intended(q, m)
  {
    var c := Translate(q, m).value;
    if q == Escaped {
      QuotedLit(m.value);
    } else if m.kind == EQ || m.kind == NEQ {
      EscapeSingleQuotesAgrees(m.value);
      QuotedLit(m.value);
    } else {
      EscapeSlashesRawSafe(m.value);
      RawLit(EscapeSlashes(m.value));
    }
  }

  lemma TranslateLabelMeaning(q: Quoting, m: Matcher)
    requires KnownKind(m.kind) && m.name != MetricNameLabel
    requires q == AsWritten ==> SafeAsWritten(m)
    ensures CondOk(Translate(q, m).value) && Meaning(Translate(q, m).value) == Intended(q, m)
  {
    var c := Translate(q, m).value;
    var path := "$." + m.name;
    var jsonValue := "\"" + m.value + "\"";
    assert Plain("\"\"");
    PlainLit("\"\"");
    if q == Escaped {
      QuotedLit(path);
      QuotedLit(jsonValue);
    } else {
      assert Plain("$.");
      PlainConcat("$.", m.name);
      PlainLit(path);
      JsonQuotedPlain(m.value);
      if m.kind == EQ || m.kind == NEQ {
        PlainLit(jsonValue);
      } else {
        PlainRawSafe(jsonValue, "");
        assert jsonValue + "" == jsonValue;
        RawLit(jsonValue);
      }
    }
  }

  /** Each printed condition is well formed and means what it is meant to. */
  lemma TranslateMeaning(q: Quoting, m: Matcher)
    requires KnownKind(m.kind)
    requires q == AsWritten ==> SafeAsWritten(m)
    ensures CondOk(Translate(q, m).value) && Meaning(Translate(q, m).value) == Intended(q, m)
  {
    if m.name == MetricNameLabel {
      TranslateNameMeaning(q, m);
    } else {
      TranslateLabelMeaning(q, m);
    }
  }

  lemma {:induction false} CondsMeaning(q: Quoting, ms: seq<Matcher>)
    requires Conds(q, ms).Ok?
    requires q == AsWritten ==> forall i :: 0 <= i < |ms| ==> SafeAsWritten(ms[i])
    ensures forall i :: 0 <= i < |ms| ==> CondOk(Conds(q, ms).value[i])
    ensures Meanings(Conds(q, ms).value) == Intendeds(q, ms)
  {
    var cs := Conds(q, ms).value;
    forall i | 0 <= i < |ms| ensures CondOk(cs[i]) && Meaning(cs[i]) == Intended(q, ms[i]) {
      TranslateMeaning(q, ms[i]);
    }
    if |ms| > 0 {
      CondsMeaning(q, ms[1..]);
      assert Conds(q, ms[1..]).value == cs[1..];
    }
  }

  /** Reading a generated command back gives, for every matcher in order,
      the condition it is meant to become, and the two bounds. With the
      corrected quoting this holds for every query; as written, for queries
      whose matchers are `SafeAsWritten`. */
  lemma CommandRoundTrip(q: Quoting, dataset: string, table: string, query: Query)
    requires BuildCommand(q, dataset, table, query).Ok?
    requires q == AsWritten ==> forall i :: 0 <= i < |query.matchers| ==> SafeAsWritten(query.matchers[i])
    ensures ParseCommand(dataset, table, BuildCommand(q, dataset, table, query).value)
      == Some((Intendeds(q, query.matchers), query.startMs, query.endMs))
  {
    var cs := Conds(q, query.matchers).value;
    assert BuildCommand(q, dataset, table, query).value
      == Head(dataset, table) + Join(Texts(cs) + Bounds(query.startMs, query.endMs), And) + Tail;
    CondsMeaning(q, query.matchers);
    ParseConds(dataset, table, cs, query.startMs, query.endMs);
  }

  lemma ParseConds(dataset: string, table: string, cs: seq<Cond>, a: int, b: int)
    requires forall i :: 0 <= i < |cs| ==> CondOk(cs[i])
    ensures ParseCommand(dataset, table, Head(dataset, table) + Join(Texts(cs) + Bounds(a, b), And) + Tail)
      == Some((Meanings(cs), a, b))
  {
    ParseWhereText(cs, a, b);
    ParseCommandText(dataset, table, Join(Texts(cs) + Bounds(a, b), And));
  }

  // ------------------------------------------------------- injectivity

  lemma IntendedInjective(m1: Matcher, m2: Matcher)
    requires KnownKind(m1.kind) && KnownKind(m2.kind)
    requires Intended(Escaped, m1) == Intended(Escaped, m2)
    ensures m1 == m2
  {
    if m1.name != MetricNameLabel {
      assert ("$." + m1.name)[2..] == m1.name;
      assert ("$." + m2.name)[2..] == m2.name;
      var j1 := "\"" + m1.value + "\"";
      var j2 := "\"" + m2.value + "\"";
      assert j1[1..|j1| - 1] == m1.value;
      assert j2[1..|j2| - 1] == m2.value;
    }
  }

  lemma {:induction false} IntendedsInjective(ms1: seq<Matcher>, ms2: seq<Matcher>)
    requires forall i :: 0 <= i < |ms1| ==> KnownKind(ms1[i].kind)
    requires forall i :: 0 <= i < |ms2| ==> KnownKind(ms2[i].kind)
    requires Intendeds(Escaped, ms1) == Intendeds(Escaped, ms2)
    ensures ms1 == ms2
  {
    if |ms1| > 0 {
      var r1 := Intendeds(Escaped, ms1);
      var r2 := Intendeds(Escaped, ms2);
      assert r1[0] == r2[0] && r1[1..] == r2[1..];
      IntendedInjective(ms1[0], ms2[0]);
      IntendedsInjective(ms1[1..], ms2[1..]);
      assert ms1 == [ms1[0]] + ms1[1..];
      assert ms2 == [ms2[0]] + ms2[1..];
    }
  }

  /** With the corrected quoting, different queries never print the same
      command. */
  lemma EscapedInjective(dataset: string, table: string, q1: Query, q2: Query)
    requires BuildCommand(Escaped, dataset, table, q1).Ok?
    requires BuildCommand(Escaped, dataset, table, q1) == BuildCommand(Escaped, dataset, table, q2)
    ensures q1 == q2
  {
    CommandRoundTrip(Escaped, dataset, table, q1);
    CommandRoundTrip(Escaped, dataset, table, q2);
    IntendedsInjective(q1.matchers, q2.matchers);
  }

  // ---------------------------------------------------- label injection

  /** The source splices label values unescaped: a value carrying a quote
      can close the literal and append a condition of its own, so one
      matcher prints the same command as two. */
  lemma LabelValueInjection(a: string, b: string, c: string, d: string, dataset: string, table: string, s: int, e: int)
    requires a != MetricNameLabel && c != MetricNameLabel
    ensures var injected := b + "\"' AND " + ColumnText(TagColumn(Lit(false, "$." + c), Lit(false, "\"\""))) + " = '\"" + d;
      BuildCommand(AsWritten, dataset, table, Query(s, e, [Matcher(EQ, a, injected)]))
      == BuildCommand(AsWritten, dataset, table, Query(s, e, [Matcher(EQ, a, b), Matcher(EQ, c, d)]))
  {
    var colC := ColumnText(TagColumn(Lit(false, "$." + c), Lit(false, "\"\"")));
    var injected := b + "\"' AND " + colC + " = '\"" + d;
    var m1, m2, m3 := Matcher(EQ, a, injected), Matcher(EQ, a, b), Matcher(EQ, c, d);
    var t1 := LabelEqText(m1);
    var t2 := LabelEqText(m2);
    var t3 := LabelEqText(m3);
    InjectionText(ColumnText(TagColumn(Lit(false, "$." + a), Lit(false, "\"\""))), colC, b, d);
    assert t1 == t2 + And + t3;
    var r := Conds(AsWritten, [m2, m3]);
    assert KnownKind([m2, m3][0].kind) && KnownKind([m2, m3][1].kind);
    assert r.Ok? && |r.value| == 2;
    assert Translate(AsWritten, [m2, m3][0]) == Ok(r.value[0]);
    assert Translate(AsWritten, [m2, m3][1]) == Ok(r.value[1]);
    assert r.value == [Translate(AsWritten, m2).value, Translate(AsWritten, m3).value];
    assert Texts(Conds(AsWritten, [m2, m3]).value) == [t2, t3];
    assert Texts(Conds(AsWritten, [m1]).value) == [t1];
    JoinInjection(t2, t3, Bounds(s, e));
  }

  /** The printed text of a label equality, as written. */
  function LabelEqText(m: Matcher): (r: string)
    requires m.name != MetricNameLabel && m.kind == EQ
    ensures Conds(AsWritten, [m]) == Ok([Translate(AsWritten, m).value])
    ensures Texts([Translate(AsWritten, m).value]) == [r]
    ensures r == ColumnText(TagColumn(Lit(false, "$." + m.name), Lit(false, "\"\""))) + " = " + ("'" + ("\"" + m.value + "\"") + "'")
  {
    assert [m][1..] == [];
    var c := Translate(AsWritten, m).value;
    assert c == Cond(Eq, TagColumn(Lit(false, "$." + m.name), Lit(false, "\"\"")), Lit(false, "\"" + m.value + "\""));
    var r := Conds(AsWritten, [m]);
    assert KnownKind([m][0].kind);
    assert r.Ok? && |r.value| == 1 && Translate(AsWritten, [m][0]) == Ok(r.value[0]);
    assert r.value == [c];
    assert Texts([c]) == [CondText(c)];
    assert LitText(c.operand) == "'" + ("\"" + m.value + "\"") + "'";
    CondText(c)
  }

  lemma JoinInjection(t2: string, t3: string, bounds: seq<string>)
    requires |bounds| == 2
    ensures Join([t2 + And + t3] + bounds, And) == Join([t2, t3] + bounds, And)
  {
    assert ([t2, t3] + bounds)[1..] == [t3] + bounds;
  }

  lemma InjectionText(colA: string, colC: string, b: string, d: string)
    ensures colA + " = " + ("'" + ("\"" + (b + "\"' AND " + colC + " = '\"" + d) + "\"") + "'")
      == colA + " = " + ("'" + ("\"" + b + "\"") + "'") + " AND " + (colC + " = " + ("'" + ("\"" + d + "\"") + "'"))
  {
    assert "\"' AND " == "\"" + "'" + " AND ";
    assert " = '\"" == " = " + "'" + "\"";
  }
}
