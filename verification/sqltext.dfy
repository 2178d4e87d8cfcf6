/** SQL string literals: the two escaping helpers of bigquerydb/client.go
    (`escapeSingleQuotes`, `escapeSlashes`), a corrected escaper, and a model
    of how GoogleSQL's lexer reads a single-quoted literal `'...'` and a raw
    literal `r'...'` back out of query text. */
module SqlText {
  import opened Wrappers
  import opened Text

  /** `strings.ReplaceAll(s, c, "\\" + c)`. */
  function Escape(s: string, c: char): (r: string)
    ensures |r| == |s| + Count(s, c)
  {
    if |s| == 0 then ""
    else (if s[0] == c then ['\\', c] else [s[0]]) + Escape(s[1..], c)
  }

  /** `escapeSingleQuotes`. */
  function EscapeSingleQuotes(s: string): string
  {
    Escape(s, '\'')
  }

  /** `escapeSlashes`. */
  function EscapeSlashes(s: string): string
  {
    Escape(s, '/')
  }

  /** Removes the backslash in front of each `c`. */
  function Unescape(r: string, c: char): string
  {
    if |r| == 0 then ""
    else if |r| >= 2 && r[0] == '\\' && r[1] == c then [c] + Unescape(r[2..], c)
    else [r[0]] + Unescape(r[1..], c)
  }

  lemma EscapeHead(s: string, c: char)
    requires c != '\\' && |Escape(s, c)| > 0
    ensures Escape(s, c)[0] != c
  {
  }

  /** Removing the inserted backslashes gives the input back, so nothing
      but the inserted backslashes was changed. */
  lemma {:induction false} UnescapeEscape(s: string, c: char)
    requires c != '\\'
    ensures Unescape(Escape(s, c), c) == s
  {
    if |s| > 0 {
      var rest := Escape(s[1..], c);
      UnescapeEscape(s[1..], c);
      if s[0] == c {
        assert Escape(s, c) == ['\\', c] + rest;
        assert (['\\', c] + rest)[2..] == rest;
      } else {
        assert Escape(s, c) == [s[0]] + rest;
        if |rest| > 0 {
          EscapeHead(s[1..], c);
        }
        assert ([s[0]] + rest)[1..] == rest;
      }
      assert s == [s[0]] + s[1..];
    }
  }

  /** Every `c` of the output has a backslash in front of it. */
  lemma {:induction false} EscapeGuardsEvery(s: string, c: char)
    requires c != '\\'
    ensures forall i :: 0 <= i < |Escape(s, c)| && Escape(s, c)[i] == c ==> i > 0 && Escape(s, c)[i - 1] == '\\'
  {
    if |s| > 0 {
      EscapeGuardsEvery(s[1..], c);
      var head := if s[0] == c then ['\\', c] else [s[0]];
      var r := Escape(s, c);
      assert r == head + Escape(s[1..], c);
      forall i | 0 <= i < |r| && r[i] == c
        ensures i > 0 && r[i - 1] == '\\'
      {
        if i >= |head| {
          assert r[i] == Escape(s[1..], c)[i - |head|];
          if i - |head| > 0 {
            assert r[i - 1] == Escape(s[1..], c)[i - |head| - 1];
          }
        }
      }
    }
  }

  /** Characters that cannot stand unescaped inside a single-quoted literal:
      the backslash, the quote, and line breaks. */
  predicate Special(c: char)
  {
    c == '\\' || c == '\'' || c == '\n' || c == '\r'
  }

  predicate Plain(s: string)
  {
    forall i :: 0 <= i < |s| ==> !Special(s[i])
  }

  // ------------------------------------------------------------ the lexer

  /** The simple escape sequences of a GoogleSQL string literal. The octal,
      hexadecimal and Unicode escapes are not modelled and read as errors. */
  function SimpleEscape(c: char): Option<char>
  {
    if c == 'a' then Some(7 as char)
    else if c == 'b' then Some(8 as char)
    else if c == 'f' then Some(12 as char)
    else if c == 'n' then Some('\n')
    else if c == 'r' then Some('\r')
    else if c == 't' then Some('\t')
    else if c == 'v' then Some(11 as char)
    else if c == '\\' || c == '?' || c == '"' || c == '\'' || c == '`' then Some(c)
    else None
  }

  /** Reads the inside of `'...'` (the text after the opening quote): the
      value it denotes and the text after the closing quote. */
  function ReadQuoted(s: string): (r: Option<(string, string)>)
    ensures r.Some? ==> |r.value.1| < |s|
  {
    if |s| == 0 then None
    else if s[0] == '\'' then Some(("", s[1..]))
    else if s[0] == '\n' || s[0] == '\r' then None
    else if s[0] == '\\' then
      if |s| < 2 then None
      else match SimpleEscape(s[1])
        case None => None
        case Some(c) =>
          match ReadQuoted(s[2..])
          case None => None
          case Some((v, rest)) => Some(([c] + v, rest))
    else
      match ReadQuoted(s[1..])
      case None => None
      case Some((v, rest)) => Some(([s[0]] + v, rest))
  }

  /** Reads the inside of `r'...'`: a backslash keeps the character after it
      from closing the literal, and both stay in the value. */
  function ReadRaw(s: string): (r: Option<(string, string)>)
    ensures r.Some? ==> |r.value.1| < |s|
  {
    if |s| == 0 then None
    else if s[0] == '\'' then Some(("", s[1..]))
    else if s[0] == '\n' || s[0] == '\r' then None
    else if s[0] == '\\' then
      if |s| < 2 || s[1] == '\n' || s[1] == '\r' then None
      else match ReadRaw(s[2..])
        case None => None
        case Some((v, rest)) => Some(([s[0], s[1]] + v, rest))
    else
      match ReadRaw(s[1..])
      case None => None
      case Some((v, rest)) => Some(([s[0]] + v, rest))
  }

  /** A literal starting at the front of `s`, quoted or raw. */
  function ReadLiteral(s: string): (r: Option<(string, string)>)
    ensures r.Some? ==> |r.value.1| < |s|
  {
    if |s| >= 2 && s[0] == 'r' && s[1] == '\'' then ReadRaw(s[2..])
    else if |s| >= 1 && s[0] == '\'' then ReadQuoted(s[1..])
    else None
  }

  /** What follows a literal does not change how it is read. */
  lemma {:induction false} ReadQuotedExtend(s: string, t: string)
    requires ReadQuoted(s).Some?
    ensures ReadQuoted(s + t) == Some((ReadQuoted(s).value.0, ReadQuoted(s).value.1 + t))
  {
    assert (s + t)[0] == s[0];
    if s[0] == '\\' {
      assert (s + t)[1] == s[1];
      assert (s + t)[2..] == s[2..] + t;
      ReadQuotedExtend(s[2..], t);
    } else if s[0] != '\'' {
      assert (s + t)[1..] == s[1..] + t;
      ReadQuotedExtend(s[1..], t);
    } else {
      assert (s + t)[1..] == s[1..] + t;
    }
  }

  lemma {:induction false} ReadRawExtend(s: string, t: string)
    requires ReadRaw(s).Some?
    ensures ReadRaw(s + t) == Some((ReadRaw(s).value.0, ReadRaw(s).value.1 + t))
  {
    assert (s + t)[0] == s[0];
    if s[0] == '\\' {
      assert (s + t)[1] == s[1];
      assert (s + t)[2..] == s[2..] + t;
      ReadRawExtend(s[2..], t);
    } else if s[0] != '\'' {
      assert (s + t)[1..] == s[1..] + t;
      ReadRawExtend(s[1..], t);
    } else {
      assert (s + t)[1..] == s[1..] + t;
    }
  }

  lemma ReadLiteralExtend(s: string, t: string)
    requires ReadLiteral(s).Some?
    ensures ReadLiteral(s + t) == Some((ReadLiteral(s).value.0, ReadLiteral(s).value.1 + t))
  {
    if |s| >= 2 && s[0] == 'r' && s[1] == '\'' {
      assert (s + t)[2..] == s[2..] + t;
      ReadRawExtend(s[2..], t);
    } else {
      assert (s + t)[1..] == s[1..] + t;
      ReadQuotedExtend(s[1..], t);
    }
  }

  // ------------------------------------------------ the corrected escaper

  function EscapeLiteralChar(c: char): string
  {
    if c == '\\' then "\\\\"
    else if c == '\'' then "\\'"
    else if c == '\n' then "\\n"
    else if c == '\r' then "\\r"
    else [c]
  }

  /** Escapes everything a single-quoted literal cannot hold as is. */
  function EscapeLiteral(v: string): string
  {
    if |v| == 0 then "" else EscapeLiteralChar(v[0]) + EscapeLiteral(v[1..])
  }

  lemma ReadQuotedStep(c: char, tail: string, v: string, rest: string)
    requires ReadQuoted(tail) == Some((v, rest))
    ensures ReadQuoted(EscapeLiteralChar(c) + tail) == Some(([c] + v, rest))
  {
    var e := EscapeLiteralChar(c);
    if Special(c) {
      assert (e + tail)[0] == '\\' && (e + tail)[1] == e[1];
      assert (e + tail)[2..] == tail;
    } else {
      assert (e + tail)[0] == c;
      assert (e + tail)[1..] == tail;
    }
  }

  /** Any value written with `EscapeLiteral` between quotes reads back as
      itself, whatever text follows the closing quote. */
  lemma {:induction false} ReadEscapeLiteral(v: string, rest: string)
    ensures ReadQuoted(EscapeLiteral(v) + "'" + rest) == Some((v, rest))
  {
    if |v| == 0 {
      assert EscapeLiteral(v) + "'" + rest == "'" + rest;
      assert ("'" + rest)[1..] == rest;
    } else {
      var tail := EscapeLiteral(v[1..]) + "'" + rest;
      ReadEscapeLiteral(v[1..], rest);
      assert EscapeLiteral(v) + "'" + rest == EscapeLiteralChar(v[0]) + tail;
      ReadQuotedStep(v[0], tail, v[1..], rest);
      assert v == [v[0]] + v[1..];
    }
  }

  /** Values `escapeSingleQuotes` escapes enough: no backslash, no line break. */
  predicate NoBackslashOrBreak(v: string)
  {
    forall i :: 0 <= i < |v| ==> v[i] != '\\' && v[i] != '\n' && v[i] != '\r'
  }

  /** On values without a backslash or a line break, `escapeSingleQuotes`
      agrees with the corrected escaper. */
  lemma {:induction false} EscapeSingleQuotesAgrees(v: string)
    requires NoBackslashOrBreak(v)
    ensures EscapeSingleQuotes(v) == EscapeLiteral(v)
  {
    if |v| > 0 {
      EscapeSingleQuotesAgrees(v[1..]);
    }
  }

  /** Plain text needs no escaping. */
  lemma {:induction false} EscapeLiteralPlain(v: string)
    requires Plain(v)
    ensures EscapeLiteral(v) == v
  {
    if |v| > 0 {
      PlainTail(v);
      EscapeLiteralPlain(v[1..]);
      assert v == [v[0]] + v[1..];
    }
  }

  lemma PlainTail(v: string)
    requires Plain(v) && |v| > 0
    ensures Plain(v[1..]) && !Special(v[0])
  {
    forall i | 0 <= i < |v[1..]| ensures !Special(v[1..][i]) {
      assert v[1..][i] == v[i + 1];
    }
  }

  lemma PlainConcat(a: string, b: string)
    requires Plain(a) && Plain(b)
    ensures Plain(a + b)
  {
    forall i | 0 <= i < |a + b| ensures !Special((a + b)[i]) {
      if i < |a| {
        assert (a + b)[i] == a[i];
      } else {
        assert (a + b)[i] == b[i - |a|];
      }
    }
  }

  /** Text that reads as itself inside `r'...'`: no quote, backslash or line
      break except as the second character of a backslash pair, and no
      backslash left at the end. */
  predicate RawSafe(b: string)
    decreases |b|
  {
    if |b| == 0 then true
    else if b[0] == '\\' then |b| >= 2 && b[1] != '\n' && b[1] != '\r' && RawSafe(b[2..])
    else !Special(b[0]) && RawSafe(b[1..])
  }

  lemma {:induction false} ReadRawSafe(b: string, rest: string)
    requires RawSafe(b)
    ensures ReadRaw(b + "'" + rest) == Some((b, rest))
    decreases |b|
  {
    var s := b + "'" + rest;
    if |b| == 0 {
      assert s == "'" + rest;
      assert s[1..] == rest;
    } else if b[0] == '\\' {
      assert s[0] == '\\' && s[1] == b[1];
      assert s[2..] == b[2..] + "'" + rest;
      ReadRawSafe(b[2..], rest);
      assert b == [b[0], b[1]] + b[2..];
    } else {
      assert s[0] == b[0];
      assert s[1..] == b[1..] + "'" + rest;
      ReadRawSafe(b[1..], rest);
      assert b == [b[0]] + b[1..];
    }
  }

  lemma {:induction false} PlainRawSafe(a: string, b: string)
    requires Plain(a) && RawSafe(b)
    ensures RawSafe(a + b)
  {
    if |a| > 0 {
      assert (a + b)[0] == a[0] && !Special(a[0]);
      assert (a + b)[1..] == a[1..] + b;
      PlainTail(a);
      PlainRawSafe(a[1..], b);
    } else {
      assert a + b == b;
    }
  }

  /** Plain text with its slashes escaped is safe inside `r'...'`. */
  lemma {:induction false} EscapeSlashesRawSafe(v: string)
    requires Plain(v)
    ensures RawSafe(EscapeSlashes(v))
  {
    if |v| > 0 {
      PlainTail(v);
      EscapeSlashesRawSafe(v[1..]);
      var rest := EscapeSlashes(v[1..]);
      if v[0] == '/' {
        var r := ['\\', '/'] + rest;
        assert r[2..] == rest;
      } else {
        var r := [v[0]] + rest;
        assert r[1..] == rest;
      }
    }
  }

  // ------------------------------------------------------- counterexamples

  /** `escapeSingleQuotes` leaves a trailing backslash alone, which then
      escapes the closing quote: the literal does not end where it was meant
      to. */
  lemma TrailingBackslashEscapesQuote()
    ensures EscapeSingleQuotes("a\\") == "a\\"
    ensures ReadQuoted(EscapeSingleQuotes("a\\") + "'") == None
    ensures ReadQuoted(EscapeLiteral("a\\") + "'") == Some(("a\\", ""))
  {
    assert Escape("\\", '\'') == "\\" + Escape("", '\'');
    assert Escape("a\\", '\'') == "a" + Escape("\\", '\'');
    var t: string := "a\\'";
    assert t[1..][2..] == "";
    assert ReadQuoted(t[1..][2..]) == None;
    assert ReadQuoted(t[1..]) == None;
    var x := ReadQuoted(t);
    assert x == None;
    assert EscapeSingleQuotes("a\\") + "'" == t;
    ReadEscapeLiteral("a\\", "");
    assert EscapeLiteral("a\\") + "'" + "" == EscapeLiteral("a\\") + "'";
  }

  /** `escapeSlashes` leaves a quote alone inside `r'...'`, where it closes
      the literal early. */
  lemma QuoteEndsRawLiteral()
    ensures EscapeSlashes("a'b") == "a'b"
    ensures ReadRaw(EscapeSlashes("a'b") + "'") == Some(("a", "b'"))
  {
    assert Escape("b", '/') == "b" + Escape("", '/');
    assert Escape("'b", '/') == "'" + Escape("b", '/');
    assert Escape("a'b", '/') == "a" + Escape("'b", '/');
    var t: string := "a'b'";
    assert t[1..] == "'b'";
    assert ReadRaw(t[1..]) == Some(("", "b'")) by {
      assert t[1..][1..] == "b'";
    }
    var x := ReadRaw(t);
    assert x.Some? && x.value.0 == "a" && x.value.1 == "b'";
    assert EscapeSlashes("a'b") + "'" == t;
  }
}
