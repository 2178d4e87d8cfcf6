/** The `tags` column: a JSON object (RFC 8259) from label name to label
    value. Writing follows what `json.Marshal` does with a
    `map[string]interface{}` of strings: keys in ascending order, no
    whitespace, and the string escapes of `encoding/json` with HTML escaping
    on. Reading accepts exactly the JSON texts that are an object whose member
    values are all strings; everything else (malformed text, or well-formed
    JSON of another shape, which the adapter's type assertions reject) is
    `None`. */
module TagsJson {
  import opened Wrappers
  import opened Labels
  import opened Text

  /** Lower-case hexadecimal digit, as `encoding/json` writes them. */
  function HexDigit(n: nat): char
    requires n < 16
  {
    if n < 10 then ('0' as int + n) as char else ('a' as int + n - 10) as char
  }

  /** `\uXXXX` for a code point of the basic plane. */
  function UnicodeEscape(n: nat): string
    requires n < 0x10000
  {
    var n1 := n / 16;
    var n2 := n1 / 16;
    "\\u" + [HexDigit(n2 / 16), HexDigit(n2 % 16), HexDigit(n1 % 16), HexDigit(n % 16)]
  }

  /** Characters `encoding/json` writes as a `\u` escape: the remaining
      control characters, the HTML-sensitive `<`, `>`, `&`, and the line and
      paragraph separators U+2028 and U+2029. */
  predicate NeedsUnicodeEscape(c: char)
  {
    c as int < 0x20 || c == '<' || c == '>' || c == '&' || c as int == 0x2028 || c as int == 0x2029
  }

  /** How one character of a string is written inside its quotes, as
      `encoding/json` does from Go 1.22 on (`\b` and `\f` for U+0008 and U+000C). */
  function EscapeChar(c: char): string
  {
    if c == '"' then "\\\""
    else if c == '\\' then "\\\\"
    else if c as int == 8 then "\\b"
    else if c as int == 12 then "\\f"
    else if c == '\n' then "\\n"
    else if c == '\r' then "\\r"
    else if c == '\t' then "\\t"
    else if NeedsUnicodeEscape(c) then UnicodeEscape(c as int)
    else [c]
  }

  function EscapeString(s: string): string
  {
    if |s| == 0 then "" else EscapeChar(s[0]) + EscapeString(s[1..])
  }

  function QuoteString(s: string): string
  {
    "\"" + EscapeString(s) + "\""
  }

  function EncodeMember(l: Label): string
  {
    QuoteString(l.name) + ":" + QuoteString(l.value)
  }

  /** The members after the first, each behind a comma, and the closing brace. */
  function EncodeTail(ms: seq<Label>): string
  {
    if |ms| == 0 then "}" else "," + EncodeMember(ms[0]) + EncodeTail(ms[1..])
  }

  /** The object with the given members, in the given order. */
  function EncodeObject(ms: seq<Label>): string
  {
    "{" + (if |ms| == 0 then "}" else EncodeMember(ms[0]) + EncodeTail(ms[1..]))
  }

  /** Text with no control character and nothing HTML-sensitive: what
      `encoding/json` leaves unescaped. */
  predicate Clean(t: string)
  {
    forall i :: 0 <= i < |t| ==> !NeedsUnicodeEscape(t[i])
  }

  lemma CleanConcat(a: string, b: string)
    requires Clean(a) && Clean(b)
    ensures Clean(a + b)
  {
    forall i | 0 <= i < |a + b| ensures !NeedsUnicodeEscape((a + b)[i]) {
      if i < |a| {
        assert (a + b)[i] == a[i];
      } else {
        assert (a + b)[i] == b[i - |a|];
      }
    }
  }

  lemma UnicodeEscapeClean(n: nat)
    requires n < 0x10000
    ensures Clean(UnicodeEscape(n))
  {
    var n1 := n / 16;
    var n2 := n1 / 16;
    var ds := [HexDigit(n2 / 16), HexDigit(n2 % 16), HexDigit(n1 % 16), HexDigit(n % 16)];
    assert forall i :: 0 <= i < 4 ==> '0' <= ds[i] <= 'f';
    CleanConcat("\\u", ds);
  }

  lemma EscapeCharClean(c: char)
    ensures Clean(EscapeChar(c))
  {
    if !(c == '"' || c == '\\' || c as int == 8 || c as int == 12 || c == '\n' || c == '\r' || c == '\t')
      && NeedsUnicodeEscape(c)
    {
      UnicodeEscapeClean(c as int);
    }
  }

  /** Every character that needs it is escaped, so the escaped text is clean. */
  lemma {:induction false} EscapeStringClean(s: string)
    ensures Clean(EscapeString(s))
  {
    if |s| > 0 {
      EscapeCharClean(s[0]);
      EscapeStringClean(s[1..]);
      CleanConcat(EscapeChar(s[0]), EscapeString(s[1..]));
    }
  }

  lemma EncodeMemberClean(l: Label)
    ensures Clean(EncodeMember(l))
  {
    EscapeStringClean(l.name);
    EscapeStringClean(l.value);
    CleanConcat("\"", EscapeString(l.name));
    CleanConcat("\"" + EscapeString(l.name), "\"");
    CleanConcat("\"", EscapeString(l.value));
    CleanConcat("\"" + EscapeString(l.value), "\"");
    CleanConcat(QuoteString(l.name), ":");
    CleanConcat(QuoteString(l.name) + ":", QuoteString(l.value));
  }

  lemma {:induction false} EncodeTailClean(ms: seq<Label>)
    ensures Clean(EncodeTail(ms))
  {
    if |ms| > 0 {
      EncodeMemberClean(ms[0]);
      EncodeTailClean(ms[1..]);
      CleanConcat(",", EncodeMember(ms[0]));
      CleanConcat("," + EncodeMember(ms[0]), EncodeTail(ms[1..]));
    }
  }

  /** As `json.Marshal` promises, the `tags` text holds no raw control
      character, no `<`, `>` or `&`, and no U+2028 or U+2029. */
  lemma EncodeObjectClean(ms: seq<Label>)
    ensures Clean(EncodeObject(ms))
  {
    if |ms| > 0 {
      EncodeMemberClean(ms[0]);
      EncodeTailClean(ms[1..]);
      CleanConcat(EncodeMember(ms[0]), EncodeTail(ms[1..]));
      CleanConcat("{", EncodeMember(ms[0]) + EncodeTail(ms[1..]));
    }
  }

  // ---------------------------------------------------------------- reading

  predicate IsWs(c: char)
  {
    c == ' ' || c == '\t' || c == '\n' || c == '\r'
  }

  function SkipWs(s: string): (r: string)
    ensures |r| <= |s|
  {
    if |s| > 0 && IsWs(s[0]) then SkipWs(s[1..]) else s
  }

  function HexValue(c: char): Option<nat>
  {
    if '0' <= c <= '9' then Some(c as int - '0' as int)
    else if 'a' <= c <= 'f' then Some(c as int - 'a' as int + 10)
    else if 'A' <= c <= 'F' then Some(c as int - 'A' as int + 10)
    else None
  }

  /** Four hexadecimal digits at the front of `s`. */
  function Hex4(s: string): (r: Option<nat>)
    ensures r.Some? ==> |s| >= 4 && r.value < 0x10000
  {
    if |s| < 4 then None
    else match (HexValue(s[0]), HexValue(s[1]), HexValue(s[2]), HexValue(s[3]))
      case (Some(a), Some(b), Some(c), Some(d)) =>
        if a < 16 && b < 16 && c < 16 && d < 16 then Some(((a * 16 + b) * 16 + c) * 16 + d) else None
      case _ => None
  }

  /** The character a `\u` escape with value `hi` stands for, and what follows.
      A high surrogate followed by a `\u` low surrogate is one character; any
      other surrogate reads as U+FFFD, as Go's decoder does. */
  function UnicodeChar(hi: nat, rest: string): (r: (char, string))
    requires hi < 0x10000
    ensures |r.1| <= |rest|
  {
    if hi < 0xD800 || hi >= 0xE000 then (hi as char, rest)
    else if hi < 0xDC00 && |rest| >= 6 && rest[0] == '\\' && rest[1] == 'u' then
      match Hex4(rest[2..])
      case Some(lo) =>
        if 0xDC00 <= lo < 0xE000 then
          ((0x10000 + (hi - 0xD800) * 0x400 + (lo - 0xDC00)) as char, rest[6..])
        else (0xFFFD as char, rest)
      case None => (0xFFFD as char, rest)
    else (0xFFFD as char, rest)
  }

  /** Reads the escape after a backslash. */
  function ParseEscape(s: string): (r: Option<(char, string)>)
    ensures r.Some? ==> |r.value.1| < |s|
  {
    if |s| == 0 then None
    else if s[0] == '"' then Some(('"', s[1..]))
    else if s[0] == '\\' then Some(('\\', s[1..]))
    else if s[0] == '/' then Some(('/', s[1..]))
    else if s[0] == 'b' then Some((8 as char, s[1..]))
    else if s[0] == 'f' then Some((12 as char, s[1..]))
    else if s[0] == 'n' then Some(('\n', s[1..]))
    else if s[0] == 'r' then Some(('\r', s[1..]))
    else if s[0] == 't' then Some(('\t', s[1..]))
    else if s[0] == 'u' then
      match Hex4(s[1..])
      case Some(hi) => Some(UnicodeChar(hi, s[5..]))
      case None => None
    else None
  }

  /** Reads the inside of a string literal up to its closing quote; returns
      the string and the text after the quote. */
  function ParseStringBody(s: string): (r: Option<(string, string)>)
    ensures r.Some? ==> |r.value.1| < |s|
    decreases |s|
  {
    if |s| == 0 then None
    else if s[0] == '"' then Some(("", s[1..]))
    else if s[0] == '\\' then
      match ParseEscape(s[1..])
      case None => None
      case Some((c, r1)) =>
        match ParseStringBody(r1)
        case None => None
        case Some((d, r2)) => Some(([c] + d, r2))
    else if s[0] as int < 0x20 then None
    else
      match ParseStringBody(s[1..])
      case None => None
      case Some((d, r2)) => Some(([s[0]] + d, r2))
  }

  /** Reads `"name" : "value"`. */
  function ParseMember(s: string): (r: Option<(Label, string)>)
    ensures r.Some? ==> |r.value.1| < |s|
  {
    if |s| == 0 || s[0] != '"' then None
    else
      match ParseStringBody(s[1..])
      case None => None
      case Some((k, r1)) =>
        var r2 := SkipWs(r1);
        if |r2| == 0 || r2[0] != ':' then None
        else
          var r3 := SkipWs(r2[1..]);
          if |r3| == 0 || r3[0] != '"' then None
          else
            match ParseStringBody(r3[1..])
            case None => None
            case Some((v, r4)) => Some((Label(k, v), r4))
  }

  /** Reads `, member` repeatedly up to and including the closing brace. */
  function ParseTail(s: string): (r: Option<(seq<Label>, string)>)
    ensures r.Some? ==> |r.value.1| < |s|
    decreases |s|
  {
    var r := SkipWs(s);
    if |r| == 0 then None
    else if r[0] == '}' then Some(([], r[1..]))
    else if r[0] == ',' then
      match ParseMember(SkipWs(r[1..]))
      case None => None
      case Some((l, r2)) =>
        match ParseTail(r2)
        case None => None
        case Some((ls, r3)) => Some(([l] + ls, r3))
    else None
  }

  /** The members of a JSON object of strings, in document order. */
  function DecodeObject(s: string): Option<seq<Label>>
  {
    var r := SkipWs(s);
    if |r| == 0 || r[0] != '{' then None
    else
      var r1 := SkipWs(r[1..]);
      if |r1| > 0 && r1[0] == '}' then
        if SkipWs(r1[1..]) == "" then Some([]) else None
      else
        match ParseMember(r1)
        case None => None
        case Some((l, r2)) =>
          match ParseTail(r2)
          case None => None
          case Some((ls, r3)) => if SkipWs(r3) == "" then Some([l] + ls) else None
  }

  /** The label map a `tags` value stands for: duplicate keys keep the last
      value, as decoding into a Go map does. */
  function DecodeTags(s: string): Option<LabelMap>
  {
    match DecodeObject(s)
    case Some(ms) => Some(ToMap(ms))
    case None => None
  }

  // ---------------------------------------------------------- round trip

  lemma HexDigitValue(n: nat)
    requires n < 16
    ensures HexValue(HexDigit(n)) == Some(n)
  {
  }

  lemma Hex4OfEscape(n: nat, t: string)
    requires n < 0x10000
    ensures Hex4(UnicodeEscape(n)[2..] + t) == Some(n)
  {
    var n1 := n / 16;
    var n2 := n1 / 16;
    var ds := [HexDigit(n2 / 16), HexDigit(n2 % 16), HexDigit(n1 % 16), HexDigit(n % 16)];
    assert UnicodeEscape(n)[2..] == ds;
    var s := ds + t;
    assert s[0] == ds[0] && s[1] == ds[1] && s[2] == ds[2] && s[3] == ds[3];
    HexDigitValue(n2 / 16);
    HexDigitValue(n2 % 16);
    HexDigitValue(n1 % 16);
    HexDigitValue(n % 16);
    assert n2 / 16 < 16;
    assert n == ((n2 / 16 * 16 + n2 % 16) * 16 + n1 % 16) * 16 + n % 16;
  }

  /** An escaped character reads back as itself, whatever follows it. */
  lemma ParseEscapeChar(c: char, t: string)
    requires EscapeChar(c) != [c]
    ensures |EscapeChar(c)| >= 2 && EscapeChar(c)[0] == '\\'
    ensures ParseEscape(EscapeChar(c)[1..] + t) == Some((c, t))
  {
    var e := EscapeChar(c);
    if c == '"' || c == '\\' || c as int == 8 || c as int == 12 || c == '\n' || c == '\r' || c == '\t' {
      assert e[1..] + t == [e[1]] + t;
    } else {
      assert NeedsUnicodeEscape(c);
      var s := e[1..] + t;
      assert s[0] == 'u';
      assert s[1..] == UnicodeEscape(c as int)[2..] + t;
      Hex4OfEscape(c as int, t);
      assert s[5..] == t;
    }
  }

  lemma SkipWsId(s: string)
    requires |s| > 0 && !IsWs(s[0])
    ensures SkipWs(s) == s
  {
  }

  /** A character the reader takes as itself, then anything it accepts. */
  lemma ParsePlainStep(c: char, tail: string, d: string, r: string)
    requires c != '"' && c != '\\' && c as int >= 0x20
    requires ParseStringBody(tail) == Some((d, r))
    ensures ParseStringBody([c] + tail) == Some(([c] + d, r))
  {
    var s := [c] + tail;
    assert s[0] == c && s[1..] == tail;
  }

  /** A backslash escape of `c`, then anything the reader accepts. */
  lemma ParseBackslashStep(s: string, c: char, tail: string, d: string, r: string)
    requires |s| > 0 && s[0] == '\\' && ParseEscape(s[1..]) == Some((c, tail))
    requires ParseStringBody(tail) == Some((d, r))
    ensures ParseStringBody(s) == Some(([c] + d, r))
  {
  }

  /** The text written for `c` is either `c` itself, which the reader takes
      as is, or a backslash escape the reader turns back into `c`. */
  lemma EscapeCharShape(c: char, tail: string)
    ensures var e := EscapeChar(c);
      || (e == [c] && c != '"' && c != '\\' && c as int >= 0x20)
      || (|e| > 0 && e[0] == '\\' && ParseEscape(e[1..] + tail) == Some((c, tail)))
  {
    if EscapeChar(c) != [c] {
      ParseEscapeChar(c, tail);
    }
  }

  /** One written character, then anything the string reader accepts. */
  lemma ParseStringStep(c: char, tail: string, d: string, r: string)
    requires ParseStringBody(tail) == Some((d, r))
    ensures ParseStringBody(EscapeChar(c) + tail) == Some(([c] + d, r))
  {
    var e := EscapeChar(c);
    EscapeCharShape(c, tail);
    ParseWritten(e, c, tail, d, r);
  }

  lemma ParseWritten(e: string, c: char, tail: string, d: string, r: string)
    requires || (e == [c] && c != '"' && c != '\\' && c as int >= 0x20)
             || (|e| > 0 && e[0] == '\\' && ParseEscape(e[1..] + tail) == Some((c, tail)))
    requires ParseStringBody(tail) == Some((d, r))
    ensures ParseStringBody(e + tail) == Some(([c] + d, r))
  {
    if e == [c] && c != '"' && c != '\\' && c as int >= 0x20 {
      ParsePlainStep(c, tail, d, r);
    } else {
      ParseEscapeWritten(e, c, tail, d, r);
    }
  }

  lemma ParseEscapeWritten(e: string, c: char, tail: string, d: string, r: string)
    requires |e| > 0 && e[0] == '\\' && ParseEscape(e[1..] + tail) == Some((c, tail))
    requires ParseStringBody(tail) == Some((d, r))
    ensures ParseStringBody(e + tail) == Some(([c] + d, r))
  {
    HeadTailOfConcat(e, tail);
    ParseBackslashStep(e + tail, c, tail, d, r);
  }



  /** The written characters of `s`, then text the string reader ends on. */
  lemma {:induction false} ParseEscapedBody(s: string, u: string, t: string)
    requires ParseStringBody(u) == Some(("", t))
    ensures ParseStringBody(EscapeString(s) + u) == Some((s, t))
  {
    if |s| == 0 {
      EscapeStringEmpty(s, u);
    } else {
      ParseEscapedBody(s[1..], u, t);
      EscapeStringCons(s, u);
      ParseStringStep(s[0], EscapeString(s[1..]) + u, s[1..], t);
    }
  }

  lemma EscapeStringEmpty(s: string, u: string)
    requires |s| == 0
    ensures EscapeString(s) + u == u
  {
  }

  lemma EscapeStringCons(s: string, u: string)
    requires |s| > 0
    ensures EscapeString(s) + u == EscapeChar(s[0]) + (EscapeString(s[1..]) + u)
    ensures [s[0]] + s[1..] == s
  {
    ConcatAssoc(EscapeChar(s[0]), EscapeString(s[1..]), u);
    ConsHeadTail(s);
  }

  lemma ParseStringRoundTrip(s: string, t: string)
    ensures ParseStringBody(EscapeString(s) + "\"" + t) == Some((s, t))
  {
    var u := "\"" + t;
    assert u[0] == '"' && u[1..] == t;
    assert EscapeString(s) + "\"" + t == EscapeString(s) + u;
    ParseEscapedBody(s, u, t);
  }

  lemma QuoteStringRoundTrip(s: string, t: string)
    ensures ParseStringBody((QuoteString(s) + t)[1..]) == Some((s, t))
    ensures |QuoteString(s) + t| > 0 && (QuoteString(s) + t)[0] == '"'
  {
    assert (QuoteString(s) + t)[1..] == EscapeString(s) + "\"" + t;
    ParseStringRoundTrip(s, t);
  }

  lemma ParseMemberRoundTrip(l: Label, t: string)
    ensures ParseMember(EncodeMember(l) + t) == Some((l, t))
  {
    var valueText := QuoteString(l.value) + t;
    var afterName := ":" + valueText;
    assert EncodeMember(l) + t == QuoteString(l.name) + afterName;
    QuoteStringRoundTrip(l.name, afterName);
    QuoteStringRoundTrip(l.value, t);
    SkipWsId(afterName);
    assert afterName[1..] == valueText;
    SkipWsId(valueText);
  }

  lemma MemberStartsWithQuote(l: Label, t: string)
    ensures |EncodeMember(l) + t| > 0 && (EncodeMember(l) + t)[0] == '"'
  {
    assert EncodeMember(l) + t == QuoteString(l.name) + (":" + QuoteString(l.value) + t);
    QuoteStringRoundTrip(l.name, ":" + QuoteString(l.value) + t);
  }

  /** One `, member` in front of a tail the reader accepts. */
  lemma ParseTailStep(l: Label, rest: string, ls: seq<Label>, t: string)
    requires ParseTail(rest) == Some((ls, t))
    ensures ParseTail("," + (EncodeMember(l) + rest)) == Some(([l] + ls, t))
  {
    var m := EncodeMember(l) + rest;
    var s := "," + m;
    SkipWsId(s);
    assert s[1..] == m;
    MemberStartsWithQuote(l, rest);
    SkipWsId(m);
    ParseMemberRoundTrip(l, rest);
  }

  lemma {:induction false} ParseTailRoundTrip(ms: seq<Label>, t: string)
    ensures ParseTail(EncodeTail(ms) + t) == Some((ms, t))
  {
    if |ms| == 0 {
      assert EncodeTail(ms) + t == "}" + t;
      SkipWsId("}" + t);
      assert ("}" + t)[1..] == t;
    } else {
      var rest := EncodeTail(ms[1..]) + t;
      assert EncodeTail(ms) + t == "," + (EncodeMember(ms[0]) + rest);
      ParseTailRoundTrip(ms[1..], t);
      ParseTailStep(ms[0], rest, ms[1..], t);
      assert ms == [ms[0]] + ms[1..];
    }
  }

  /** Reading the encoding of any member list gives that list back. */
  lemma DecodeEncode(ms: seq<Label>)
    ensures DecodeObject(EncodeObject(ms)) == Some(ms)
  {
    var s := EncodeObject(ms);
    SkipWsId(s);
    if |ms| == 0 {
      assert s == "{}";
      assert s[1..] == "}";
      SkipWsId(s[1..]);
    } else {
      DecodeEncodeNonEmpty(ms);
    }
  }

  lemma DecodeEncodeNonEmpty(ms: seq<Label>)
    requires |ms| > 0
    ensures DecodeObject(EncodeObject(ms)) == Some(ms)
  {
    var s := EncodeObject(ms);
    var tail := EncodeTail(ms[1..]);
    var body := EncodeMember(ms[0]) + tail;
    assert s == "{" + body;
    SkipWsId(s);
    HeadTailOfConcat("{", body);
    assert "{"[1..] + body == body;
    MemberStartsWithQuote(ms[0], tail);
    SkipWsId(body);
    ParseMemberRoundTrip(ms[0], tail);
    ParseTailRoundTrip(ms[1..], "");
    assert tail + "" == tail;
    ConsHeadTail(ms);
  }

  /** The encoding is empty braces exactly when there are no members. */
  lemma EncodeEmpty(ms: seq<Label>)
    ensures EncodeObject(ms) == "{}" <==> |ms| == 0
  {
    if |ms| > 0 {
      assert |EncodeObject(ms)| > 2 by {
        assert |EncodeMember(ms[0])| >= 5;
      }
    }
  }
}
