/** String helpers shared by the codec and the query translator: code-point
    order, which equals the byte-wise order of Go's `<` on valid UTF-8,
    `strings.Join`, and decimal rendering of the integers `%v` prints. */
module Text {
  import opened Wrappers

  /** Strict lexicographic order by code point. On valid UTF-8 this is the
      byte-wise order of Go's string comparison. */
  predicate Less(a: string, b: string)
  {
    if |a| == 0 then |b| > 0
    else if |b| == 0 then false
    else if a[0] == b[0] then Less(a[1..], b[1..])
    else a[0] < b[0]
  }

  lemma {:induction false} LessIrreflexive(a: string)
    ensures !Less(a, a)
  {
    if |a| > 0 {
      LessIrreflexive(a[1..]);
    }
  }

  lemma {:induction false} LessTransitive(a: string, b: string, c: string)
    requires Less(a, b) && Less(b, c)
    ensures Less(a, c)
  {
    if |a| > 0 && |b| > 0 && |c| > 0 && a[0] == b[0] && b[0] == c[0] {
      LessTransitive(a[1..], b[1..], c[1..]);
    }
  }

  lemma {:induction false} LessTotal(a: string, b: string)
    ensures a == b || Less(a, b) || Less(b, a)
  {
    if |a| > 0 && |b| > 0 && a[0] == b[0] {
      LessTotal(a[1..], b[1..]);
      if a[1..] == b[1..] {
        assert a == [a[0]] + a[1..] && b == [b[0]] + b[1..];
      }
    }
  }

  lemma LessAsymmetric(a: string, b: string)
    requires Less(a, b)
    ensures !Less(b, a)
  {
    if Less(b, a) {
      LessTransitive(a, b, a);
      LessIrreflexive(a);
    }
  }

  /** Go's `strings.Join`. */
  function Join(parts: seq<string>, sep: string): string
  {
    if |parts| == 0 then ""
    else if |parts| == 1 then parts[0]
    else parts[0] + sep + Join(parts[1..], sep)
  }

  /** Joining two non-empty lists puts one separator between their joins. */
  lemma {:induction false} JoinConcat(a: seq<string>, b: seq<string>, sep: string)
    requires |a| > 0 && |b| > 0
    ensures Join(a + b, sep) == Join(a, sep) + sep + Join(b, sep)
  {
    if |a| == 1 {
      assert (a + b)[1..] == b;
    } else {
      assert (a + b)[1..] == a[1..] + b;
      JoinConcat(a[1..], b, sep);
      ConcatAssoc(a[0] + sep, Join(a[1..], sep), sep + Join(b, sep));
    }
  }

  /** Number of occurrences of `c` in `s`. */
  function Count(s: string, c: char): nat
  {
    if |s| == 0 then 0 else (if s[0] == c then 1 else 0) + Count(s[1..], c)
  }

  predicate HasPrefix(s: string, p: string)
  {
    |p| <= |s| && s[..|p|] == p
  }

  lemma PrefixOfConcat(p: string, t: string)
    ensures HasPrefix(p + t, p) && (p + t)[|p|..] == t
  {
    assert (p + t)[..|p|] == p;
  }

  /** Sequence identities, proved apart from any function definitions they
      are used next to. */
  lemma ConcatAssoc<T>(a: seq<T>, b: seq<T>, c: seq<T>)
    ensures (a + b) + c == a + (b + c)
  {
  }

  lemma HeadTailOfConcat<T>(e: seq<T>, t: seq<T>)
    requires |e| > 0
    ensures |e + t| > 0 && (e + t)[0] == e[0] && (e + t)[1..] == e[1..] + t
  {
  }

  lemma ConsHeadTail<T>(s: seq<T>)
    requires |s| > 0
    ensures [s[0]] + s[1..] == s
  {
  }

  predicate IsDigit(c: char)
  {
    '0' <= c <= '9'
  }

  function DigitChar(d: nat): (c: char)
    requires d < 10
    ensures IsDigit(c) && c as int - '0' as int == d
  {
    ('0' as int + d) as char
  }

  /** Decimal digits of `n`, most significant first, with no leading zero. */
  function NatToString(n: nat): string
    decreases n
  {
    if n < 10 then [DigitChar(n)] else NatToString(n / 10) + [DigitChar(n % 10)]
  }

  /** Go's `%v` of an int64. */
  function IntToString(i: int): string
  {
    if i < 0 then "-" + NatToString(-i) else NatToString(i)
  }

  /** Length of the longest all-digit prefix of `s`. */
  function LeadingDigits(s: string): (k: nat)
    ensures k <= |s|
  {
    if |s| == 0 || !IsDigit(s[0]) then 0 else 1 + LeadingDigits(s[1..])
  }

  lemma {:induction false} LeadingDigitsSpec(s: string)
    ensures forall j :: 0 <= j < LeadingDigits(s) ==> IsDigit(s[j])
    ensures LeadingDigits(s) < |s| ==> !IsDigit(s[LeadingDigits(s)])
  {
    if |s| > 0 && IsDigit(s[0]) {
      LeadingDigitsSpec(s[1..]);
      forall j | 0 < j < LeadingDigits(s) ensures IsDigit(s[j]) {
        assert s[j] == s[1..][j - 1];
      }
    }
  }

  /** Value of a string of decimal digits. */
  function DigitsValue(ds: string): nat
    requires forall j :: 0 <= j < |ds| ==> IsDigit(ds[j])
  {
    if |ds| == 0 then 0
    else
      assert IsDigit(ds[|ds| - 1]);
      DigitsValue(ds[..|ds| - 1]) * 10 + (ds[|ds| - 1] as int - '0' as int)
  }

  /** Reads a maximal, nonempty run of digits. */
  function ParseNat(s: string): Option<(nat, string)>
  {
    var k := LeadingDigits(s);
    LeadingDigitsSpec(s);
    if k == 0 then None else Some((DigitsValue(s[..k]), s[k..]))
  }

  /** Reads an optional minus sign and a maximal run of digits. */
  function ParseInt(s: string): Option<(int, string)>
  {
    if |s| > 0 && s[0] == '-' then
      var (n, rest) :- ParseNat(s[1..]);
      Some((-(n as int), rest))
    else
      var (n, rest) :- ParseNat(s);
      Some((n as int, rest))
  }

  lemma {:induction false} NatToStringDigits(n: nat)
    ensures |NatToString(n)| > 0
    ensures forall j :: 0 <= j < |NatToString(n)| ==> IsDigit(NatToString(n)[j])
    ensures DigitsValue(NatToString(n)) == n
    decreases n
  {
    if n >= 10 {
      NatToStringDigits(n / 10);
      var s := NatToString(n);
      assert s[..|s| - 1] == NatToString(n / 10);
    }
  }

  lemma {:induction false} LeadingDigitsOfConcat(ds: string, rest: string)
    requires forall j :: 0 <= j < |ds| ==> IsDigit(ds[j])
    requires |rest| == 0 || !IsDigit(rest[0])
    ensures LeadingDigits(ds + rest) == |ds|
  {
    if |ds| == 0 {
      assert ds + rest == rest;
    } else {
      var s := ds + rest;
      assert s[0] == ds[0];
      assert s[1..] == ds[1..] + rest;
      assert forall j :: 0 <= j < |ds[1..]| ==> IsDigit(ds[1..][j]) by {
        forall j | 0 <= j < |ds[1..]| ensures IsDigit(ds[1..][j]) {
          assert ds[1..][j] == ds[j + 1];
        }
      }
      LeadingDigitsOfConcat(ds[1..], rest);
    }
  }

  /** A nonempty digit run followed by a non-digit reads as its value. */
  lemma ParseDigits(ds: string, rest: string)
    requires |ds| > 0 && forall j :: 0 <= j < |ds| ==> IsDigit(ds[j])
    requires |rest| == 0 || !IsDigit(rest[0])
    ensures ParseNat(ds + rest) == Some((DigitsValue(ds), rest))
  {
    var s := ds + rest;
    LeadingDigitsOfConcat(ds, rest);
    assert s[..|ds|] == ds && s[|ds|..] == rest;
  }

  lemma ParseMinus(t: string, n: nat, rest: string)
    requires ParseNat(t) == Some((n, rest))
    ensures ParseInt("-" + t) == Some((-(n as int), rest))
  {
    HeadTailOfConcat("-", t);
  }

  lemma ParseNegative(i: int, rest: string)
    requires i < 0
    requires |rest| == 0 || !IsDigit(rest[0])
    ensures ParseInt(IntToString(i) + rest) == Some((i, rest))
  {
    var ds := NatToString(-i);
    NatToStringDigits(-i);
    ParseDigits(ds, rest);
    ParseMinus(ds + rest, -i, rest);
    ConcatAssoc("-", ds, rest);
  }

  lemma ParseNonNegative(i: int, rest: string)
    requires i >= 0
    requires |rest| == 0 || !IsDigit(rest[0])
    ensures ParseInt(IntToString(i) + rest) == Some((i, rest))
  {
    var ds := NatToString(i);
    NatToStringDigits(i);
    ParseDigits(ds, rest);
    var s := IntToString(i) + rest;
    assert s == ds + rest;
    assert s[0] == ds[0] && IsDigit(ds[0]);
    assert ParseNat(s) == Some((i, rest));
  }

  /** Reading back what `%v` printed recovers the integer, provided the text
      after it does not continue the digit run. */
  lemma ParseIntToString(i: int, rest: string)
    requires |rest| == 0 || !IsDigit(rest[0])
    ensures ParseInt(IntToString(i) + rest) == Some((i, rest))
  {
    if i < 0 {
      ParseNegative(i, rest);
    } else {
      ParseNonNegative(i, rest);
    }
  }
}
