/** The JavaScript string operations the scheduler and the parser rely on
    (`toUpperCase`, `includes`, `trim`, `split`, `parseInt`, template
    literals of numbers, the default string order of `sort` and `join`),
    written out on `seq<char>`. */
module Strings {

  /** Upper-casing of one character, for ASCII and every Latin-1 lower-case
      letter that has a one-character capital: U+00E0..U+00FE without U+00F7
      move down by 32, the micro sign U+00B5 becomes U+039C and U+00FF
      becomes U+0178. This covers every accented letter of Catalan and
      Spanish. */
  function UpperChar(c: char): char {
    if 'a' <= c <= 'z' || ('\U{00E0}' <= c <= '\U{00FE}' && c != '\U{00F7}') then (c as int - 32) as char
    else if c == '\U{00B5}' then '\U{039C}'
    else if c == '\U{00FF}' then '\U{0178}'
    else c
  }

  /** `s.toUpperCase()` */
  function Upper(s: string): string {
    seq(|s|, i requires 0 <= i < |s| => UpperChar(s[i]))
  }

  predicate OccursAt(s: string, p: string, i: int) {
    0 <= i && i + |p| <= |s| && s[i..i + |p|] == p
  }

  /** `s.includes(p)`: `p` starts `s` or occurs in the rest of it. */
  predicate Contains(s: string, p: string)
    decreases |s|
  {
    p <= s || (|s| > 0 && Contains(s[1..], p))
  }

  /** An occurrence past the first position is an occurrence in the tail. */
  lemma OccursInTail(s: string, p: string, i: int)
    requires |s| > 0 && i >= 0
    ensures OccursAt(s, p, i + 1) <==> OccursAt(s[1..], p, i)
  {
    if 0 <= i && i + 1 + |p| <= |s| {
      assert s[1..][i..i + |p|] == s[i + 1..i + 1 + |p|];
    }
  }

  /** `Contains` holds exactly when `p` occurs at some position of `s`. */
  lemma {:induction false} ContainsOccurs(s: string, p: string)
    ensures Contains(s, p) <==> exists i :: 0 <= i <= |s| && OccursAt(s, p, i)
    decreases |s|
  {
    if p <= s {
      assert OccursAt(s, p, 0);
    } else if |s| > 0 {
      ContainsOccurs(s[1..], p);
      if exists i :: 0 <= i <= |s| && OccursAt(s, p, i) {
        var i :| 0 <= i <= |s| && OccursAt(s, p, i);
        assert i != 0;
        OccursInTail(s, p, i - 1);
      }
      if exists i :: 0 <= i <= |s[1..]| && OccursAt(s[1..], p, i) {
        var i :| 0 <= i <= |s[1..]| && OccursAt(s[1..], p, i);
        OccursInTail(s, p, i);
      }
    }
  }

  /** The characters `String.prototype.trim` removes: WhiteSpace and
      LineTerminator of ECMA-262, section 12.2 and 12.3. */
  predicate IsWhitespace(c: char) {
    c == ' ' || c == '\t' || c == '\n' || c == '\r' || c == '\U{000B}' || c == '\U{000C}'
    || c == '\U{00A0}' || c == '\U{1680}' || ('\U{2000}' <= c <= '\U{200A}')
    || c == '\U{2028}' || c == '\U{2029}' || c == '\U{202F}' || c == '\U{205F}'
    || c == '\U{3000}' || c == '\U{FEFF}'
  }

  /** What is left of `s` once its leading white space is dropped. */
  function TrimStart(s: string): (r: string)
    ensures |r| <= |s|
    ensures |r| > 0 ==> !IsWhitespace(r[0])
  {
    if |s| > 0 && IsWhitespace(s[0]) then TrimStart(s[1..]) else s
  }

  /** What is left of `s` once its trailing white space is dropped. */
  function TrimEnd(s: string): (r: string)
    ensures |r| <= |s|
    ensures |r| > 0 ==> !IsWhitespace(r[|r| - 1])
  {
    if |s| > 0 && IsWhitespace(s[|s| - 1]) then TrimEnd(s[..|s| - 1]) else s
  }

  /** `s.trim()` */
  function Trim(s: string): string {
    TrimEnd(TrimStart(s))
  }

  /** Trimming the start drops a run of white space and keeps the rest. */
  lemma {:induction false} TrimStartDrops(s: string)
    ensures var r := TrimStart(s);
      r == s[|s| - |r|..] && forall i :: 0 <= i < |s| - |r| ==> IsWhitespace(s[i])
  {
    if |s| > 0 && IsWhitespace(s[0]) {
      TrimStartDrops(s[1..]);
    }
  }

  /** Trimming the end drops a run of white space and keeps the rest. */
  lemma {:induction false} TrimEndDrops(s: string)
    ensures var r := TrimEnd(s);
      r == s[..|r|] && forall i :: |r| <= i < |s| ==> IsWhitespace(s[i])
  {
    if |s| > 0 && IsWhitespace(s[|s| - 1]) {
      TrimEndDrops(s[..|s| - 1]);
    }
  }

  /** A trimmed string neither starts nor ends with white space, so trimming
      it again changes nothing. */
  lemma TrimIdempotent(s: string)
    ensures var t := Trim(s); t == "" || (!IsWhitespace(t[0]) && !IsWhitespace(t[|t| - 1]))
    ensures Trim(Trim(s)) == Trim(s)
  {
    var u := TrimStart(s);
    var t := TrimEnd(u);
    if |t| > 0 {
      TrimEndDrops(u);
      assert t[0] == u[0];
      assert TrimStart(t) == t;
      assert TrimEnd(t) == t;
    }
  }

  /** `s.split(c)` for a one-character separator: the pieces between the
      separators, so there is always one more piece than separators. */
  function SplitOn(s: string, c: char): (r: seq<string>)
    ensures |r| >= 1
    decreases |s|
  {
    if |s| == 0 then [""]
    else if s[0] == c then [""] + SplitOn(s[1..], c)
    else
      var rest := SplitOn(s[1..], c);
      [[s[0]] + rest[0]] + rest[1..]
  }

  function DropTabs(s: string): (r: string)
    ensures |r| <= |s|
  {
    if |s| > 0 && s[0] == '\t' then DropTabs(s[1..]) else s
  }

  /** `s.split(/\t+/)`: every maximal run of tabs separates two pieces. */
  function SplitTabRuns(s: string): (r: seq<string>)
    ensures |r| >= 1
    decreases |s|
  {
    if |s| == 0 then [""]
    else if s[0] == '\t' then [""] + SplitTabRuns(DropTabs(s[1..]))
    else
      var rest := SplitTabRuns(s[1..]);
      [[s[0]] + rest[0]] + rest[1..]
  }

  predicate IsDecDigit(c: char) {
    '0' <= c <= '9'
  }

  predicate IsHexDigit(c: char) {
    IsDecDigit(c) || 'a' <= c <= 'f' || 'A' <= c <= 'F'
  }

  /** `!isNaN(parseInt(s))`: after leading white space and an optional sign,
      a `0x`/`0X` prefix asks for at least one hexadecimal digit, and
      otherwise at least one decimal digit must follow. Trailing characters
      are ignored, as `parseInt` ignores them. */
  predicate ParsesAsInt(s: string) {
    var t := TrimStart(s);
    var u := if |t| > 0 && (t[0] == '+' || t[0] == '-') then t[1..] else t;
    if |u| >= 2 && u[0] == '0' && (u[1] == 'x' || u[1] == 'X')
    then |u| >= 3 && IsHexDigit(u[2])
    else |u| >= 1 && IsDecDigit(u[0])
  }

  /** The decimal text of a natural number, as a template literal `${n}` gives it. */
  function NatToString(n: nat): (r: string)
    ensures |r| >= 1
    ensures forall i :: 0 <= i < |r| ==> IsDecDigit(r[i])
  {
    var digit := ('0' as int + n % 10) as char;
    if n < 10 then [digit] else NatToString(n / 10) + [digit]
  }

  /** The number a string of decimal digits denotes. */
  function DecimalValue(s: string): nat {
    if |s| == 0 then 0
    else 10 * DecimalValue(s[..|s| - 1]) + (if IsDecDigit(s[|s| - 1]) then s[|s| - 1] as int - '0' as int else 0)
  }

  /** Reading the decimal text of `n` gives `n` back. */
  lemma {:induction false} NatToStringValue(n: nat)
    ensures DecimalValue(NatToString(n)) == n
  {
    var r := NatToString(n);
    if n >= 10 {
      NatToStringValue(n / 10);
      assert r[..|r| - 1] == NatToString(n / 10);
    }
  }

  /** The order of JavaScript's default `sort` on strings: lexicographic by character. */
  predicate StringLe(a: string, b: string) {
    |a| == 0 || (|b| > 0 && (a[0] < b[0] || (a[0] == b[0] && StringLe(a[1..], b[1..]))))
  }

  lemma {:induction false} StringLeTotal(a: string, b: string)
    ensures StringLe(a, b) || StringLe(b, a)
  {
    if |a| > 0 && |b| > 0 && a[0] == b[0] {
      StringLeTotal(a[1..], b[1..]);
    }
  }

  lemma {:induction false} StringLeTransitive(a: string, b: string, c: string)
    requires StringLe(a, b) && StringLe(b, c)
    ensures StringLe(a, c)
  {
    if |a| > 0 && a[0] == b[0] && b[0] == c[0] {
      StringLeTransitive(a[1..], b[1..], c[1..]);
    }
  }

  lemma {:induction false} StringLeAntisymmetric(a: string, b: string)
    requires StringLe(a, b) && StringLe(b, a)
    ensures a == b
  {
    if |a| > 0 {
      StringLeAntisymmetric(a[1..], b[1..]);
      assert a == [a[0]] + a[1..];
      assert b == [b[0]] + b[1..];
    }
  }

  /** `xs.join(sep)` */
  function Join(xs: seq<string>, sep: string): string {
    if |xs| == 0 then ""
    else if |xs| == 1 then xs[0]
    else xs[0] + sep + Join(xs[1..], sep)
  }
}
