/**
  String predicates used by the filters: Python's `str.strip`, `str.upper`,
  `str.lower`, and the handful of fixed regular expressions the two scripts
  use, each written out as a prefix, substring or character-class test.
*/
module Text {

  /** Python's `str.isspace` (also what `\s` matches in a `re` pattern). */
  predicate IsSpace(c: char) {
    || c == ' '
    || ('\t' <= c <= '\r')
    || ('\U{1c}' <= c <= '\U{1f}')
    || c == '\U{85}' || c == '\U{a0}' || c == '\U{1680}'
    || ('\U{2000}' <= c <= '\U{200a}')
    || c == '\U{2028}' || c == '\U{2029}' || c == '\U{202f}' || c == '\U{205f}' || c == '\U{3000}'
  }

  /** What `\d` matches, restricted to ASCII digits. */
  predicate IsDigit(c: char) {
    '0' <= c <= '9'
  }

  function UpperChar(c: char): char {
    if 'a' <= c <= 'z' then (c as int - 32) as char else c
  }

  function LowerChar(c: char): char {
    if 'A' <= c <= 'Z' then (c as int + 32) as char else c
  }

  /** `str.upper()` on ASCII letters. */
  function Upper(s: string): (r: string)
    ensures |r| == |s|
  {
    seq(|s|, i requires 0 <= i < |s| => UpperChar(s[i]))
  }

  /** `str.lower()` on ASCII letters. */
  function Lower(s: string): (r: string)
    ensures |r| == |s|
  {
    seq(|s|, i requires 0 <= i < |s| => LowerChar(s[i]))
  }

  predicate StartsWith(s: string, p: string) {
    |p| <= |s| && s[..|p|] == p
  }

  predicate EndsWith(s: string, p: string) {
    |p| <= |s| && s[|s| - |p|..] == p
  }

  /** `p` occurs in `s` at position `i`. */
  predicate OccursAt(s: string, p: string, i: int) {
    0 <= i && i + |p| <= |s| && s[i..i + |p|] == p
  }

  /** `p in s` for strings: a literal substring test. */
  predicate Contains(s: string, p: string) {
    exists i :: 0 <= i <= |s| - |p| && OccursAt(s, p, i)
  }

  /** Case-insensitive `Contains`, as `re.IGNORECASE` does it for an escaped literal. */
  predicate ContainsIgnoreCase(s: string, p: string) {
    Contains(Upper(s), Upper(p))
  }

  predicate StartsWithIgnoreCase(s: string, p: string) {
    StartsWith(Upper(s), Upper(p))
  }

  /** True iff `s` contains one of the literal strings `ps`. */
  predicate ContainsAny(s: string, ps: seq<string>) {
    exists k :: 0 <= k < |ps| && Contains(s, ps[k])
  }

  /** True iff `s` contains one of `ps`, ignoring case. */
  predicate ContainsAnyIgnoreCase(s: string, ps: seq<string>) {
    exists k :: 0 <= k < |ps| && ContainsIgnoreCase(s, ps[k])
  }

  /**
    A regular expression made of literal characters and `.`, matched at
    position `i` of `s`: `.` matches any character but a newline.
  */
  predicate DotPatternAt(s: string, p: string, i: int)
    requires 0 <= i && i + |p| <= |s|
  {
    forall k :: 0 <= k < |p| ==> if p[k] == '.' then s[i + k] != '\n' else s[i + k] == p[k]
  }

  /** `re.search(p, s)` for a pattern of literals and `.`. */
  predicate ContainsDotPattern(s: string, p: string) {
    exists i :: 0 <= i <= |s| - |p| && DotPatternAt(s, p, i)
  }

  /** A pattern without `.` is an ordinary substring test. */
  lemma DotFreePattern(s: string, p: string)
    requires forall k :: 0 <= k < |p| ==> p[k] != '.'
    ensures ContainsDotPattern(s, p) <==> Contains(s, p)
  {
    if ContainsDotPattern(s, p) {
      var i :| 0 <= i <= |s| - |p| && DotPatternAt(s, p, i);
      assert s[i..i + |p|] == p;
      assert OccursAt(s, p, i);
    }
    if Contains(s, p) {
      var i :| 0 <= i <= |s| - |p| && OccursAt(s, p, i);
      forall k | 0 <= k < |p| ensures s[i + k] == p[k] {
        assert s[i..i + |p|][k] == s[i + k];
      }
      assert DotPatternAt(s, p, i);
    }
  }

  /** Every character of `s` is whitespace. */
  predicate AllSpace(s: string) {
    forall k :: 0 <= k < |s| ==> IsSpace(s[k])
  }

  /** The length of the whitespace run `s` starts with. */
  function LeadingSpaces(s: string): (n: nat)
    ensures n <= |s| && AllSpace(s[..n])
    ensures n < |s| ==> !IsSpace(s[n])
  {
    if |s| > 0 && IsSpace(s[0]) then
      var m := LeadingSpaces(s[1..]);
      assert s[..m + 1] == [s[0]] + s[1..][..m];
      m + 1
    else 0
  }

  /** Where the whitespace run `s` ends with begins. */
  function TrailingStart(s: string): (n: nat)
    ensures n <= |s| && AllSpace(s[n..])
    ensures 0 < n ==> !IsSpace(s[n - 1])
  {
    if |s| > 0 && IsSpace(s[|s| - 1]) then
      var m := TrailingStart(s[..|s| - 1]);
      assert s[m..] == s[..|s| - 1][m..] + [s[|s| - 1]];
      m
    else |s|
  }

  /** `\s*`: the string with its leading whitespace removed. */
  function SkipSpaces(s: string): (r: string)
    ensures |r| <= |s|
  {
    s[LeadingSpaces(s)..]
  }

  /** `str.strip()`: `s` without its leading and trailing whitespace. */
  function Strip(s: string): (r: string)
    ensures |r| <= |s|
  {
    var i := LeadingSpaces(s);
    s[i..i + TrailingStart(s[i..])]
  }

  /** The stripped text is the infix of `s` that lies between a leading and a trailing run of whitespace. */
  lemma StripInfix(s: string)
    ensures var r := Strip(s); var i := LeadingSpaces(s);
      OccursAt(s, r, i) && AllSpace(s[..i]) && AllSpace(s[i + |r|..])
  {
    var i := LeadingSpaces(s);
    var t := TrailingStart(s[i..]);
    assert s[i..][t..] == s[i + t..];
  }

  /** The stripped text neither starts nor ends with whitespace. */
  lemma StripEnds(s: string)
    ensures var r := Strip(s); r == [] || (!IsSpace(r[0]) && !IsSpace(r[|r| - 1]))
  {
    var i := LeadingSpaces(s);
    var t := TrailingStart(s[i..]);
    if t > 0 {
      assert s[i..][t - 1] == s[i + t - 1];
    }
  }

  /** Zero-padded decimal representation of `n` in at least `width` digits. */
  function Decimal(n: nat, width: nat): (r: string)
    ensures |r| >= width && |r| >= 1
    ensures forall k :: 0 <= k < |r| ==> IsDigit(r[k])
    decreases n + width
  {
    var last := ['0' + (n % 10) as char];
    if n < 10 && width <= 1 then last
    else Decimal(n / 10, if width == 0 then 0 else width - 1) + last
  }

  /** The value of a string of ASCII digits. */
  function DigitsValue(s: string): (n: nat)
    requires forall k :: 0 <= k < |s| ==> IsDigit(s[k])
  {
    if s == [] then 0
    else
      assert IsDigit(s[|s| - 1]);
      10 * DigitsValue(s[..|s| - 1]) + (s[|s| - 1] as int - '0' as int)
  }

  /** Reading a zero-padded decimal back gives the number. */
  lemma {:induction false} DecimalValue(n: nat, width: nat)
    ensures DigitsValue(Decimal(n, width)) == n
    decreases n + width
  {
    var r := Decimal(n, width);
    if n < 10 && width <= 1 {
    } else {
      var w := if width == 0 then 0 else width - 1;
      DecimalValue(n / 10, w);
      assert r[..|r| - 1] == Decimal(n / 10, w);
    }
  }

  /** A number below `10^width` is written in exactly `width` digits. */
  lemma {:induction false} DecimalWidth(n: nat, width: nat)
    requires 1 <= width && n < Pow10(width)
    ensures |Decimal(n, width)| == width
    decreases width
  {
    if n < 10 && width <= 1 {
    } else {
      assert width >= 2;
      DecimalWidth(n / 10, width - 1);
    }
  }

  function Pow10(k: nat): (r: nat)
    ensures r >= 1
  {
    if k == 0 then 1 else 10 * Pow10(k - 1)
  }
}
