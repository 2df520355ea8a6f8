/** String primitives of the two languages the system is written in, as the
    core uses them: JavaScript's `\s` class, `trim`, `indexOf` and `parseInt`,
    and Python's `.lower()`, `.splitlines()`, `.find()`, `in`, `", ".join`,
    string ordering and `str(int)`. Strings are sequences of code points. */
module Text {
  import opened Wrappers

  // ---------------------------------------------------------------------
  // Characters
  // ---------------------------------------------------------------------

  /** ECMAScript WhiteSpace and LineTerminator code points: the class `\s`
      and the characters `String.prototype.trim` removes. */
  predicate IsJsSpace(c: char) {
    c == '\t' || c == '\n' || c == '\U{000B}' || c == '\U{000C}' || c == '\r'
    || c == ' ' || c == '\U{00A0}' || c == '\U{1680}'
    || ('\U{2000}' <= c <= '\U{200A}')
    || c == '\U{2028}' || c == '\U{2029}' || c == '\U{202F}' || c == '\U{205F}'
    || c == '\U{3000}' || c == '\U{FEFF}'
  }

  /** The decimal digits `0`-`9` (the class `\d`). */
  predicate IsDigit(c: char) {
    '0' <= c <= '9'
  }

  /** True iff some character of `s` is in `\s`. */
  predicate HasJsSpace(s: string) {
    exists i :: 0 <= i < |s| && IsJsSpace(s[i])
  }

  // ---------------------------------------------------------------------
  // JavaScript trim
  // ---------------------------------------------------------------------

  /** `s` without its leading white space. */
  function TrimStart(s: string): (r: string)
    ensures |r| <= |s| && r == s[|s| - |r|..]
    ensures forall i :: 0 <= i < |s| - |r| ==> IsJsSpace(s[i])
    ensures r == [] || !IsJsSpace(r[0])
  {
    if s != [] && IsJsSpace(s[0]) then TrimStart(s[1..]) else s
  }

  /** `s` without its trailing white space. */
  function TrimEnd(s: string): (r: string)
    ensures |r| <= |s| && r == s[..|r|]
    ensures forall i :: |r| <= i < |s| ==> IsJsSpace(s[i])
    ensures r == [] || !IsJsSpace(r[|r| - 1])
  {
    if s != [] && IsJsSpace(s[|s| - 1]) then TrimEnd(s[..|s| - 1]) else s
  }

  /** `r` is what remains of `s` after removing `k` white-space characters
      in front and the rest of `s` behind, all of them white space. */
  predicate TrimmedAt(s: string, r: string, k: int) {
    0 <= k <= |s| - |r| && r == s[k..k + |r|]
    && (forall i :: 0 <= i < k ==> IsJsSpace(s[i]))
    && (forall i :: k + |r| <= i < |s| ==> IsJsSpace(s[i]))
  }

  /** `String.prototype.trim`: the longest infix of `s` that neither starts
      nor ends with white space, obtained by removing white space only. */
  function Trim(s: string): (r: string)
    ensures exists k :: TrimmedAt(s, r, k)
    ensures r == [] || (!IsJsSpace(r[0]) && !IsJsSpace(r[|r| - 1]))
  {
    var t := TrimStart(s);
    var r := TrimEnd(t);
    assert r == s[|s| - |t|..][..|r|];
    assert TrimmedAt(s, r, |s| - |t|);
    r
  }

  lemma {:induction false} TrimEmptyIffAllSpace(s: string)
    ensures Trim(s) == [] <==> forall i :: 0 <= i < |s| ==> IsJsSpace(s[i])
  {
    if forall i :: 0 <= i < |s| ==> IsJsSpace(s[i]) {
      AllSpaceTrimStart(s);
    }
  }

  lemma {:induction false} AllSpaceTrimStart(s: string)
    requires forall i :: 0 <= i < |s| ==> IsJsSpace(s[i])
    ensures TrimStart(s) == []
  {
    if s != [] {
      AllSpaceTrimStart(s[1..]);
    }
  }

  /** Trimming is idempotent. */
  lemma TrimIdempotent(s: string)
    ensures Trim(Trim(s)) == Trim(s)
  {
    var r := Trim(s);
    if r != [] {
      assert TrimStart(r) == r;
      assert TrimEnd(r) == r;
    }
  }

  // ---------------------------------------------------------------------
  // Searching
  // ---------------------------------------------------------------------

  /** `s.indexOf(c)` / `s.find(c)`: the first index of `c`, or -1. */
  function IndexOf(s: string, c: char): (r: int)
    ensures r == -1 <==> c !in s
    ensures r != -1 ==> 0 <= r < |s| && s[r] == c && c !in s[..r]
  {
    if s == [] then -1
    else if s[0] == c then 0
    else
      var k := IndexOf(s[1..], c);
      assert s[1..][..k + 1] == s[1..k + 2] by { if k >= 0 { assert s[1..][..k + 1 - 1] == s[1..k + 1]; } }
      if k < 0 then -1 else
        assert s[..k + 1] == [s[0]] + s[1..][..k];
        k + 1
  }

  /** `sub` occurs in `s` starting at index `i`. */
  predicate OccursAt(s: string, sub: string, i: int) {
    0 <= i <= |s| - |sub| && s[i..i + |sub|] == sub
  }

  /** Python's `sub in s`: `sub` occurs in `s` as a contiguous infix. */
  predicate Contains(s: string, sub: string) {
    exists i | 0 <= i <= |s| - |sub| :: OccursAt(s, sub, i)
  }

  /** Python's `s.endswith(suffix)`. */
  predicate EndsWith(s: string, suffix: string) {
    |suffix| <= |s| && s[|s| - |suffix|..] == suffix
  }

  // ---------------------------------------------------------------------
  // Python str.lower
  // ---------------------------------------------------------------------

  /** Lower-case mapping of one code point for Basic Latin, Latin-1 and
      Cyrillic capitals; every other code point is left as it is. */
  function LowerChar(c: char): (r: char)
    ensures r == c || ('A' <= c <= 'Z') || ('\U{00C0}' <= c <= '\U{00DE}') || ('\U{0400}' <= c <= '\U{042F}')
  {
    if 'A' <= c <= 'Z' then (c as int + 32) as char
    else if '\U{00C0}' <= c <= '\U{00DE}' && c != '\U{00D7}' then (c as int + 32) as char
    else if '\U{0410}' <= c <= '\U{042F}' then (c as int + 32) as char
    else if '\U{0400}' <= c <= '\U{040F}' then (c as int + 80) as char
    else c
  }

  /** `s.lower()`, character by character. */
  function Lower(s: string): (r: string)
    ensures |r| == |s|
    ensures forall i :: 0 <= i < |s| ==> r[i] == LowerChar(s[i])
  {
    seq(|s|, i requires 0 <= i < |s| => LowerChar(s[i]))
  }

  /** Lower-casing twice is lower-casing once. */
  lemma LowerIdempotent(s: string)
    ensures Lower(Lower(s)) == Lower(s)
  {
  }

  // ---------------------------------------------------------------------
  // Python str.splitlines
  // ---------------------------------------------------------------------

  /** The line boundaries of `str.splitlines`. */
  predicate IsLineBoundary(c: char) {
    c == '\n' || c == '\r' || c == '\U{000B}' || c == '\U{000C}' || c == '\U{001C}'
    || c == '\U{001D}' || c == '\U{001E}' || c == '\U{0085}' || c == '\U{2028}' || c == '\U{2029}'
  }

  /** Index of the first line boundary of `s`, or `|s|` when there is none. */
  function FindBoundary(s: string): (i: nat)
    ensures i <= |s|
    ensures forall j :: 0 <= j < i ==> !IsLineBoundary(s[j])
    ensures i < |s| ==> IsLineBoundary(s[i])
  {
    if s == [] then 0
    else if IsLineBoundary(s[0]) then 0
    else FindBoundary(s[1..]) + 1
  }

  /** `s.splitlines()`: the lines of `s` without their terminators; `"\r\n"`
      ends one line, and a final terminator does not start an empty line. */
  function SplitLines(s: string): (lines: seq<string>)
    ensures forall k, j :: 0 <= k < |lines| && 0 <= j < |lines[k]| ==> !IsLineBoundary(lines[k][j])
    ensures s == [] <==> lines == []
    decreases |s|
  {
    if s == [] then []
    else
      var i := FindBoundary(s);
      if i == |s| then [s]
      else
        var next := if s[i] == '\r' && i + 1 < |s| && s[i + 1] == '\n' then i + 2 else i + 1;
        [s[..i]] + SplitLines(s[next..])
  }

  /** Text without a line boundary is one line. */
  lemma SplitLinesOneLine(s: string)
    requires s != [] && forall j | 0 <= j < |s| :: !IsLineBoundary(s[j])
    ensures SplitLines(s) == [s]
  {
  }

  /** A line ended by a single boundary character (other than a "\r" that
      a "\n" follows) is the first line; the lines of the rest follow. */
  lemma SplitLinesBreak(a: string, c: char, t: string)
    requires forall j | 0 <= j < |a| :: !IsLineBoundary(a[j])
    requires IsLineBoundary(c) && !(c == '\r' && t != [] && t[0] == '\n')
    ensures SplitLines(a + [c] + t) == [a] + SplitLines(t)
  {
    var s := a + [c] + t;
    FirstBoundary(a, s);
    assert s[..|a|] == a && s[|a| + 1..] == t;
  }

  /** "\r\n" ends one line, not two. */
  lemma SplitLinesCrLf(a: string, t: string)
    requires forall j | 0 <= j < |a| :: !IsLineBoundary(a[j])
    ensures SplitLines(a + "\r\n" + t) == [a] + SplitLines(t)
  {
    var s := a + "\r\n" + t;
    FirstBoundary(a, s);
    assert s[..|a|] == a && s[|a| + 2..] == t;
  }

  /** The first boundary of `s` is the one right after its boundary-free
      prefix `a`. */
  lemma FirstBoundary(a: string, s: string)
    requires |a| < |s| && s[..|a|] == a && IsLineBoundary(s[|a|])
    requires forall j | 0 <= j < |a| :: !IsLineBoundary(a[j])
    ensures FindBoundary(s) == |a|
  {
  }

  // ---------------------------------------------------------------------
  // Joining
  // ---------------------------------------------------------------------

  /** Python's `sep.join(parts)`. */
  function Join(sep: string, parts: seq<string>): string
    decreases |parts|
  {
    if parts == [] then ""
    else if |parts| == 1 then parts[0]
    else Join(sep, parts[..|parts| - 1]) + sep + parts[|parts| - 1]
  }

  /** Joining a non-empty list unfolds from the front as well. */
  lemma {:induction false} JoinCons(sep: string, x: string, parts: seq<string>)
    requires parts != []
    ensures Join(sep, [x] + parts) == x + sep + Join(sep, parts)
    decreases |parts|
  {
    var all := [x] + parts;
    if |parts| == 1 {
      assert all[..1] == [x];
    } else {
      var init := parts[..|parts| - 1];
      assert all[..|all| - 1] == [x] + init;
      JoinCons(sep, x, init);
    }
  }

  // ---------------------------------------------------------------------
  // Python string ordering
  // ---------------------------------------------------------------------

  /** Python's ordering of `str` values: lexicographic by code point, a proper
      prefix first. Returns -1, 0 or 1. */
  function Compare(a: string, b: string): (r: int)
    ensures -1 <= r <= 1
  {
    if a == [] && b == [] then 0
    else if a == [] then -1
    else if b == [] then 1
    else if a[0] < b[0] then -1
    else if a[0] > b[0] then 1
    else Compare(a[1..], b[1..])
  }

  lemma {:induction false} CompareAntisymmetric(a: string, b: string)
    ensures Compare(a, b) == -Compare(b, a)
  {
    if a != [] && b != [] && a[0] == b[0] {
      CompareAntisymmetric(a[1..], b[1..]);
    }
  }

  lemma {:induction false} CompareZeroIffEqual(a: string, b: string)
    ensures Compare(a, b) == 0 <==> a == b
  {
    if a != [] && b != [] && a[0] == b[0] {
      CompareZeroIffEqual(a[1..], b[1..]);
      assert a == [a[0]] + a[1..];
      assert b == [b[0]] + b[1..];
    }
  }

  lemma {:induction false} CompareTransitive(a: string, b: string, c: string)
    requires Compare(a, b) <= 0 && Compare(b, c) <= 0
    ensures Compare(a, c) <= 0
  {
    if a != [] && b != [] && c != [] && a[0] == b[0] && b[0] == c[0] {
      CompareTransitive(a[1..], b[1..], c[1..]);
    }
  }

  // ---------------------------------------------------------------------
  // Decimal numerals
  // ---------------------------------------------------------------------

  function DigitChar(d: int): (c: char)
    requires 0 <= d < 10
    ensures IsDigit(c)
  {
    ('0' as int + d) as char
  }

  /** Decimal digits of a natural number, no leading zeros. */
  function NatDigits(n: nat): (s: string)
    ensures |s| >= 1
    ensures forall i :: 0 <= i < |s| ==> IsDigit(s[i])
    decreases n
  {
    if n < 10 then [DigitChar(n)] else NatDigits(n / 10) + [DigitChar(n % 10)]
  }

  /** Python's `str(n)` and JavaScript's `String(n)` on an integer. */
  function DecimalString(n: int): string {
    if n < 0 then "-" + NatDigits(-n) else NatDigits(n)
  }

  /** The last character of `str(n)` is the digit `|n| mod 10`. */
  lemma DecimalStringLastDigit(n: int)
    ensures var s := DecimalString(n); |s| >= 1 && s[|s| - 1] == DigitChar((if n < 0 then -n else n) % 10)
  {
  }

  // ---------------------------------------------------------------------
  // JavaScript parseInt (no radix argument)
  // ---------------------------------------------------------------------

  /** Value of a digit character in radix 36 (`0`-`9`, then letters of
      either case), or 36 for any other character. */
  function CharDigitValue(c: char): (v: nat)
    ensures v <= 36
  {
    if '0' <= c <= '9' then c as int - '0' as int
    else if 'a' <= c <= 'z' then c as int - 'a' as int + 10
    else if 'A' <= c <= 'Z' then c as int - 'A' as int + 10
    else 36
  }

  /** The longest prefix of `s` made of digits of the given radix. */
  function DigitPrefix(s: string, radix: nat): (d: string)
    ensures d <= s
    ensures forall i :: 0 <= i < |d| ==> CharDigitValue(d[i]) < radix
    ensures |d| < |s| ==> CharDigitValue(s[|d|]) >= radix
  {
    if s != [] && CharDigitValue(s[0]) < radix then [s[0]] + DigitPrefix(s[1..], radix) else []
  }

  /** The number a string of digits denotes in the given radix. */
  function DigitsValue(d: string, radix: nat): nat
    decreases |d|
  {
    if d == [] then 0
    else DigitsValue(d[..|d| - 1], radix) * radix
         + (var v := CharDigitValue(d[|d| - 1]); if v < radix then v else 0)
  }

  /** The value of the longest run of radix digits at the front of `u`, or
      `None` when `u` does not start with such a digit. */
  function LeadingDigits(u: string, radix: nat): (r: Option<int>)
    ensures r.Some? ==> r.value >= 0
  {
    var d := DigitPrefix(u, radix);
    if d == [] then None else Some(DigitsValue(d, radix))
  }

  /** The unsigned part of `parseInt`: a `0x`/`0X` prefix selects radix 16. */
  function ParseMagnitude(u: string): (r: Option<int>)
    ensures r.Some? ==> r.value >= 0
  {
    if |u| >= 2 && u[0] == '0' && (u[1] == 'x' || u[1] == 'X') then LeadingDigits(u[2..], 16)
    else LeadingDigits(u, 10)
  }

  function Negated(r: Option<int>): Option<int> {
    if r.Some? then Some(-r.value) else None
  }

  /** `parseInt(s)`: leading white space skipped, an optional sign, then the
      magnitude; `None` is JavaScript's `NaN` (no digits). */
  function ParseInt(s: string): Option<int> {
    var t := TrimStart(s);
    if t != [] && t[0] == '-' then Negated(ParseMagnitude(t[1..]))
    else if t != [] && t[0] == '+' then ParseMagnitude(t[1..])
    else ParseMagnitude(t)
  }

  lemma {:induction false} DigitPrefixOfDigits(s: string)
    requires forall i :: 0 <= i < |s| ==> IsDigit(s[i])
    ensures DigitPrefix(s, 10) == s
  {
    if s != [] {
      DigitPrefixOfDigits(s[1..]);
    }
  }

  lemma {:induction false} NatDigitsValue(n: nat)
    ensures DigitsValue(NatDigits(n), 10) == n
    decreases n
  {
    if n >= 10 {
      NatDigitsValue(n / 10);
      var s := NatDigits(n);
      assert s[..|s| - 1] == NatDigits(n / 10);
    }
  }

  lemma ParseMagnitudeDigits(digits: string)
    requires digits != [] && forall i :: 0 <= i < |digits| ==> IsDigit(digits[i])
    ensures ParseMagnitude(digits) == Some(DigitsValue(digits, 10))
  {
    DigitPrefixOfDigits(digits);
  }

  lemma ParseIntDigits(digits: string)
    requires digits != [] && forall i :: 0 <= i < |digits| ==> IsDigit(digits[i])
    ensures ParseInt(digits) == Some(DigitsValue(digits, 10))
  {
    ParseMagnitudeDigits(digits);
    assert !IsJsSpace(digits[0]);
    assert TrimStart(digits) == digits;
    assert digits[0] != '-' && digits[0] != '+';
  }

  lemma ParseIntNegativeDigits(digits: string)
    requires digits != [] && forall i :: 0 <= i < |digits| ==> IsDigit(digits[i])
    ensures ParseInt("-" + digits) == Negated(Some(DigitsValue(digits, 10)))
  {
    ParseMagnitudeDigits(digits);
    var neg := "-" + digits;
    assert neg[0] == '-' && !IsJsSpace(neg[0]);
    assert TrimStart(neg) == neg;
    assert neg[1..] == digits;
  }

  /** `parseInt` reads back what `String` wrote. */
  lemma ParseIntDecimalString(n: int)
    ensures ParseInt(DecimalString(n)) == Some(n)
  {
    var m := if n < 0 then -n else n;
    NatDigitsValue(m);
    if n < 0 {
      ParseIntNegativeDigits(NatDigits(m));
    } else {
      ParseIntDigits(NatDigits(m));
    }
  }
}
