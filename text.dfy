/**
 * Character classes and the string built-ins of JavaScript and Python that the site uses:
 * case mapping (ASCII only), trimming, prefix and substring tests, the text after the last
 * separator, and the decimal rendering of integers in template strings.
 */
module Text {

  predicate IsAsciiUpper(c: char) { 'A' <= c <= 'Z' }

  predicate IsAsciiLetter(c: char) { 'a' <= c <= 'z' || IsAsciiUpper(c) }

  predicate IsAsciiDigit(c: char) { '0' <= c <= '9' }

  predicate IsAsciiAlnum(c: char) { IsAsciiLetter(c) || IsAsciiDigit(c) }

  /** JavaScript's WhiteSpace and LineTerminator characters: what `trim()` and the regex class `\s` match. */
  predicate IsJsSpace(c: char) {
    c == '\t' || c == '\n' || c == '\U{000B}' || c == '\U{000C}' || c == '\r' || c == ' ' ||
    c == '\U{00A0}' || c == '\U{1680}' || ('\U{2000}' <= c <= '\U{200A}') ||
    c == '\U{2028}' || c == '\U{2029}' || c == '\U{202F}' || c == '\U{205F}' ||
    c == '\U{3000}' || c == '\U{FEFF}'
  }

  /** Python's `str.isspace()`: what `str.strip()` without arguments removes. */
  predicate IsPySpace(c: char) {
    ('\t' <= c <= '\r') || ('\U{001C}' <= c <= '\U{001F}') || c == ' ' ||
    c == '\U{0085}' || c == '\U{00A0}' || c == '\U{1680}' || ('\U{2000}' <= c <= '\U{200A}') ||
    c == '\U{2028}' || c == '\U{2029}' || c == '\U{202F}' || c == '\U{205F}' || c == '\U{3000}'
  }

  // ---------------------------------------------------------------- case mapping

  /** `toLowerCase()` / `lower()` restricted to ASCII: upper-case letters map down, everything else is kept. */
  function LowerChar(c: char): (d: char)
    ensures IsAsciiUpper(c) ==> 'a' <= d <= 'z' && d as int == c as int + 32
    ensures !IsAsciiUpper(c) ==> d == c
  {
    if IsAsciiUpper(c) then (c as int + 32) as char else c
  }

  function ToLower(s: string): (r: string)
    ensures |r| == |s|
    ensures forall i :: 0 <= i < |s| ==> r[i] == LowerChar(s[i])
  {
    seq(|s|, i requires 0 <= i < |s| => LowerChar(s[i]))
  }

  /** Lower-casing neither makes nor unmakes white space. */
  lemma LowerKeepsSpace(s: string)
    ensures forall i :: 0 <= i < |s| ==> IsJsSpace(ToLower(s)[i]) == IsJsSpace(s[i])
  {
    forall i | 0 <= i < |s|
      ensures IsJsSpace(ToLower(s)[i]) == IsJsSpace(s[i])
    {
      assert ToLower(s)[i] == LowerChar(s[i]);
    }
  }

  // ---------------------------------------------------------------- trimming

  /** The length of the run of `isSpace` characters at the start of `s`. */
  function LeadingCount(s: string, isSpace: char -> bool): (k: nat)
    ensures k <= |s|
    ensures forall i :: 0 <= i < k ==> isSpace(s[i])
    ensures k < |s| ==> !isSpace(s[k])
  {
    if s != [] && isSpace(s[0]) then 1 + LeadingCount(s[1..], isSpace) else 0
  }

  /** `LeadingCount` is the first position that is not a space, or the length. */
  lemma LeadingCountOf(s: string, isSpace: char -> bool, k: nat)
    requires k <= |s| && forall i :: 0 <= i < k ==> isSpace(s[i])
    requires k < |s| ==> !isSpace(s[k])
    ensures LeadingCount(s, isSpace) == k
  {
  }

  /** The index where the run of `isSpace` characters at the end of `s` begins. */
  function TrailingStart(s: string, isSpace: char -> bool): (k: nat)
    ensures k <= |s|
    ensures forall i :: k <= i < |s| ==> isSpace(s[i])
    ensures 0 < k ==> !isSpace(s[k - 1])
  {
    if s != [] && isSpace(s[|s| - 1]) then TrailingStart(s[..|s| - 1], isSpace) else |s|
  }

  /**
   * `trim()` (with `IsJsSpace`) and `strip()` (with `IsPySpace`): the result is the slice of `s`
   * that starts after its leading spaces, everything after the slice is space, and the
   * result neither starts nor ends with a space.
   */
  function Trim(s: string, isSpace: char -> bool): (r: string)
    ensures LeadingCount(s, isSpace) + |r| <= |s|
    ensures r == s[LeadingCount(s, isSpace)..LeadingCount(s, isSpace) + |r|]
    ensures forall i :: LeadingCount(s, isSpace) + |r| <= i < |s| ==> isSpace(s[i])
    ensures r != [] ==> !isSpace(r[0]) && !isSpace(r[|r| - 1])
  {
    var t := s[LeadingCount(s, isSpace)..];
    t[..TrailingStart(t, isSpace)]
  }

  /** A string that neither starts nor ends with a space is its own trim. */
  lemma TrimUnpadded(s: string, isSpace: char -> bool)
    requires s != [] && !isSpace(s[0]) && !isSpace(s[|s| - 1])
    ensures Trim(s, isSpace) == s
  {
    var r := Trim(s, isSpace);
    assert LeadingCount(s, isSpace) == 0;
    assert |r| == |s|;
  }

  /** Trimming leaves nothing exactly when every character is a space. */
  lemma TrimEmpty(s: string, isSpace: char -> bool)
    ensures Trim(s, isSpace) == [] <==> forall i :: 0 <= i < |s| ==> isSpace(s[i])
  {
    var k := LeadingCount(s, isSpace);
    if Trim(s, isSpace) != [] {
      assert Trim(s, isSpace)[0] == s[k];
    }
  }

  /** Position `i` of the trimmed string is position `i` after the leading spaces. */
  lemma TrimAt(s: string, isSpace: char -> bool, i: nat)
    requires i < |Trim(s, isSpace)|
    ensures Trim(s, isSpace)[i] == s[LeadingCount(s, isSpace) + i]
  {
  }

  /** A character that is not a space survives trimming. */
  lemma TrimKeepsNonSpace(s: string, isSpace: char -> bool, x: nat)
    requires x < |s| && !isSpace(s[x])
    ensures LeadingCount(s, isSpace) <= x < LeadingCount(s, isSpace) + |Trim(s, isSpace)|
  {
  }

  // ---------------------------------------------------------------- searching

  /** `s.startsWith(p)`. */
  predicate StartsWith(s: string, p: string) { p <= s }

  /** `s.includes(p)`: `p` occurs in `s` at some position. */
  predicate Contains(s: string, p: string) {
    exists i :: 0 <= i <= |s| - |p| && p <= s[i..]
  }

  /**
   * The text after the last `c` in `s` (`s.split(c).pop()` in JavaScript,
   * `s.rsplit(c, 1)[-1]` in Python): a suffix of `s` without `c`, preceded by `c`
   * whenever `s` contains one, and all of `s` otherwise.
   */
  function AfterLast(s: string, c: char): (r: string)
    ensures c !in r
    ensures |r| <= |s| && r == s[|s| - |r|..]
    ensures c in s ==> |r| < |s| && s[|s| - |r| - 1] == c
    ensures c !in s ==> r == s
  {
    if s == [] then []
    else if s[|s| - 1] == c then []
    else
      var r := AfterLast(s[..|s| - 1], c);
      AfterLastStep(s, r, c);
      r + [s[|s| - 1]]
  }

  /** The contract of `AfterLast` carries over from all of `s` but its last character, which is not `c`, to `s`. */
  lemma AfterLastStep(s: string, r: string, c: char)
    requires s != [] && s[|s| - 1] != c
    requires var init := s[..|s| - 1];
      && c !in r && |r| <= |init| && r == init[|init| - |r|..]
      && (c in init ==> |r| < |init| && init[|init| - |r| - 1] == c)
      && (c !in init ==> r == init)
    ensures c !in r + [s[|s| - 1]]
    ensures |r + [s[|s| - 1]]| <= |s| && r + [s[|s| - 1]] == s[|s| - |r + [s[|s| - 1]]|..]
    ensures c in s ==> |r + [s[|s| - 1]]| < |s| && s[|s| - |r + [s[|s| - 1]]| - 1] == c
    ensures c !in s ==> r + [s[|s| - 1]] == s
  {
    var init := s[..|s| - 1];
    assert s == init + [s[|s| - 1]];
    assert s[|s| - |r| - 1..] == init[|init| - |r|..] + [s[|s| - 1]];
    assert c in s <==> c in init;
  }

  /** After joining with `c`, the text after the last `c` is the part that holds no `c`. */
  lemma {:induction false} AfterLastJoin(p: string, c: char, e: string)
    requires c !in e
    ensures AfterLast(p + [c] + e, c) == e
    decreases |e|
  {
    var s := p + [c] + e;
    if e == [] {
      assert s[|s| - 1] == c;
    } else {
      var e' := e[..|e| - 1];
      assert s[..|s| - 1] == p + [c] + e';
      assert s[|s| - 1] == e[|e| - 1];
      AfterLastJoin(p, c, e');
      assert e == e' + [e[|e| - 1]];
    }
  }

  /** `s.indexOf(c)` when `c` occurs: the position of its first occurrence. */
  function IndexOf(s: string, c: char): (i: nat)
    requires c in s
    ensures i < |s| && s[i] == c && c !in s[..i]
  {
    if s[0] == c then 0
    else
      assert s == [s[0]] + s[1..];
      1 + IndexOf(s[1..], c)
  }

  // ---------------------------------------------------------------- decimal numbers

  function DigitChar(d: nat): (c: char)
    requires d < 10
    ensures IsAsciiDigit(c) && c as int - '0' as int == d
  {
    ('0' as int + d) as char
  }

  /** The decimal digits of `n`, most significant first, without leading zeros. */
  function NatToString(n: nat): (s: string)
    ensures |s| > 0 && (forall i :: 0 <= i < |s| ==> IsAsciiDigit(s[i]))
    ensures |s| > 1 ==> s[0] != '0'
  {
    if n < 10 then [DigitChar(n)] else NatToString(n / 10) + [DigitChar(n % 10)]
  }

  /** How a JavaScript template string or a Python f-string prints an integer. */
  function IntToString(n: int): (s: string)
    ensures |s| > 0 && '.' !in s
  {
    if n < 0 then "-" + NatToString(-n) else NatToString(n)
  }

  /** The value of a string of decimal digits (the inverse of `NatToString`). */
  function DigitsValue(s: string): int {
    if s == [] then 0 else 10 * DigitsValue(s[..|s| - 1]) + (s[|s| - 1] as int - '0' as int)
  }

  /** Reads back what `IntToString` prints. */
  function ParseInt(s: string): int {
    if s != [] && s[0] == '-' then -DigitsValue(s[1..]) else DigitsValue(s)
  }

  lemma {:induction false} NatToStringRoundTrip(n: nat)
    ensures DigitsValue(NatToString(n)) == n
  {
    if n >= 10 {
      var s := NatToString(n);
      assert s[..|s| - 1] == NatToString(n / 10);
      NatToStringRoundTrip(n / 10);
    }
  }

  lemma IntToStringRoundTrip(n: int)
    ensures ParseInt(IntToString(n)) == n
  {
    if n < 0 {
      var s := IntToString(n);
      assert s[1..] == NatToString(-n);
      NatToStringRoundTrip(-n);
    } else {
      NatToStringRoundTrip(n);
    }
  }

  /** Different integers print differently. */
  lemma IntToStringInjective(a: int, b: int)
    ensures IntToString(a) == IntToString(b) <==> a == b
  {
    IntToStringRoundTrip(a);
    IntToStringRoundTrip(b);
  }

  /** In `x + [c] + y` with no `c` in `x`, the first `c` sits right after `x`, so `x` and `y` can be read back. */
  lemma SplitAtFirst(x: string, y: string, x': string, y': string, c: char)
    requires c !in x && c !in x'
    requires x + [c] + y == x' + [c] + y'
    ensures x == x' && y == y'
  {
    var s := x + [c] + y;
    assert forall i :: 0 <= i < |x| ==> s[i] == x[i];
    assert forall i :: 0 <= i < |x'| ==> s[i] == x'[i];
    assert s[|x|] == c && s[|x'|] == c;
    assert |x| == |x'|;
    assert x == s[..|x|] && x' == s[..|x'|];
    assert y == s[|x| + 1..] && y' == s[|x'| + 1..];
  }
}
