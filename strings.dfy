/**
 * String operations of the Python runtime that the scanner relies on:
 * `in`, `endswith`, `rstrip`, `strip`, `str.join`, `lower` and `str(int)`.
 */
module Strings {

  /** `needle` occurs in `s` starting at offset `i`. */
  predicate OccursAt(s: string, needle: string, i: int) {
    0 <= i && i + |needle| <= |s| && s[i..i + |needle|] == needle
  }

  /** Python's `needle in s`. */
  predicate Contains(s: string, needle: string)
    ensures Contains(s, needle) ==> |needle| <= |s|
    ensures needle <= s ==> Contains(s, needle)
  {
    assert needle <= s ==> OccursAt(s, needle, 0);
    exists i | 0 <= i <= |s| - |needle| :: OccursAt(s, needle, i)
  }

  /** Python's `s.endswith(suffix)`. */
  predicate EndsWith(s: string, suffix: string) {
    |suffix| <= |s| && s[|s| - |suffix|..] == suffix
  }

  /** Removes the longest suffix of `s` made of characters satisfying `drop`. */
  function RStripBy(s: string, drop: char -> bool): (r: string)
    ensures r <= s
    ensures forall i | |r| <= i < |s| :: drop(s[i])
    ensures r == [] || !drop(r[|r| - 1])
    decreases |s|
  {
    if |s| > 0 && drop(s[|s| - 1]) then RStripBy(s[..|s| - 1], drop) else s
  }

  /** Removes the longest prefix of `s` made of characters satisfying `drop`. */
  function LStripBy(s: string, drop: char -> bool): (r: string)
    ensures |r| <= |s| && r == s[|s| - |r|..]
    ensures forall i | 0 <= i < |s| - |r| :: drop(s[i])
    ensures r == [] || !drop(r[0])
    decreases |s|
  {
    if |s| > 0 && drop(s[0]) then LStripBy(s[1..], drop) else s
  }

  /** The characters Python's `str.isspace` accepts, which `str.strip()` removes. */
  predicate IsSpace(c: char) {
    || ('\t' <= c <= '\r')
    || ('\U{1C}' <= c <= ' ')
    || c == '\U{85}' || c == '\U{A0}' || c == '\U{1680}'
    || ('\U{2000}' <= c <= '\U{200A}')
    || c == '\U{2028}' || c == '\U{2029}' || c == '\U{202F}' || c == '\U{205F}' || c == '\U{3000}'
  }

  /** Python's `s.strip()` with no argument: neither end of the result is whitespace. */
  function Strip(s: string): (r: string)
    ensures |r| <= |s|
    ensures r == [] || (!IsSpace(r[0]) && !IsSpace(r[|r| - 1]))
    ensures exists a, b :: Window(s, r, a, b, IsSpace)
  {
    var l := LStripBy(s, IsSpace);
    var r := RStripBy(l, IsSpace);
    assert exists a, b :: Window(s, r, a, b, IsSpace) by {
      StripWindow(s, l, r, IsSpace);
    }
    r
  }

  /** `r` is `s[a..b]`, and every character of `s` outside it satisfies `drop`. */
  ghost predicate Window(s: string, r: string, a: int, b: int, drop: char -> bool) {
    && 0 <= a <= b <= |s|
    && r == s[a..b]
    && (forall i | 0 <= i < a :: drop(s[i]))
    && (forall i | b <= i < |s| :: drop(s[i]))
  }

  /**
   * A prefix `r` of the suffix `l` of `s`, with only dropped characters
   * before `l` and after `r`, is a window of `s`.
   */
  lemma StripWindow(s: string, l: string, r: string, drop: char -> bool)
    requires |l| <= |s| && l == s[|s| - |l|..]
    requires forall i | 0 <= i < |s| - |l| :: drop(s[i])
    requires r <= l
    requires forall i | |r| <= i < |l| :: drop(l[i])
    ensures Window(s, r, |s| - |l|, |s| - |l| + |r|, drop)
  {
    var a := |s| - |l|;
    assert forall k | 0 <= k < |l| :: l[k] == s[a + k];
    assert forall i | a + |r| <= i < |s| :: s[i] == l[i - a];
    assert r == s[a..a + |r|];
  }

  /** `strip()` leaves nothing exactly when the line is blank or whitespace only. */
  lemma StripBlank(s: string)
    ensures Strip(s) == [] <==> forall i | 0 <= i < |s| :: IsSpace(s[i])
  {
  }

  /** Python's `sep.join(parts)`: the first part, then the separator when more follow. */
  function Join(sep: string, parts: seq<string>): (r: string)
    ensures parts == [] ==> r == []
    ensures |parts| == 1 ==> r == parts[0]
    ensures |parts| > 1 ==> parts[0] + sep <= r
  {
    if |parts| == 0 then ""
    else if |parts| == 1 then parts[0]
    else parts[0] + sep + Join(sep, parts[1..])
  }

  /** `lower()` on one character, exact for ASCII. */
  function LowerChar(c: char): char {
    if 'A' <= c <= 'Z' then (c as int + 32) as char else c
  }

  /** `s.lower()`, exact for ASCII text. */
  function LowerAscii(s: string): string {
    seq(|s|, i requires 0 <= i < |s| => LowerChar(s[i]))
  }

  /** `s.lower().lower() == s.lower()`. */
  lemma LowerAsciiIdempotent(s: string)
    ensures LowerAscii(LowerAscii(s)) == LowerAscii(s)
  {
  }

  function DigitChar(d: nat): char
    requires d < 10
  {
    "0123456789"[d]
  }

  /** Decimal digits of `n`, most significant first, without leading zeros. */
  function Digits(n: nat): (r: string)
    ensures |r| > 0
    ensures forall i | 0 <= i < |r| :: '0' <= r[i] <= '9'
    ensures |r| > 1 ==> r[0] != '0'
    decreases n
  {
    if n < 10 then [DigitChar(n)] else Digits(n / 10) + [DigitChar(n % 10)]
  }

  /** Python's `str(i)` for an `int`: a minus sign exactly for negatives, then the digits of `|i|`. */
  function Decimal(i: int): (r: string)
    ensures |r| > 0 && (r[0] == '-' <==> i < 0)
    ensures var digits := if i < 0 then r[1..] else r;
      && (forall k | 0 <= k < |digits| :: '0' <= digits[k] <= '9')
      && DigitsValue(digits) == if i < 0 then -i else i
  {
    DigitsRoundTrip(if i < 0 then -i else i);
    if i < 0 then "-" + Digits(-i) else Digits(i)
  }

  /** Python's `int(s)` on a string of decimal digits. */
  function DigitsValue(s: string): nat
    requires forall i | 0 <= i < |s| :: '0' <= s[i] <= '9'
  {
    if s == [] then 0 else DigitsValue(s[..|s| - 1]) * 10 + (s[|s| - 1] as int - '0' as int)
  }

  /** `int(str(n)) == n`: the digits name the number they were made from. */
  lemma {:induction false} DigitsRoundTrip(n: nat)
    ensures DigitsValue(Digits(n)) == n
  {
    if n >= 10 {
      var d := Digits(n);
      assert d[..|d| - 1] == Digits(n / 10);
      DigitsRoundTrip(n / 10);
    }
  }

  /** `str(i).lower() == str(i)`: a decimal numeral has no upper-case letter. */
  lemma DecimalIsLowerCase(i: int)
    ensures LowerAscii(Decimal(i)) == Decimal(i)
  {
    var d := Decimal(i);
    if i >= 0 {
      assert forall k | 0 <= k < |d| :: '0' <= d[k] <= '9';
    } else {
      assert d[0] == '-';
      assert forall k | 1 <= k < |d| :: d[k] == Digits(-i)[k - 1];
    }
  }
}
