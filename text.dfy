/** Character classes and small string operations over ASCII text. */
module Text {

  /** `\d` and `char.IsDigit`, restricted to ASCII. */
  predicate IsDigit(c: char) { '0' <= c <= '9' }

  /** `\s`, `char.IsWhiteSpace` and what `string.Trim()` removes, restricted to ASCII:
      space, tab, line feed, vertical tab, form feed, carriage return. */
  predicate IsSpace(c: char) { c == ' ' || '\t' <= c <= '\r' }

  /** `char.IsLetter`, restricted to ASCII. */
  predicate IsLetter(c: char) { 'A' <= c <= 'Z' || 'a' <= c <= 'z' }

  /** `char.IsUpper`, restricted to ASCII. */
  predicate IsUpper(c: char) { 'A' <= c <= 'Z' }

  /** Every character of s[lo..hi] satisfies p. */
  predicate AllIn(s: string, lo: int, hi: int, p: char -> bool)
    requires 0 <= lo <= hi <= |s|
  {
    forall k :: lo <= k < hi ==> p(s[k])
  }

  /** The end of the longest run of characters satisfying p that starts at i. */
  function SpanEnd(s: string, i: nat, p: char -> bool): (j: nat)
    requires i <= |s|
    ensures i <= j <= |s|
    ensures AllIn(s, i, j, p)
    ensures j == |s| || !p(s[j])
    decreases |s| - i
  {
    if i < |s| && p(s[i]) then SpanEnd(s, i + 1, p) else i
  }

  /** A run that cannot be extended is the one SpanEnd finds. */
  lemma {:induction false} SpanEndUnique(s: string, i: nat, j: nat, p: char -> bool)
    requires i <= j <= |s|
    requires AllIn(s, i, j, p)
    requires j == |s| || !p(s[j])
    ensures SpanEnd(s, i, p) == j
    decreases j - i
  {
    if i < j {
      SpanEndUnique(s, i + 1, j, p);
    }
  }

  /** LINQ `Any(p)`. */
  function Any(s: string, p: char -> bool): (r: bool)
    ensures r <==> exists k :: 0 <= k < |s| && p(s[k])
  {
    if s == [] then false
    else if p(s[0]) then true
    else
      var r := Any(s[1..], p);
      assert r ==> exists k :: 0 <= k < |s| && p(s[k]) by {
        if r {
          var k :| 0 <= k < |s[1..]| && p(s[1..][k]);
          assert p(s[k + 1]);
        }
      }
      r
  }

  /** LINQ `All(p)`. */
  function All(s: string, p: char -> bool): (r: bool)
    ensures r <==> forall k :: 0 <= k < |s| ==> p(s[k])
  {
    if s == [] then true
    else if !p(s[0]) then false
    else
      var r := All(s[1..], p);
      assert r ==> forall k :: 0 <= k < |s| ==> p(s[k]) by {
        if r {
          forall k | 0 <= k < |s| ensures p(s[k]) {
            if k > 0 { assert s[k] == s[1..][k - 1]; }
          }
        }
      }
      r
  }

  /** The start of the trailing run of white space within s[lo..hi]. */
  function TrailingSpaceStart(s: string, lo: nat, hi: nat): (j: nat)
    requires lo <= hi <= |s|
    ensures lo <= j <= hi
    ensures AllIn(s, j, hi, IsSpace)
    ensures j == lo || !IsSpace(s[j - 1])
    decreases hi
  {
    if lo < hi && IsSpace(s[hi - 1]) then TrailingSpaceStart(s, lo, hi - 1) else hi
  }

  /** `string.Trim()`: s without its leading and trailing white space. */
  function Trim(s: string): (r: string)
    ensures exists i, j :: 0 <= i <= j <= |s| && r == s[i..j] && AllIn(s, 0, i, IsSpace) && AllIn(s, j, |s|, IsSpace)
    ensures r == [] || (!IsSpace(r[0]) && !IsSpace(r[|r| - 1]))
  {
    var i := SpanEnd(s, 0, IsSpace);
    var j := TrailingSpaceStart(s, i, |s|);
    assert AllIn(s, j, |s|, IsSpace);
    s[i..j]
  }

  /** A non-empty string of decimal digits. */
  predicate IsNumeral(d: string) {
    |d| > 0 && forall k :: 0 <= k < |d| ==> IsDigit(d[k])
  }

  function DigitValue(c: char): nat
    requires IsDigit(c)
  {
    (c as int) - ('0' as int)
  }

  /** The value of a string of decimal digits, most significant first. */
  function DecimalValue(d: string): nat
    requires forall k :: 0 <= k < |d| ==> IsDigit(d[k])
  {
    if d == [] then 0 else 10 * DecimalValue(d[..|d| - 1]) + DigitValue(d[|d| - 1])
  }

  function Pow10(n: nat): nat {
    if n == 0 then 1 else 10 * Pow10(n - 1)
  }

  /** A numeral of n digits is below 10^n. */
  lemma {:induction false} DecimalValueBound(d: string)
    requires forall k :: 0 <= k < |d| ==> IsDigit(d[k])
    ensures DecimalValue(d) < Pow10(|d|)
  {
    if d != [] {
      DecimalValueBound(d[..|d| - 1]);
    }
  }
}
