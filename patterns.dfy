// The two regular expressions of the score parser, (\d+)\s*/\s*(\d+) and (\d+)\.(\d+),
// with .NET's leftmost, greedy matching, over ASCII digits and white space.
module Patterns {
  import opened Wrappers
  import opened Text

  // Two digit groups around a separator character; `spaced` allows \s* on both sides of it.
  datatype Pattern = Pattern(sep: char, spaced: bool)

  // (\d+)\s*/\s*(\d+), the runs/wickets pattern.
  const ScorePattern := Pattern('/', true)

  /** `(\d+)\.(\d+)`, the over.ball pattern. */
  const OversPattern := Pattern('.', false)

  /** The separator is neither a digit nor white space, so each group is a maximal digit run. */
  predicate WellFormed(pat: Pattern) {
    !IsDigit(pat.sep) && !IsSpace(pat.sep)
  }

  /** The text of the two capture groups. */
  datatype Captures = Captures(first: string, second: string)

  /** The pattern occurs in s as s[a..b] (group 1), s[b..p] spaces, s[p] the separator,
      s[p+1..c] spaces and s[c..d] (group 2). */
  ghost predicate Occurs(pat: Pattern, s: string, a: int, b: int, p: int, c: int, d: int) {
    && 0 <= a < b <= p < c < d <= |s|
    && AllIn(s, a, b, IsDigit)
    && AllIn(s, b, p, IsSpace)
    && s[p] == pat.sep
    && AllIn(s, p + 1, c, IsSpace)
    && AllIn(s, c, d, IsDigit)
    && (!pat.spaced ==> b == p && c == p + 1)
  }

  /** The pattern occurs somewhere in s. */
  ghost predicate Matches(pat: Pattern, s: string) {
    exists a, b, p, c, d :: Occurs(pat, s, a, b, p, c, d)
  }

  /** The occurrence is the one a leftmost, greedy regex engine reports: no occurrence starts
      earlier, and group 2 cannot be extended. */
  ghost predicate RegexMatch(pat: Pattern, s: string, a: int, b: int, p: int, c: int, d: int) {
    && Occurs(pat, s, a, b, p, c, d)
    && (forall a', b', p', c', d' :: Occurs(pat, s, a', b', p', c', d') ==> a <= a')
    && (d == |s| || !IsDigit(s[d]))
  }

  // An anchored attempt at position a: greedy \d+, then \s*, the separator, \s*, greedy \d+.
  function MatchAt(pat: Pattern, s: string, a: nat): (m: Option<Captures>)
    requires a <= |s|
    ensures m.Some? ==> IsNumeral(m.value.first) && IsNumeral(m.value.second)
  {
    if a < |s| && IsDigit(s[a]) then
      var b := SpanEnd(s, a, IsDigit);
      var p := if pat.spaced then SpanEnd(s, b, IsSpace) else b;
      if p < |s| && s[p] == pat.sep then
        var c := if pat.spaced then SpanEnd(s, p + 1, IsSpace) else p + 1;
        if c < |s| && IsDigit(s[c]) then
          Some(Captures(s[a..b], s[c..SpanEnd(s, c, IsDigit)]))
        else None
      else None
    else None
  }

  /** `Regex.Match`: the anchored attempts from position `from` onwards, the first that succeeds. */
  function Match(pat: Pattern, s: string, from: nat): (m: Option<Captures>)
    requires from <= |s|
    ensures m.None? ==> forall a :: from <= a <= |s| ==> MatchAt(pat, s, a).None?
    ensures m.Some? ==> exists a :: from <= a <= |s| && MatchAt(pat, s, a) == m &&
                           forall a' :: from <= a' < a ==> MatchAt(pat, s, a').None?
    decreases |s| - from
  {
    if MatchAt(pat, s, from).Some? then MatchAt(pat, s, from)
    else if from == |s| then None
    else Match(pat, s, from + 1)
  }

  /** A successful anchored attempt at a captures an occurrence starting at a, with group 2
      extended as far as it goes. */
  lemma MatchAtSound(pat: Pattern, s: string, a: nat)
    requires a <= |s| && MatchAt(pat, s, a).Some?
    ensures exists b, p, c, d :: Occurs(pat, s, a, b, p, c, d) && (d == |s| || !IsDigit(s[d])) &&
                                 MatchAt(pat, s, a).value == Captures(s[a..b], s[c..d])
  {
    var b := SpanEnd(s, a, IsDigit);
    var p := if pat.spaced then SpanEnd(s, b, IsSpace) else b;
    var c := if pat.spaced then SpanEnd(s, p + 1, IsSpace) else p + 1;
    var d := SpanEnd(s, c, IsDigit);
    assert Occurs(pat, s, a, b, p, c, d);
  }

  /** Wherever an occurrence starts, the anchored attempt succeeds. */
  lemma MatchAtComplete(pat: Pattern, s: string, a: nat, b: int, p: int, c: int, d: int)
    requires WellFormed(pat)
    requires Occurs(pat, s, a, b, p, c, d)
    ensures MatchAt(pat, s, a).Some?
  {
    SpanEndUnique(s, a, b, IsDigit);
    if pat.spaced {
      SpanEndUnique(s, b, p, IsSpace);
      SpanEndUnique(s, p + 1, c, IsSpace);
    }
    assert IsDigit(s[c]);
  }

  /** `Regex.Match` succeeds exactly when the pattern occurs, and then its groups are those of
      the leftmost occurrence, with greedy group 2. */
  lemma MatchMeaning(pat: Pattern, s: string)
    requires WellFormed(pat)
    ensures Match(pat, s, 0).None? <==> !Matches(pat, s)
    ensures Match(pat, s, 0).Some? ==>
              exists a, b, p, c, d :: RegexMatch(pat, s, a, b, p, c, d) &&
                                      Match(pat, s, 0).value == Captures(s[a..b], s[c..d])
  {
    var m := Match(pat, s, 0);
    if m.None? {
      forall a, b, p, c, d | Occurs(pat, s, a, b, p, c, d) ensures false {
        MatchAtComplete(pat, s, a, b, p, c, d);
      }
    } else {
      var a :| 0 <= a <= |s| && MatchAt(pat, s, a) == m && forall a' :: 0 <= a' < a ==> MatchAt(pat, s, a').None?;
      MatchAtSound(pat, s, a);
      var b, p, c, d :| Occurs(pat, s, a, b, p, c, d) && (d == |s| || !IsDigit(s[d])) &&
                        m.value == Captures(s[a..b], s[c..d]);
      forall a', b', p', c', d' | Occurs(pat, s, a', b', p', c', d') ensures a <= a' {
        if a' < a {
          MatchAtComplete(pat, s, a', b', p', c', d');
        }
      }
      assert RegexMatch(pat, s, a, b, p, c, d);
    }
  }

  /** The leftmost greedy match is unique. */
  lemma RegexMatchUnique(pat: Pattern, s: string, a: int, b: int, p: int, c: int, d: int,
                         a': int, b': int, p': int, c': int, d': int)
    requires WellFormed(pat)
    requires RegexMatch(pat, s, a, b, p, c, d) && RegexMatch(pat, s, a', b', p', c', d')
    ensures a == a' && b == b' && p == p' && c == c' && d == d'
  {
    assert a == a';
    SpanEndUnique(s, a, b, IsDigit);
    SpanEndUnique(s, a, b', IsDigit);
    SpanEndUnique(s, b, p, IsSpace);
    SpanEndUnique(s, b, p', IsSpace);
    SpanEndUnique(s, p + 1, c, IsSpace);
    SpanEndUnique(s, p + 1, c', IsSpace);
    SpanEndUnique(s, c, d, IsDigit);
    SpanEndUnique(s, c, d', IsDigit);
  }

  /** An occurrence contains its separator. */
  lemma SeparatorNeeded(pat: Pattern, s: string)
    requires WellFormed(pat)
    requires pat.sep !in s
    ensures Match(pat, s, 0).None?
  {
    MatchMeaning(pat, s);
  }
}
