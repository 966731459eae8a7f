/**
 * A regular-expression search for a literal prefix followed by a captured
 * run of one or more digits: the leftmost index where the prefix is
 * followed by a digit, and the greedy run of digits after it. The digit
 * class is taken to be the ASCII digits.
 */
module Regex {
  import opened Wrappers
  import opened Strings

  /** `p` followed by a digit starts at index `k` of `s`. */
  predicate MatchAt(s: string, p: string, k: int) {
    0 <= k && k + |p| < |s| && s[k..k + |p|] == p && IsDigit(s[k + |p|])
  }

  /** `k` is where a left-to-right search finds its first match. */
  predicate Leftmost(s: string, p: string, k: int) {
    MatchAt(s, p, k) && forall j :: 0 <= j < k ==> !MatchAt(s, p, j)
  }

  /** `g` is the longest run of digits that starts at index `j` of `s`. */
  predicate MaximalDigitsAt(s: string, j: int, g: string) {
    && g != [] && AllDigits(g)
    && 0 <= j && j + |g| <= |s| && s[j..j + |g|] == g
    && (j + |g| == |s| || !IsDigit(s[j + |g|]))
  }

  /** The first match at or after index `i`, scanning as the regex engine does. */
  function FirstMatchFrom(s: string, p: string, i: nat): (r: Option<nat>)
    requires i <= |s|
    ensures r.Some? ==> i <= r.value && MatchAt(s, p, r.value)
    ensures r.Some? ==> forall j :: i <= j < r.value ==> !MatchAt(s, p, j)
    ensures r.None? ==> forall j :: i <= j ==> !MatchAt(s, p, j)
    decreases |s| - i
  {
    if MatchAt(s, p, i) then Some(i)
    else if i == |s| then None
    else FirstMatchFrom(s, p, i + 1)
  }

  /** The number of digits in the run that starts at index `j` (the greedy `\d+`). */
  function DigitRun(s: string, j: nat): (n: nat)
    requires j <= |s|
    ensures j + n <= |s|
    ensures forall t :: j <= t < j + n ==> IsDigit(s[t])
    ensures j + n == |s| || !IsDigit(s[j + n])
    decreases |s| - j
  {
    if j < |s| && IsDigit(s[j]) then 1 + DigitRun(s, j + 1) else 0
  }

  /**
   * The search for `p` followed by captured digits: `None` exactly when `p`
   * is nowhere followed by a digit; otherwise the captured group, the
   * maximal digit run after the leftmost match.
   */
  function SearchDigits(s: string, p: string): (g: Option<string>)
    ensures g.None? <==> forall k :: !MatchAt(s, p, k)
    ensures g.Some? ==> g.value != [] && AllDigits(g.value)
    ensures forall k :: Leftmost(s, p, k) ==> g.Some? && MaximalDigitsAt(s, k + |p|, g.value)
  {
    match FirstMatchFrom(s, p, 0)
    case None => None
    case Some(k) =>
      var n := DigitRun(s, k + |p|);
      DigitRunIsMaximal(s, k + |p|);
      assert forall k' :: Leftmost(s, p, k') ==> k' == k;
      Some(s[k + |p|..k + |p| + n])
  }

  /** At a digit, the digit run starting there is the maximal run. */
  lemma DigitRunIsMaximal(s: string, j: nat)
    requires j < |s| && IsDigit(s[j])
    ensures MaximalDigitsAt(s, j, s[j..j + DigitRun(s, j)])
  {
    var g := s[j..j + DigitRun(s, j)];
    assert forall t :: 0 <= t < |g| ==> g[t] == s[j + t];
  }

  /** Two maximal digit runs at the same index are the same. */
  lemma MaximalDigitsUnique(s: string, j: int, g: string, h: string)
    requires MaximalDigitsAt(s, j, g) && MaximalDigitsAt(s, j, h)
    ensures g == h
  {
    assert forall t :: 0 <= t < |g| ==> s[j + t] == g[t];
    assert forall t :: 0 <= t < |h| ==> s[j + t] == h[t];
    assert |g| == |h|;
  }

  /**
   * Planting `p` and then a maximal run of digits `d` in `s`, with no match
   * earlier, makes the search return exactly `d`.
   */
  lemma SearchFindsPlanted(s: string, p: string, k: nat, d: string)
    requires k + |p| + |d| <= |s| && s[k..k + |p|] == p
    requires MaximalDigitsAt(s, k + |p|, d)
    requires forall j :: 0 <= j < k ==> !MatchAt(s, p, j)
    ensures SearchDigits(s, p) == Some(d)
  {
    assert s[k + |p|] == d[0];
    assert Leftmost(s, p, k);
    MaximalDigitsUnique(s, k + |p|, SearchDigits(s, p).value, d);
  }

  /**
   * No match starts before index `n` when `p` starts at `n`, `p`'s second
   * character differs from its first, and that character does not occur before `n`.
   */
  lemma NoEarlierMatch(s: string, p: string, n: nat)
    requires |p| >= 2 && p[0] != p[1]
    requires n + |p| <= |s| && s[n..n + |p|] == p
    requires p[1] !in s[..n]
    ensures forall j :: 0 <= j < n ==> !MatchAt(s, p, j)
  {
    forall j | 0 <= j < n ensures !MatchAt(s, p, j) {
      assert s[j + 1] != p[1] by {
        if j + 1 < n {
          assert s[j + 1] == s[..n][j + 1];
        } else {
          assert s[n] == s[n..n + |p|][0];
        }
      }
      if j + |p| <= |s| {
        assert s[j..j + |p|][1] == s[j + 1];
      }
    }
  }
}
