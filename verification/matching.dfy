/**
 * Regular-expression matching as the pipeline uses it. The regex engine itself
 * is not modelled: a Matcher is an abstract predicate standing for
 * `re.match(pattern, word)`, which succeeds when the pattern matches some
 * prefix of the word (not necessarily the whole word).
 */
module Matching {

  /** m(pattern, word): does `pattern` match at the start of `word`? */
  type Matcher = (string, string) -> bool

  predicate StartsWith(w: string, prefix: string) {
    |prefix| <= |w| && w[..|prefix|] == prefix
  }

  /** Tries the branches of an alternation left to right. */
  function AnyBranch(m: Matcher, patterns: seq<string>, w: string): (b: bool)
    ensures b <==> exists i :: 0 <= i < |patterns| && m(patterns[i], w)
  {
    if |patterns| == 0 then false
    else if m(patterns[0], w) then true
    else
      var rest := AnyBranch(m, patterns[1..], w);
      assert rest ==> exists i :: 0 <= i < |patterns| && m(patterns[i], w) by {
        if rest {
          var i :| 0 <= i < |patterns[1..]| && m(patterns[1..][i], w);
          assert m(patterns[i + 1], w);
        }
      }
      rest
  }

  /**
   * Matching the regex `"|".join(f"({p})" for p in patterns)` at the start of w.
   * With at least one pattern it matches exactly when some branch does; with
   * none the join is the empty regex, which matches (the empty prefix of) every word.
   */
  function AlternationMatches(m: Matcher, patterns: seq<string>, w: string): (b: bool)
    ensures |patterns| == 0 ==> b
    ensures |patterns| > 0 ==> (b <==> exists i :: 0 <= i < |patterns| && m(patterns[i], w))
  {
    |patterns| == 0 || AnyBranch(m, patterns, w)
  }
}
