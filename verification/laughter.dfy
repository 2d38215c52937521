/**
 * The laughter normaliser: tokens that the laughter regex matches at their
 * start are replaced, one for one, by a single canonical token.
 */
module Laughter {
  import opened Matching

  /** Used when the settings give no laughter patterns. */
  const DefaultPatterns: seq<string> := ["(ha){2,}", "rofl", "lol"]

  /** Used when the settings give an empty replacement. */
  const DefaultReplacement: string := "LOL"

  function PatternsOrDefault(configured: seq<string>): seq<string> {
    if |configured| == 0 then DefaultPatterns else configured
  }

  function ReplacementOrDefault(configured: string): string {
    if configured == "" then DefaultReplacement else configured
  }

  /**
   * The laughter test stated without the fallback machinery: with no configured
   * patterns a word laughs when one of the three defaults matches it, otherwise
   * when one of the configured patterns does.
   */
  ghost predicate Laughs(m: Matcher, configured: seq<string>, w: string) {
    if |configured| == 0 then m("(ha){2,}", w) || m("rofl", w) || m("lol", w)
    else exists j :: 0 <= j < |configured| && m(configured[j], w)
  }

  /** A matcher that gives the three default patterns their regular-expression meaning. */
  ghost predicate HonoursDefaults(m: Matcher) {
    && (forall w :: m("(ha){2,}", w) <==> StartsWith(w, "haha"))
    && (forall w :: m("rofl", w) <==> StartsWith(w, "rofl"))
    && (forall w :: m("lol", w) <==> StartsWith(w, "lol"))
  }

  /** replace_laughter, with the replacement setting passed in explicitly. */
  function ReplaceLaughter(m: Matcher, words: seq<string>, patterns: seq<string>, replacement: string): (r: seq<string>)
    ensures |r| == |words|
    ensures forall i :: 0 <= i < |words| && !Laughs(m, patterns, words[i]) ==> r[i] == words[i]
    ensures forall i :: 0 <= i < |words| && Laughs(m, patterns, words[i]) && replacement != "" ==>
      r[i] == replacement
    ensures forall i :: 0 <= i < |words| && Laughs(m, patterns, words[i]) && replacement == "" ==>
      r[i] == "LOL"
  {
    var regex := PatternsOrDefault(patterns);
    var token := ReplacementOrDefault(replacement);
    assert forall w :: AlternationMatches(m, regex, w) <==> Laughs(m, patterns, w) by {
      forall w ensures AlternationMatches(m, regex, w) <==> Laughs(m, patterns, w) {
        if |patterns| == 0 {
          assert AlternationMatches(m, regex, w) <==> exists j :: 0 <= j < 3 && m(DefaultPatterns[j], w);
          if m("(ha){2,}", w) { assert m(DefaultPatterns[0], w); }
          if m("rofl", w) { assert m(DefaultPatterns[1], w); }
          if m("lol", w) { assert m(DefaultPatterns[2], w); }
        }
      }
    }
    seq(|words|, i requires 0 <= i < |words| => if AlternationMatches(m, regex, words[i]) then token else words[i])
  }

  /** With no patterns and no replacement configured, the three laughter spellings all become "LOL". */
  lemma DefaultFallback(m: Matcher)
    requires HonoursDefaults(m)
    ensures ReplaceLaughter(m, ["hahaha", "rofl", "lol"], [], "") == ["LOL", "LOL", "LOL"]
  {
    assert StartsWith("hahaha", "haha");
    assert StartsWith("rofl", "rofl");
    assert StartsWith("lol", "lol");
  }

  /**
   * Matching is anchored only at the start: "lollipop" becomes "LOL", while
   * "aha" and a single "ha" stay as they are.
   */
  lemma PrefixLooseness(m: Matcher)
    requires HonoursDefaults(m)
    ensures ReplaceLaughter(m, ["lollipop", "aha", "ha"], [], "") == ["LOL", "aha", "ha"]
  {
    assert StartsWith("lollipop", "lol");
    assert "aha"[..3][0] != "lol"[0];
    assert !StartsWith("aha", "haha");
  }
}
