/**
 * The stopword filter. The base stopword set (the corpus list for Portuguese)
 * and the alphanumeric test (`str.isalnum`) are parameters; the two settings
 * lists arrive as sequences, in the order the settings document gives them.
 */
module Stopwords {
  import opened Seqs

  /**
   * The effective stop set, built as the program builds it: the base set is
   * updated with the extra stopwords, then every keep-word is discarded in turn.
   */
  function StopSet(base: set<string>, extra: seq<string>, keep: seq<string>): (s: set<string>)
    ensures forall w :: w in s <==> (w in base || w in extra) && w !in keep
    decreases |keep|
  {
    if |keep| == 0 then base + (set w | w in extra)
    else
      var last := keep[|keep| - 1];
      assert forall w :: w in keep <==> w in keep[..|keep| - 1] || w == last by {
        assert keep == keep[..|keep| - 1] + [last];
      }
      StopSet(base, extra, keep[..|keep| - 1]) - {last}
  }

  /** A token survives the filter when it is not a stopword and is alphanumeric. */
  predicate Survives(stop: set<string>, isAlnum: string -> bool, w: string) {
    w !in stop && isAlnum(w)
  }

  /** The list comprehension of the filter: keeps the surviving tokens, in order. */
  function FilterTokens(words: seq<string>, stop: set<string>, isAlnum: string -> bool): (r: seq<string>)
    ensures IsSubseq(r, words)
    ensures forall i :: 0 <= i < |r| ==> Survives(stop, isAlnum, r[i])
    ensures forall w :: Survives(stop, isAlnum, w) ==> multiset(r)[w] == multiset(words)[w]
    ensures multiset(r) <= multiset(words)
  {
    if |words| == 0 then []
    else
      var rest := FilterTokens(words[1..], stop, isAlnum);
      assert words == [words[0]] + words[1..];
      if Survives(stop, isAlnum, words[0]) then [words[0]] + rest else rest
  }

  /**
   * remove_stopwords: drops every token that is in (base + extra) - keep or
   * is not alphanumeric, keeping the order of the rest.
   */
  function RemoveStopwords(words: seq<string>, base: set<string>, extra: seq<string>, keep: seq<string>,
                           isAlnum: string -> bool): (r: seq<string>)
    ensures IsSubseq(r, words)
    // every kept token is alphanumeric and outside the effective stop set
    ensures forall i :: 0 <= i < |r| ==>
      isAlnum(r[i]) && (r[i] in keep || (r[i] !in base && r[i] !in extra))
    // every alphanumeric token outside the effective stop set is kept, every time it occurs
    ensures forall w :: isAlnum(w) && (w in keep || (w !in base && w !in extra)) ==>
      multiset(r)[w] == multiset(words)[w]
    // keep-words win over both the base set and the extra stopwords
    ensures forall w :: w in keep && isAlnum(w) ==> multiset(r)[w] == multiset(words)[w]
    // a token that is not alphanumeric is always dropped, keep-word or not
    ensures forall w :: !isAlnum(w) ==> w !in r
  {
    FilterTokens(words, StopSet(base, extra, keep), isAlnum)
  }

  /** The filter never makes the token sequence longer. */
  lemma RemoveStopwordsShortens(words: seq<string>, base: set<string>, extra: seq<string>, keep: seq<string>,
                                isAlnum: string -> bool)
    ensures |RemoveStopwords(words, base, extra, keep, isAlnum)| <= |words|
  {
    SubseqLength(RemoveStopwords(words, base, extra, keep, isAlnum), words);
  }

  /** When every token survives, the filter returns its input unchanged. */
  lemma {:induction false} AllSurvive(words: seq<string>, stop: set<string>, isAlnum: string -> bool)
    requires forall i :: 0 <= i < |words| ==> Survives(stop, isAlnum, words[i])
    ensures FilterTokens(words, stop, isAlnum) == words
  {
    if |words| > 0 {
      AllSurvive(words[1..], stop, isAlnum);
      assert words == [words[0]] + words[1..];
    }
  }
}
