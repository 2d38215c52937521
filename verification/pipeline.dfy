/**
 * preprocess_text and the lemmatisation step of the main command. The
 * settings document becomes an explicit value; tokenisation is done before
 * this point, so the pipeline starts from the token sequence.
 */
module Pipeline {
  import opened Wrappers
  import opened Seqs
  import opened Matching
  import opened Stopwords
  import opened Laughter
  import opened Normalize
  import opened PartOfSpeech

  /** The settings the pipeline stages read. */
  datatype Settings = Settings(
    keepStopWords: seq<string>,
    includeStopWords: seq<string>,
    laughterPatterns: seq<string>,
    laughterReplacement: string,
    normalizePatterns: seq<Entry>)

  /**
   * preprocess_text from the tokens on: stopword filter, then laughter
   * normaliser, then pattern normaliser. The surviving tokens come out one for
   * one and in order, each replaced by the laughter token when it laughs and
   * then normalised. So every token that comes out is a replacement of the
   * normalising mapping, the laughter token, or an input token that survived
   * the stopword filter and is not laughter.
   */
  function Preprocess(settings: Settings, base: set<string>, isAlnum: string -> bool, m: Matcher,
                      tokens: seq<string>): (r: seq<string>)
    ensures |r| <= |tokens|
    // the stages run in the order filter, laughter, normalise, one for one over the survivors
    ensures var kept := RemoveStopwords(tokens, base, settings.includeStopWords, settings.keepStopWords, isAlnum);
      && |r| == |kept|
      && forall i :: 0 <= i < |r| ==>
           r[i] == NormalizeWord(m, settings.normalizePatterns,
                                 if Laughs(m, settings.laughterPatterns, kept[i])
                                 then ReplacementOrDefault(settings.laughterReplacement)
                                 else kept[i])
    ensures forall i :: 0 <= i < |r| ==>
      || r[i] in Replacements(settings.normalizePatterns)
      || r[i] == ReplacementOrDefault(settings.laughterReplacement)
      || (&& r[i] in tokens
          && isAlnum(r[i])
          && (r[i] in settings.keepStopWords || (r[i] !in base && r[i] !in settings.includeStopWords))
          && !Laughs(m, settings.laughterPatterns, r[i]))
  {
    var filtered := RemoveStopwords(tokens, base, settings.includeStopWords, settings.keepStopWords, isAlnum);
    var laughed := ReplaceLaughter(m, filtered, settings.laughterPatterns, settings.laughterReplacement);
    SubseqLength(filtered, tokens);
    SubseqElements(filtered, tokens);
    NormalizeWords(m, settings.normalizePatterns, laughed)
  }

  /** The lemmatised corpus of the main command; it fails only when the tagger yields an empty tag. */
  function Corpus(settings: Settings, base: set<string>, isAlnum: string -> bool, m: Matcher,
                  tagger: string -> string, lemmatize: (string, Pos) -> string, tokens: seq<string>): (r: Option<seq<string>>)
    ensures r.Some? ==> |r.value| <= |tokens|
    ensures (forall w :: tagger(w) != "") ==> r.Some?
  {
    LemmatizeCorpus(tagger, lemmatize, Preprocess(settings, base, isAlnum, m, tokens))
  }

  /** The laughter stage of the scenario below. */
  lemma ScenarioLaughter(m: Matcher)
    requires HonoursDefaults(m)
    ensures ReplaceLaughter(m, ["hahaha", "that", "was", "funny", "hahaha"], [], "")
         == ["LOL", "that", "was", "funny", "LOL"]
  {
    assert StartsWith("hahaha", "haha");
    assert "that"[..3][0] != "lol"[0] && "that"[..4][0] != "rofl"[0] && "that"[..4][0] != "haha"[0];
    assert "was"[..3][0] != "lol"[0];
    assert "funny"[..3][0] != "lol"[0] && "funny"[..4][0] != "rofl"[0] && "funny"[..4][0] != "haha"[0];
  }

  /**
   * "hahaha that was funny hahaha" with default laughter settings, an empty
   * normalising mapping and none of the words a stopword: both laughs become
   * "LOL" and the other tokens pass through in order.
   */
  lemma FunnyScenario(base: set<string>, isAlnum: string -> bool, m: Matcher)
    requires HonoursDefaults(m)
    requires isAlnum("hahaha") && isAlnum("that") && isAlnum("was") && isAlnum("funny")
    requires "hahaha" !in base && "that" !in base && "was" !in base && "funny" !in base
    ensures Preprocess(Settings([], [], [], "", []), base, isAlnum, m, ["hahaha", "that", "was", "funny", "hahaha"])
         == ["LOL", "that", "was", "funny", "LOL"]
  {
    var tokens := ["hahaha", "that", "was", "funny", "hahaha"];
    var laughed := ["LOL", "that", "was", "funny", "LOL"];
    ScenarioFilter(base, isAlnum);
    ScenarioLaughter(m);
    EmptyMappingIsIdentity(m, laughed);
  }

  /** The stopword stage of the scenario: no token is dropped. */
  lemma ScenarioFilter(base: set<string>, isAlnum: string -> bool)
    requires isAlnum("hahaha") && isAlnum("that") && isAlnum("was") && isAlnum("funny")
    requires "hahaha" !in base && "that" !in base && "was" !in base && "funny" !in base
    ensures RemoveStopwords(["hahaha", "that", "was", "funny", "hahaha"], base, [], [], isAlnum)
         == ["hahaha", "that", "was", "funny", "hahaha"]
  {
    assert StopSet(base, [], []) == base;
    AllSurvive(["hahaha", "that", "was", "funny", "hahaha"], base, isAlnum);
  }
}
