# wordcloud-cli text pipeline in Dafny

A model of the token-processing core of `wordcloud.py`, the command that turns a
text file into a word cloud and a console frequency table. The model starts
from the token sequence that tokenisation produces, and covers these steps:

- the stopword filter (`remove_stopwords`);
- the laughter normaliser (`replace_laughter`);
- the pattern normaliser (`normalize_words`);
- their composition (`preprocess_text`);
- the tag-letter lookup of `get_wordnet_pos` and the per-token lemmatise step;
- the count / threshold / sort part of `print_word_frequency_table`.

Every stage is a pure function over `seq<string>`. The program's globals and
library calls arrive as parameters:

- `re.match` is a `Matcher`, an abstract predicate on (pattern, word) that
  means "the pattern matches a prefix of the word";
- `str.isalnum` is a `string -> bool`;
- the Portuguese stopword corpus is a `set<string>`;
- the POS tagger and the WordNet lemmatiser are functions.

The settings the stages read (`keep_stop_words`, `include_stop_words`,
`laughter_patterns`, `laughter_replacement`, `normalize_patterns`) become the
`Pipeline.Settings` value. The ordered `normalize_patterns` table is a
`seq<(string, seq<string>)>` in insertion order.

Modules, one per file:

- `Wrappers`: the `Option` type.
- `Seqs`: the order-preserving subsequence relation.
- `Matching`: the abstract matcher. A regex alternation built from n ≥ 1
  patterns matches exactly when one of its branches does. The empty join `""`
  matches every word.
- `Stopwords`, `Laughter`, `Normalize`, `PartOfSpeech`, `Frequency`: the stages.
- `Pipeline`: how the stages are composed.

The three default laughter patterns get their regex meaning through
`Laughter.HonoursDefaults`. A word matches `(ha){2,}` when it starts with
"haha", and matches `rofl` or `lol` when it starts with that literal. So
"lollipop" becomes "LOL", as it does in the program.

`settings["laughter_patterns"]` and `settings["laughter_replacement"]` are
read by indexing (wordcloud.py:54, 79), so a missing key raises `KeyError`.
Only an empty value falls back to the default: the model applies the fallback
to an empty pattern list and an empty replacement string.

## Model

| member | source | states |
|---|---|---|
| Stopwords.StopSet | wordcloud.py:35-44 | a word is in the effective stop set exactly when it is a base or extra stopword and not a keep-word, the set being built by update followed by discarding each keep-word |
| Stopwords.FilterTokens | wordcloud.py:46 | the kept tokens form an order-preserving subsequence; each kept token is alphanumeric and outside the stop set; each surviving word keeps its full multiplicity |
| Stopwords.RemoveStopwords | wordcloud.py:33-46 | output is a subsequence of the input; every output word is alphanumeric and in keep or outside base ∪ extra; every such word keeps all its occurrences; keep-words win over base and extra; non-alphanumeric words are always dropped |
| Stopwords.RemoveStopwordsShortens | wordcloud.py:46 | the filter never lengthens the token sequence |
| Stopwords.AllSurvive | wordcloud.py:46 | when every token is alphanumeric and not a stopword the filter returns its input unchanged |
| Matching.AnyBranch | wordcloud.py:53-55 | scanning the branches one by one succeeds exactly when some pattern of the list matches the word |
| Matching.AlternationMatches | wordcloud.py:63-64 | the joined alternation of a non-empty pattern list matches iff one branch matches; an empty list joins to the empty regex, which matches every word |
| Laughter.ReplaceLaughter | wordcloud.py:49-55 | length is preserved; a word no laughter pattern matches is unchanged; a matching word becomes the configured replacement, or "LOL" when that is empty; with no configured patterns the three defaults are used, otherwise only the configured ones |
| Laughter.DefaultFallback | wordcloud.py:51-54 | with empty patterns and empty replacement, "hahaha", "rofl" and "lol" each become "LOL" |
| Laughter.PrefixLooseness | wordcloud.py:52-55 | matching is anchored only at the start: "lollipop" becomes "LOL" while "aha" and "ha" are kept |
| Normalize.FirstMatchFrom | wordcloud.py:62-66 | the scan from a position returns the first matching entry at or after it, or none when no later entry matches |
| Normalize.FirstMatch | wordcloud.py:62-66 | some entry index is returned exactly when an entry matches, and it is the earliest matching one |
| Normalize.NormalizeWord | wordcloud.py:61-68 | an unmatched word is unchanged; the earliest matching entry's replacement is the result; the result is the word or one of the replacements |
| Normalize.NormalizeWords | wordcloud.py:58-69 | length is preserved and every output is its input word or a replacement of the mapping |
| Normalize.FirstMatchWins | wordcloud.py:62-66 | with ("A", ["x.*"]) before ("B", ["xy.*"]), "xyz" becomes "A" although B's group also matches |
| Normalize.LaterEntriesIgnored | wordcloud.py:62-66 | once some entry matches a word, appending entries to the mapping cannot change its normal form |
| Normalize.EmptyGroupCapturesAll | wordcloud.py:63-65 | an entry with no patterns captures every word that reaches it: the result is its replacement or that of an earlier entry |
| Normalize.Idempotent | wordcloud.py:58-69 | if every replacement normalises to itself, normalising twice equals normalising once |
| Normalize.EmptyMappingIsIdentity | wordcloud.py:58-69 | with an empty mapping every token passes through unchanged |
| PartOfSpeech.PosOfLetter | wordcloud.py:90-93 | after upper-casing, J, V and R (either case) map to adjective, verb and adverb, and every other letter maps to noun |
| PartOfSpeech.WordNetPos | wordcloud.py:88-93 | an empty tag is the error path of taking its first letter; otherwise the category follows the tag's first letter, case-insensitively |
| PartOfSpeech.LemmatizeCorpus | wordcloud.py:132-133 | fails exactly when some token's tag is empty; otherwise it keeps the length and lemmatises each token with its own tag's category |
| Frequency.Increment | wordcloud.py:98 | one more occurrence bumps the word's count by one if present, else appends it with count 1; keys stay distinct and in place |
| Frequency.Tally | wordcloud.py:98 | the counter has each word of the corpus once, with its number of occurrences, in first-occurrence order |
| Frequency.Frequent | wordcloud.py:101 | keeps, in order, exactly the counter entries whose count is at least 30 |
| Frequency.FrequentKeepsOrder | wordcloud.py:101 | filtering keeps the first-occurrence order of the remaining entries |
| Frequency.InsertByCount | wordcloud.py:102 | inserting one row adds exactly that row to the multiset of rows |
| Frequency.InsertKeepsDescending | wordcloud.py:102 | inserting into rows sorted by descending count keeps them sorted |
| Frequency.SortByCount | wordcloud.py:102 | the sort is a permutation of its input with counts non-increasing |
| Frequency.SortKeepsTies | wordcloud.py:102 | the sort is stable: rows with equal counts stay in first-occurrence order, and keys stay distinct |
| Frequency.Report | wordcloud.py:98-102 | a word is reported exactly when it occurs at least 30 times; its value is its multiplicity; counts are non-increasing; each word appears once; ties follow first occurrence in the corpus |
| Frequency.ThresholdBoundary | wordcloud.py:101 | 29 occurrences exclude a word and 30 include it |
| Pipeline.Preprocess | wordcloud.py:72-85 | the output has one token per stopword-filter survivor, in order: the survivor, replaced by the laughter token when it laughs, then normalised. So the stages never lengthen the sequence, and every output token is one of three things: a normalising replacement, the laughter token, or an input token that is alphanumeric, not a stopword and not laughter |
| Pipeline.Corpus | wordcloud.py:129-133 | the lemmatised corpus is no longer than the tokens, and it exists whenever the tagger never yields an empty tag |
| Pipeline.ScenarioFilter | wordcloud.py:33-46 | when none of "hahaha", "that", "was", "funny" is a stopword and all are alphanumeric, the filter drops no scenario token |
| Pipeline.ScenarioLaughter | wordcloud.py:49-55 | under the default patterns, "hahaha that was funny hahaha" becomes "LOL that was funny LOL" |
| Pipeline.FunnyScenario | wordcloud.py:72-85 | with default laughter settings, no stopword among the words and an empty mapping, the pipeline turns the scenario tokens into "LOL", "that", "was", "funny", "LOL" |

## Left out

- Tokenisation (`nltk.word_tokenize` on the lower-cased text, line 74) is a third-party, language-aware splitter. The model starts from the tokens.
- The regex engine. Compiling and matching user patterns sits behind the abstract `Matcher`, and a malformed pattern (which raises `re.error`) is not modelled. The model also assumes that joining the patterns, each wrapped in a group, leaves every branch meaning what it meant alone. Patterns that each compile alone can break that assumption, and these cases are examples, not a complete list: numbered backreferences (the group numbers shift); a global inline flag such as `(?i)` that is no longer at the start of the joined expression (an `re.error`); the same named group `(?P<x>...)` in two patterns (an `re.error`).
- The Portuguese stopword corpus, `str.isalnum`, `nltk.pos_tag` and `WordNetLemmatizer` are foreign library calls. They are parameters. Nothing is claimed about their own outputs.
- Loading settings from TOML and `nltk.download` (lines 18-22) are file and network I/O. A missing settings key, which raises `KeyError`, is not modelled.
- `read_file` (lines 27-30) and the output paths (lines 152-153) are file I/O.
- The Typer command and the progress bar (lines 116-127) are UI plumbing.
- Image generation with WordCloud, numpy and PIL (lines 134-153), including joining the lemmas into one string, is external rendering.
- Drawing the rich table on the console (lines 104-113) is UI.
- Pipeline.Corpus: states only the length and the failure condition of the composed result. The per-token content is stated by `PartOfSpeech.LemmatizeCorpus` and `Pipeline.Preprocess`.
- PartOfSpeech.PosOfLetter: models `str.upper` only on ASCII letters. No other character upper-cases to J, N, V or R, so the category it returns is the same.
