/**
 * Part-of-speech aware lemmatisation. The tagger (`nltk.pos_tag` on a
 * one-word sentence) and the WordNet lemmatiser are parameters; what is
 * modelled is the fixed lookup from a tag's first letter to the coarse
 * WordNet category, and the per-token map that feeds the lemmatiser.
 */
module PartOfSpeech {
  import opened Wrappers

  /** The four coarse WordNet categories. */
  datatype Pos = Adj | Noun | Verb | Adv

  /**
   * `str.upper` on one character. Only ASCII letters are changed here: no other
   * character upper-cases to J, N, V or R, so the lookup below sees the same
   * answer for every character.
   */
  function UpperAscii(c: char): char {
    if 'a' <= c <= 'z' then (c as int - 32) as char else c
  }

  /** The tag dictionary with its NOUN default, applied to the upper-cased first letter of a tag. */
  function PosOfLetter(c: char): (p: Pos)
    ensures p == Adj <==> c == 'J' || c == 'j'
    ensures p == Verb <==> c == 'V' || c == 'v'
    ensures p == Adv <==> c == 'R' || c == 'r'
    ensures p == Noun <==> c !in {'J', 'j', 'V', 'v', 'R', 'r'}
  {
    match UpperAscii(c)
    case 'J' => Adj
    case 'N' => Noun
    case 'V' => Verb
    case 'R' => Adv
    case _ => Noun
  }

  /** get_wordnet_pos given the tagger's tag: taking the first letter of an empty tag raises, modelled as None. */
  function WordNetPos(tag: string): (r: Option<Pos>)
    ensures r.None? <==> tag == ""
    ensures r.Some? ==> (r.value == Adj <==> tag[0] in {'J', 'j'})
    ensures r.Some? ==> (r.value == Verb <==> tag[0] in {'V', 'v'})
    ensures r.Some? ==> (r.value == Adv <==> tag[0] in {'R', 'r'})
    ensures r.Some? ==> (r.value == Noun <==> tag[0] !in {'J', 'j', 'V', 'v', 'R', 'r'})
  {
    if tag == "" then None else Some(PosOfLetter(tag[0]))
  }

  /**
   * The list comprehension of the main command: every token is tagged on its
   * own and lemmatised with its category. It fails as a whole when some tag is empty.
   */
  function LemmatizeCorpus(tagger: string -> string, lemmatize: (string, Pos) -> string,
                           corpus: seq<string>): (r: Option<seq<string>>)
    ensures r.None? <==> exists i :: 0 <= i < |corpus| && tagger(corpus[i]) == ""
    ensures r.Some? ==> |r.value| == |corpus|
    ensures r.Some? ==> forall i :: 0 <= i < |corpus| ==>
      tagger(corpus[i]) != "" && r.value[i] == lemmatize(corpus[i], PosOfLetter(tagger(corpus[i])[0]))
  {
    if |corpus| == 0 then Some([])
    else
      match WordNetPos(tagger(corpus[0]))
      case None => None
      case Some(p) =>
        match LemmatizeCorpus(tagger, lemmatize, corpus[1..])
        case None =>
          assert exists i :: 0 <= i < |corpus| && tagger(corpus[i]) == "" by {
            var i :| 0 <= i < |corpus[1..]| && tagger(corpus[1..][i]) == "";
            assert tagger(corpus[i + 1]) == "";
          }
          None
        case Some(rest) => Some([lemmatize(corpus[0], p)] + rest)
  }
}
