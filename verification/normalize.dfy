/**
 * The pattern normaliser: an ordered mapping from canonical replacement to a
 * group of patterns (the settings table, in insertion order). A token becomes
 * the replacement of the first entry whose group matches it at its start, and
 * stays as it is when no entry matches.
 */
module Normalize {
  import opened Wrappers
  import opened Matching

  /** (replacement, patterns): one entry of the ordered mapping. */
  type Entry = (string, seq<string>)

  /** The entry's group, joined into one alternation, matches w at its start. */
  predicate EntryMatches(m: Matcher, e: Entry, w: string) {
    AlternationMatches(m, e.1, w)
  }

  /** Entry k is the earliest entry that matches w. */
  ghost predicate FirstMatching(m: Matcher, entries: seq<Entry>, k: int, w: string) {
    && 0 <= k < |entries|
    && EntryMatches(m, entries[k], w)
    && forall j :: 0 <= j < k ==> !EntryMatches(m, entries[j], w)
  }

  function Replacements(entries: seq<Entry>): seq<string> {
    seq(|entries|, i requires 0 <= i < |entries| => entries[i].0)
  }

  /** The inner loop over the mapping from position `from` on, stopping at the first match. */
  function FirstMatchFrom(m: Matcher, entries: seq<Entry>, w: string, from: nat): (r: Option<nat>)
    requires from <= |entries|
    ensures r.Some? ==> from <= r.value < |entries| && EntryMatches(m, entries[r.value], w)
    ensures r.Some? ==> forall j :: from <= j < r.value ==> !EntryMatches(m, entries[j], w)
    ensures r.None? ==> forall j :: from <= j < |entries| ==> !EntryMatches(m, entries[j], w)
    decreases |entries| - from
  {
    if from == |entries| then None
    else if EntryMatches(m, entries[from], w) then Some(from)
    else FirstMatchFrom(m, entries, w, from + 1)
  }

  /** The index of the earliest matching entry, if any. */
  function FirstMatch(m: Matcher, entries: seq<Entry>, w: string): (r: Option<nat>)
    ensures r.Some? <==> exists k :: FirstMatching(m, entries, k, w)
    ensures r.Some? ==> FirstMatching(m, entries, r.value, w)
  {
    var r := FirstMatchFrom(m, entries, w, 0);
    assert r.Some? ==> FirstMatching(m, entries, r.value, w);
    r
  }

  /** One iteration of normalize_words' outer loop. */
  function NormalizeWord(m: Matcher, entries: seq<Entry>, w: string): (r: string)
    // a word that no entry matches is left unchanged
    ensures (forall j :: 0 <= j < |entries| ==> !EntryMatches(m, entries[j], w)) ==> r == w
    // the earliest matching entry decides the result
    ensures forall k :: FirstMatching(m, entries, k, w) ==> r == entries[k].0
    // the result is the word itself or one of the mapping's replacements
    ensures r == w || r in Replacements(entries)
  {
    match FirstMatch(m, entries, w)
    case None => w
    case Some(k) =>
      assert Replacements(entries)[k] == entries[k].0;
      assert forall k' :: FirstMatching(m, entries, k', w) ==> k' == k;
      entries[k].0
  }

  /** normalize_words: every token is normalised on its own; the length never changes. */
  function NormalizeWords(m: Matcher, entries: seq<Entry>, words: seq<string>): (r: seq<string>)
    ensures |r| == |words|
    ensures forall i :: 0 <= i < |words| ==> r[i] == NormalizeWord(m, entries, words[i])
    ensures forall i :: 0 <= i < |words| ==> r[i] == words[i] || r[i] in Replacements(entries)
  {
    seq(|words|, i requires 0 <= i < |words| => NormalizeWord(m, entries, words[i]))
  }

  /**
   * First match wins: with ("A", ["x.*"]) before ("B", ["xy.*"]), "xyz" becomes
   * "A" even though B's group matches it too.
   */
  lemma FirstMatchWins(m: Matcher)
    requires m("x.*", "xyz") && m("xy.*", "xyz")
    ensures NormalizeWord(m, [("A", ["x.*"]), ("B", ["xy.*"])], "xyz") == "A"
  {
    var entries: seq<Entry> := [("A", ["x.*"]), ("B", ["xy.*"])];
    assert EntryMatches(m, entries[0], "xyz");
    assert FirstMatching(m, entries, 0, "xyz");
  }

  /** FirstMatchFrom does not look past the entry it returns. */
  lemma {:induction false} FirstMatchFromExtend(m: Matcher, entries: seq<Entry>, more: seq<Entry>, w: string, from: nat)
    requires from <= |entries|
    requires FirstMatchFrom(m, entries, w, from).Some?
    ensures FirstMatchFrom(m, entries + more, w, from) == FirstMatchFrom(m, entries, w, from)
    decreases |entries| - from
  {
    assert (entries + more)[from] == entries[from];
    if !EntryMatches(m, entries[from], w) {
      FirstMatchFromExtend(m, entries, more, w, from + 1);
    }
  }

  /**
   * Later entries are never consulted: once some entry matches w, appending
   * further entries to the mapping cannot change how w is normalised.
   */
  lemma LaterEntriesIgnored(m: Matcher, entries: seq<Entry>, more: seq<Entry>, w: string)
    requires exists k :: 0 <= k < |entries| && EntryMatches(m, entries[k], w)
    ensures NormalizeWord(m, entries + more, w) == NormalizeWord(m, entries, w)
  {
    FirstMatchFromExtend(m, entries, more, w, 0);
  }

  /**
   * An entry with an empty pattern group joins to the empty regex and captures
   * every word that reaches it: the result is the replacement of that entry or
   * of an earlier one, and never the word itself unless a replacement equals it.
   */
  lemma EmptyGroupCapturesAll(m: Matcher, entries: seq<Entry>, k: nat, w: string)
    requires k < |entries| && entries[k].1 == []
    ensures exists j :: 0 <= j <= k && NormalizeWord(m, entries, w) == entries[j].0
  {
    assert EntryMatches(m, entries[k], w);
    var r := FirstMatch(m, entries, w);
    assert r.Some?;
    assert FirstMatching(m, entries, r.value, w);
  }

  /**
   * The mapping is hygienic when every replacement normalises to itself, that
   * is, no earlier entry's group captures a later entry's replacement.
   */
  ghost predicate Hygienic(m: Matcher, entries: seq<Entry>) {
    forall i :: 0 <= i < |entries| ==> NormalizeWord(m, entries, entries[i].0) == entries[i].0
  }

  /** For a hygienic mapping, normalising twice gives the same tokens as normalising once. */
  lemma Idempotent(m: Matcher, entries: seq<Entry>, words: seq<string>)
    requires Hygienic(m, entries)
    ensures NormalizeWords(m, entries, NormalizeWords(m, entries, words)) == NormalizeWords(m, entries, words)
  {
    var once := NormalizeWords(m, entries, words);
    forall i | 0 <= i < |once|
      ensures NormalizeWord(m, entries, once[i]) == once[i]
    {
      if once[i] != words[i] {
        var j :| 0 <= j < |Replacements(entries)| && Replacements(entries)[j] == once[i];
        assert entries[j].0 == once[i];
      } else {
        match FirstMatch(m, entries, words[i])
        case None =>
        case Some(k) =>
          assert once[i] == entries[k].0;
      }
    }
  }

  /** An empty mapping leaves every token as it is. */
  lemma EmptyMappingIsIdentity(m: Matcher, words: seq<string>)
    ensures NormalizeWords(m, [], words) == words
  {
    assert forall i :: 0 <= i < |words| ==> NormalizeWords(m, [], words)[i] == words[i];
  }
}
