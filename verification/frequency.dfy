/**
 * The frequency report behind the console table: count every lemma, keep the
 * ones seen at least `Threshold` times, and order them by count, highest
 * first, with ties left in the order the counter saw them.
 */
module Frequency {
  import opened Seqs

  /** Lemmas seen fewer times than this are left out of the report. */
  const Threshold: nat := 30

  /** (word, count): one entry of the counter. */
  type Row = (string, nat)

  function Keys(rows: seq<Row>): seq<string> {
    seq(|rows|, i requires 0 <= i < |rows| => rows[i].0)
  }

  predicate DistinctKeys(rows: seq<Row>) {
    forall i, j :: 0 <= i < j < |rows| ==> rows[i].0 != rows[j].0
  }

  /** The first occurrence of a in s comes before any occurrence of b. */
  ghost predicate OccursBefore(s: seq<string>, a: string, b: string) {
    exists p :: 0 <= p < |s| && s[p] == a && b !in s[..p + 1]
  }

  /** The rows' words appear in the order of their first occurrence in s. */
  ghost predicate InFirstOccurrenceOrder(s: seq<string>, rows: seq<Row>) {
    forall i, j :: 0 <= i < j < |rows| ==> OccursBefore(s, rows[i].0, rows[j].0)
  }

  /** Rows with equal counts appear in the order of their words' first occurrence in s. */
  ghost predicate TiesInFirstOccurrenceOrder(s: seq<string>, rows: seq<Row>) {
    forall i, j :: 0 <= i < j < |rows| && rows[i].1 == rows[j].1 ==> OccursBefore(s, rows[i].0, rows[j].0)
  }

  ghost predicate CountsDescending(rows: seq<Row>) {
    forall i, j :: 0 <= i < j < |rows| ==> rows[i].1 >= rows[j].1
  }

  /** Counter's update for one more occurrence of w: bump its count, or append it with count 1. */
  function Increment(rows: seq<Row>, w: string): (r: seq<Row>)
    requires DistinctKeys(rows)
    ensures w in Keys(rows) ==> |r| == |rows|
    ensures w !in Keys(rows) ==> |r| == |rows| + 1 && r[|rows|] == (w, 1)
    ensures forall i :: 0 <= i < |rows| ==>
      r[i].0 == rows[i].0 && r[i].1 == rows[i].1 + (if rows[i].0 == w then 1 else 0)
    ensures DistinctKeys(r)
  {
    if |rows| == 0 then [(w, 1)]
    else
      assert Keys(rows) == [rows[0].0] + Keys(rows[1..]);
      if rows[0].0 == w then [(w, rows[0].1 + 1)] + rows[1..]
      else [rows[0]] + Increment(rows[1..], w)
  }

  /** Occurring before in s still holds once s is extended at the end. */
  lemma OccursBeforeExtend(s: seq<string>, t: seq<string>, a: string, b: string)
    requires OccursBefore(s, a, b)
    ensures OccursBefore(s + t, a, b)
  {
    var p :| 0 <= p < |s| && s[p] == a && b !in s[..p + 1];
    assert (s + t)[..p + 1] == s[..p + 1];
  }

  /** Every word of s occurs before a word that s does not contain. */
  lemma OccursBeforeNew(s: seq<string>, a: string, b: string)
    requires a in s && b !in s
    ensures OccursBefore(s + [b], a, b)
  {
    var p :| 0 <= p < |s| && s[p] == a;
    assert (s + [b])[..p + 1] == s[..p + 1];
    assert forall x :: x in s[..p + 1] ==> x in s;
  }

  /** Adding one occurrence of w adds w to the keys, if it was not there, and nothing else. */
  lemma IncrementKeys(rows: seq<Row>, w: string)
    requires DistinctKeys(rows)
    ensures forall x :: x in Keys(Increment(rows, w)) <==> x in Keys(rows) || x == w
  {
    var r := Increment(rows, w);
    forall x ensures x in Keys(r) <==> x in Keys(rows) || x == w {
      if x in Keys(rows) {
        var i :| 0 <= i < |rows| && Keys(rows)[i] == x;
        assert Keys(r)[i] == x;
      }
      if x in Keys(r) {
        var i :| 0 <= i < |r| && Keys(r)[i] == x;
        if i < |rows| { assert Keys(rows)[i] == x; }
      }
      if x == w && w !in Keys(rows) {
        assert Keys(r)[|rows|] == w;
      }
    }
  }

  /** Counting one more occurrence of w keeps every count equal to the word's multiplicity. */
  lemma IncrementCounts(init: seq<string>, rows: seq<Row>, w: string)
    requires DistinctKeys(rows)
    requires forall x :: x in Keys(rows) <==> x in init
    requires forall i :: 0 <= i < |rows| ==> rows[i].1 == multiset(init)[rows[i].0]
    ensures forall i :: 0 <= i < |Increment(rows, w)| ==>
      Increment(rows, w)[i].1 == multiset(init + [w])[Increment(rows, w)[i].0]
  {
    assert multiset(init + [w]) == multiset(init) + multiset{w};
    var r := Increment(rows, w);
    if w !in Keys(rows) {
      assert multiset(init)[w] == 0;
    }
  }

  /** Counting one more occurrence keeps the keys in first-occurrence order. */
  lemma IncrementOrder(init: seq<string>, rows: seq<Row>, w: string)
    requires DistinctKeys(rows)
    requires forall x :: x in Keys(rows) <==> x in init
    requires InFirstOccurrenceOrder(init, rows)
    ensures InFirstOccurrenceOrder(init + [w], Increment(rows, w))
  {
    var r := Increment(rows, w);
    forall i, j | 0 <= i < j < |r|
      ensures OccursBefore(init + [w], r[i].0, r[j].0)
    {
      if j < |rows| {
        OccursBeforeExtend(init, [w], rows[i].0, rows[j].0);
      } else {
        assert Keys(rows)[i] == rows[i].0;
        OccursBeforeNew(init, rows[i].0, w);
      }
    }
  }

  /**
   * Counter(s): the distinct words of s in first-occurrence order, each with its
   * number of occurrences, built one occurrence at a time as Counter builds it.
   */
  function Tally(s: seq<string>): (r: seq<Row>)
    ensures DistinctKeys(r)
    ensures forall w :: w in Keys(r) <==> w in s
    ensures forall i :: 0 <= i < |r| ==> r[i].1 == multiset(s)[r[i].0]
    ensures InFirstOccurrenceOrder(s, r)
    decreases |s|
  {
    if |s| == 0 then []
    else
      var init := s[..|s| - 1];
      var w := s[|s| - 1];
      var rows := Tally(init);
      assert s == init + [w];
      IncrementKeys(rows, w);
      IncrementCounts(init, rows, w);
      IncrementOrder(init, rows, w);
      Increment(rows, w)
  }

  /** The dictionary comprehension of the report: keeps the rows counted at least `Threshold` times, in order. */
  function Frequent(rows: seq<Row>): (r: seq<Row>)
    ensures IsSubseq(r, rows)
    ensures forall x :: x in r <==> x in rows && x.1 >= Threshold
  {
    if |rows| == 0 then []
    else
      var rest := Frequent(rows[1..]);
      assert forall x :: x in rows <==> x == rows[0] || x in rows[1..] by {
        assert rows == [rows[0]] + rows[1..];
      }
      if rows[0].1 >= Threshold then [rows[0]] + rest else rest
  }

  /** Filtering keeps the first-occurrence order of what remains. */
  lemma {:induction false} FrequentKeepsOrder(s: seq<string>, rows: seq<Row>)
    requires InFirstOccurrenceOrder(s, rows)
    ensures InFirstOccurrenceOrder(s, Frequent(rows))
  {
    if |rows| > 0 {
      FrequentKeepsOrder(s, rows[1..]);
      var rest := Frequent(rows[1..]);
      if rows[0].1 >= Threshold {
        var r := [rows[0]] + rest;
        forall i, j | 0 <= i < j < |r|
          ensures OccursBefore(s, r[i].0, r[j].0)
        {
          if i == 0 {
            assert r[j] in rows[1..];
            var k :| 0 <= k < |rows[1..]| && rows[1..][k] == r[j];
            assert rows[k + 1] == r[j];
          }
        }
      }
    }
  }

  /** Places e before the first row whose count is not larger: ahead of every row it ties with. */
  function InsertByCount(e: Row, rows: seq<Row>): (r: seq<Row>)
    ensures multiset(r) == multiset(rows) + multiset{e}
  {
    if |rows| == 0 || e.1 >= rows[0].1 then [e] + rows
    else
      assert rows == [rows[0]] + rows[1..];
      [rows[0]] + InsertByCount(e, rows[1..])
  }

  /** Every row of InsertByCount(e, rows) is e or a row of rows. */
  lemma InsertElements(e: Row, rows: seq<Row>)
    ensures forall x :: x in InsertByCount(e, rows) ==> x == e || x in rows
  {
    forall x | x in InsertByCount(e, rows) ensures x == e || x in rows {
      assert x in multiset(InsertByCount(e, rows));
    }
  }

  /** Inserting into rows sorted by descending count keeps them sorted. */
  lemma {:induction false} InsertKeepsDescending(e: Row, rows: seq<Row>)
    requires CountsDescending(rows)
    ensures CountsDescending(InsertByCount(e, rows))
  {
    if |rows| > 0 && e.1 < rows[0].1 {
      InsertKeepsDescending(e, rows[1..]);
      InsertElements(e, rows[1..]);
      var rest := InsertByCount(e, rows[1..]);
      forall x | x in rest ensures x.1 <= rows[0].1 {
        if x != e {
          var k :| 0 <= k < |rows[1..]| && rows[1..][k] == x;
          assert rows[k + 1] == x;
        }
      }
    }
  }

  /** `sorted(rows, key=count, reverse=True)`: an insertion sort, highest count first. */
  function SortByCount(rows: seq<Row>): (r: seq<Row>)
    ensures multiset(r) == multiset(rows)
    ensures CountsDescending(r)
  {
    if |rows| == 0 then []
    else
      assert rows == [rows[0]] + rows[1..];
      InsertKeepsDescending(rows[0], SortByCount(rows[1..]));
      InsertByCount(rows[0], SortByCount(rows[1..]))
  }

  /** A word never occurs before itself. */
  lemma OccursBeforeIrreflexive(s: seq<string>, a: string, b: string)
    requires OccursBefore(s, a, b)
    ensures a != b
  {
    var p :| 0 <= p < |s| && s[p] == a && b !in s[..p + 1];
    assert s[..p + 1][p] == a;
  }

  /** Inserting a row whose word comes first keeps ties in first-occurrence order and keys distinct. */
  lemma {:induction false} InsertKeepsTies(s: seq<string>, e: Row, rows: seq<Row>)
    requires TiesInFirstOccurrenceOrder(s, rows)
    requires DistinctKeys(rows)
    requires forall x :: x in rows ==> OccursBefore(s, e.0, x.0)
    ensures TiesInFirstOccurrenceOrder(s, InsertByCount(e, rows))
    ensures DistinctKeys(InsertByCount(e, rows))
  {
    var r := InsertByCount(e, rows);
    if |rows| == 0 || e.1 >= rows[0].1 {
      forall j | 0 < j < |r| ensures OccursBefore(s, e.0, r[j].0) && e.0 != r[j].0 {
        assert r[j] == rows[j - 1];
        OccursBeforeIrreflexive(s, e.0, r[j].0);
      }
    } else {
      var rest := InsertByCount(e, rows[1..]);
      forall x | x in rows[1..] ensures x in rows { }
      InsertKeepsTies(s, e, rows[1..]);
      InsertElements(e, rows[1..]);
      forall j | 0 < j < |r|
        ensures r[0].0 != r[j].0
        ensures r[0].1 == r[j].1 ==> OccursBefore(s, r[0].0, r[j].0)
      {
        assert r[j] in rest;
        if r[j] == e {
          OccursBeforeIrreflexive(s, e.0, rows[0].0);
        } else {
          var k :| 0 <= k < |rows[1..]| && rows[1..][k] == r[j];
          assert rows[k + 1] == r[j];
        }
      }
    }
  }

  /** Dropping the first row keeps the rest in first-occurrence order. */
  lemma TailInOrder(s: seq<string>, rows: seq<Row>)
    requires |rows| > 0 && InFirstOccurrenceOrder(s, rows)
    ensures InFirstOccurrenceOrder(s, rows[1..])
    ensures forall x :: x in rows[1..] ==> OccursBefore(s, rows[0].0, x.0)
  {
    var tail := rows[1..];
    forall i, j | 0 <= i < j < |tail| ensures OccursBefore(s, tail[i].0, tail[j].0) {
      assert tail[i] == rows[i + 1] && tail[j] == rows[j + 1];
    }
    forall x | x in tail ensures OccursBefore(s, rows[0].0, x.0) {
      var k :| 0 <= k < |tail| && tail[k] == x;
      assert rows[k + 1] == x;
    }
  }

  /** The sort is stable: rows with equal counts keep the first-occurrence order they came in. */
  lemma {:induction false} SortKeepsTies(s: seq<string>, rows: seq<Row>)
    requires InFirstOccurrenceOrder(s, rows)
    ensures TiesInFirstOccurrenceOrder(s, SortByCount(rows))
    ensures DistinctKeys(SortByCount(rows))
  {
    if |rows| > 0 {
      TailInOrder(s, rows);
      SortKeepsTies(s, rows[1..]);
      var sorted := SortByCount(rows[1..]);
      forall x | x in sorted ensures x in rows[1..] {
        assert x in multiset(sorted);
      }
      InsertKeepsTies(s, rows[0], sorted);
      assert SortByCount(rows) == InsertByCount(rows[0], sorted);
    }
  }

  /** The report holds exactly the rows of the counter whose count reaches the threshold. */
  lemma ReportRows(corpus: seq<string>, r: seq<Row>)
    requires multiset(r) == multiset(Frequent(Tally(corpus)))
    ensures forall w :: w in Keys(r) <==> multiset(corpus)[w] >= Threshold
    ensures forall i :: 0 <= i < |r| ==> r[i].1 == multiset(corpus)[r[i].0]
  {
    var t := Tally(corpus);
    forall x ensures x in r <==> x in t && x.1 >= Threshold {
      assert x in r <==> x in multiset(r);
    }
    forall i | 0 <= i < |r| ensures r[i].1 == multiset(corpus)[r[i].0] {
      assert r[i] in t;
    }
    forall w ensures w in Keys(r) <==> multiset(corpus)[w] >= Threshold {
      if w in Keys(r) {
        var i :| 0 <= i < |r| && Keys(r)[i] == w;
        assert r[i] in t;
      }
      if multiset(corpus)[w] >= Threshold {
        assert w in corpus;
        assert w in Keys(t);
        var i :| 0 <= i < |t| && Keys(t)[i] == w;
        assert t[i] in r;
        var j :| 0 <= j < |r| && r[j] == t[i];
        assert Keys(r)[j] == w;
      }
    }
  }

  /**
   * The report of print_word_frequency_table: a lemma is listed exactly when
   * it occurs at least `Threshold` times, with its number of occurrences,
   * highest count first, each lemma once, and lemmas with equal counts in the
   * order of their first occurrence in the corpus.
   */
  function Report(corpus: seq<string>): (r: seq<Row>)
    ensures forall w :: w in Keys(r) <==> multiset(corpus)[w] >= Threshold
    ensures forall i :: 0 <= i < |r| ==> r[i].1 == multiset(corpus)[r[i].0]
    ensures CountsDescending(r)
    ensures DistinctKeys(r)
    ensures TiesInFirstOccurrenceOrder(corpus, r)
  {
    var counted := Tally(corpus);
    var frequent := Frequent(counted);
    FrequentKeepsOrder(corpus, counted);
    SortKeepsTies(corpus, frequent);
    ReportRows(corpus, SortByCount(frequent));
    SortByCount(frequent)
  }

  /** The threshold is inclusive: 29 occurrences leave a lemma out, 30 put it in. */
  lemma ThresholdBoundary(corpus: seq<string>, w: string)
    ensures multiset(corpus)[w] == 29 ==> w !in Keys(Report(corpus))
    ensures multiset(corpus)[w] == 30 ==> w in Keys(Report(corpus))
  {
  }
}
