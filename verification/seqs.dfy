/** Facts about sequences shared by the token-processing stages. */
module Seqs {

  /** xs is obtained from ys by deleting elements, keeping the order of the rest. */
  ghost predicate IsSubseq<T>(xs: seq<T>, ys: seq<T>)
    decreases |ys|
  {
    if |xs| == 0 then true
    else if |ys| == 0 then false
    else (xs[0] == ys[0] && IsSubseq(xs[1..], ys[1..])) || IsSubseq(xs, ys[1..])
  }

  /** Deleting elements never makes a sequence longer. */
  lemma {:induction false} SubseqLength<T>(xs: seq<T>, ys: seq<T>)
    requires IsSubseq(xs, ys)
    ensures |xs| <= |ys|
    decreases |ys|
  {
    if |xs| == 0 {
    } else if xs[0] == ys[0] && IsSubseq(xs[1..], ys[1..]) {
      SubseqLength(xs[1..], ys[1..]);
    } else {
      SubseqLength(xs, ys[1..]);
    }
  }

  /** Every element of a subsequence is an element of the sequence it was taken from. */
  lemma {:induction false} SubseqElements<T>(xs: seq<T>, ys: seq<T>)
    requires IsSubseq(xs, ys)
    ensures forall x :: x in xs ==> x in ys
    decreases |ys|
  {
    if |xs| == 0 {
    } else if xs[0] == ys[0] && IsSubseq(xs[1..], ys[1..]) {
      SubseqElements(xs[1..], ys[1..]);
      assert xs == [xs[0]] + xs[1..];
    } else {
      SubseqElements(xs, ys[1..]);
    }
  }
}
