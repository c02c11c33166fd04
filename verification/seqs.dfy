/** Order-preserving de-duplication and subsequences, shared by the token
    extractor and the font index. */
module Seqs {

  ghost predicate Distinct<T>(xs: seq<T>) {
    forall i, j :: 0 <= i < j < |xs| ==> xs[i] != xs[j]
  }

  lemma DistinctAppend<T>(xs: seq<T>, x: T)
    requires Distinct(xs) && x !in xs
    ensures Distinct(xs + [x])
  {
  }

  /** Offset of the first occurrence of `x` in `xs`. */
  function FirstIndex<T(==)>(xs: seq<T>, x: T): (i: nat)
    requires x in xs
    ensures i < |xs| && xs[i] == x
    ensures forall j :: 0 <= j < i ==> xs[j] != x
  {
    if xs[0] == x then 0 else 1 + FirstIndex(xs[1..], x)
  }

  lemma FirstIndexTail<T>(xs: seq<T>)
    requires |xs| > 0
    ensures forall x :: x in xs[1..] && x != xs[0] ==> FirstIndex(xs, x) == 1 + FirstIndex(xs[1..], x)
  {
  }

  /** The loop with a `seen` set: keep each element the first time it is
      met and skip it afterwards. */
  function DedupFrom<T(==)>(xs: seq<T>, seen: set<T>): (r: seq<T>)
    ensures Distinct(r)
    ensures forall k :: 0 <= k < |r| ==> r[k] in xs && r[k] !in seen
    ensures forall k :: 0 <= k < |xs| && xs[k] !in seen ==> xs[k] in r
    ensures forall i, j :: 0 <= i < j < |r| ==> FirstIndex(xs, r[i]) < FirstIndex(xs, r[j])
    decreases |xs|
  {
    if |xs| == 0 then []
    else if xs[0] in seen then
      FirstIndexTail(xs);
      DedupFrom(xs[1..], seen)
    else
      FirstIndexTail(xs);
      [xs[0]] + DedupFrom(xs[1..], seen + {xs[0]})
  }

  /** Duplicates removed, first occurrences kept in their original order. */
  function Dedup<T(==)>(xs: seq<T>): (r: seq<T>)
    ensures Distinct(r)
    ensures forall k :: 0 <= k < |r| ==> r[k] in xs
    ensures forall k :: 0 <= k < |xs| ==> xs[k] in r
    ensures forall i, j :: 0 <= i < j < |r| ==> FirstIndex(xs, r[i]) < FirstIndex(xs, r[j])
  {
    DedupFrom(xs, {})
  }

  /** `a` is `b` with some elements left out. */
  ghost predicate IsSubsequence<T>(a: seq<T>, b: seq<T>)
    decreases |b|
  {
    if |a| == 0 then true
    else if |b| == 0 then false
    else (a[0] == b[0] && IsSubsequence(a[1..], b[1..])) || IsSubsequence(a, b[1..])
  }

  /** Taking the head off a concatenation takes it off the first part. */
  lemma TailOfConcat<T>(a: seq<T>, b: seq<T>)
    requires |a| > 0
    ensures (a + b)[0] == a[0] && (a + b)[1..] == a[1..] + b
  {
  }

  /** The head of a three-part concatenation comes from its first part. */
  lemma HeadOfConcat3<T>(a: seq<T>, m: seq<T>, x: seq<T>)
    requires |a| > 0
    ensures a + m + x == [a[0]] + (a[1..] + m + x)
    ensures a + m + x == a + (m + x)
  {
  }

  lemma SplitLast<T>(xs: seq<T>)
    requires |xs| > 0
    ensures xs == xs[..|xs| - 1] + [xs[|xs| - 1]]
  {
  }

  lemma SplitFirst<T>(xs: seq<T>)
    requires |xs| > 0
    ensures xs == [xs[0]] + xs[1..]
  {
  }
}
