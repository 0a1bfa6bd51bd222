/**
 * `Array.prototype.filter` and `slice(0, n)` on sequences, with what the pages
 * rely on: the result is an order-preserving subsequence, it keeps every
 * element the predicate accepts (as often as it occurs) and nothing else,
 * filtering twice is filtering once, and a predicate that accepts everything
 * keeps everything.
 */
module Sequences {

  function Filter<T>(xs: seq<T>, keep: T -> bool): (r: seq<T>)
    ensures |r| <= |xs|
    ensures forall i | 0 <= i < |r| :: keep(r[i])
  {
    if xs == [] then []
    else if keep(xs[0]) then [xs[0]] + Filter(xs[1..], keep)
    else Filter(xs[1..], keep)
  }

  /** `idx` picks the elements of `a` out of `b` at strictly increasing positions. */
  ghost predicate Embeds<T>(a: seq<T>, b: seq<T>, idx: seq<nat>) {
    && |idx| == |a|
    && (forall i | 0 <= i < |idx| :: idx[i] < |b| && a[i] == b[idx[i]])
    && (forall i, j | 0 <= i < j < |idx| :: idx[i] < idx[j])
  }

  /** `a` is `b` with some elements left out and the rest in their original order. */
  ghost predicate SubsequenceOf<T>(a: seq<T>, b: seq<T>) {
    exists idx :: Embeds(a, b, idx)
  }

  function Shift(idx: seq<nat>): (r: seq<nat>)
    ensures |r| == |idx| && forall i | 0 <= i < |idx| :: r[i] == idx[i] + 1
  {
    seq(|idx|, i requires 0 <= i < |idx| => idx[i] + 1)
  }

  /** The positions of `xs` that `Filter` keeps. */
  function KeptPositions<T>(xs: seq<T>, keep: T -> bool): seq<nat>
  {
    if xs == [] then []
    else if keep(xs[0]) then [0] + Shift(KeptPositions(xs[1..], keep))
    else Shift(KeptPositions(xs[1..], keep))
  }

  lemma {:induction false} FilterEmbeds<T>(xs: seq<T>, keep: T -> bool)
    ensures Embeds(Filter(xs, keep), xs, KeptPositions(xs, keep))
  {
    if xs != [] {
      FilterEmbeds(xs[1..], keep);
      EmbedsShift(Filter(xs[1..], keep), xs, KeptPositions(xs[1..], keep));
      if keep(xs[0]) {
        EmbedsCons(Filter(xs[1..], keep), xs, Shift(KeptPositions(xs[1..], keep)));
      }
    }
  }

  /** An embedding into the tail is one into the whole sequence, one place further on. */
  lemma EmbedsShift<T>(a: seq<T>, b: seq<T>, idx: seq<nat>)
    requires b != [] && Embeds(a, b[1..], idx)
    ensures Embeds(a, b, Shift(idx))
  {
    forall i | 0 <= i < |idx| ensures Shift(idx)[i] < |b| && a[i] == b[Shift(idx)[i]] {
      assert b[1..][idx[i]] == b[idx[i] + 1];
    }
  }

  /** Taking the first element too adds position 0 in front. */
  lemma EmbedsCons<T>(a: seq<T>, b: seq<T>, idx: seq<nat>)
    requires b != [] && Embeds(a, b, idx) && forall i | 0 <= i < |idx| :: 0 < idx[i]
    ensures Embeds([b[0]] + a, b, [0] + idx)
  {
  }

  /** The filtered sequence is an order-preserving subsequence of the input. */
  lemma FilterIsSubsequence<T>(xs: seq<T>, keep: T -> bool)
    ensures SubsequenceOf(Filter(xs, keep), xs)
  {
    FilterEmbeds(xs, keep);
  }

  /** Each value occurs in the filtered sequence as often as in the input when the
      predicate accepts it, and not at all otherwise. */
  lemma {:induction false} FilterCount<T>(xs: seq<T>, keep: T -> bool, x: T)
    ensures multiset(Filter(xs, keep))[x] == if keep(x) then multiset(xs)[x] else 0
  {
    if xs != [] {
      FilterCount(xs[1..], keep, x);
      assert xs == [xs[0]] + xs[1..];
    }
  }

  /** A value is kept exactly when it is in the input and the predicate accepts it. */
  lemma FilterMembership<T>(xs: seq<T>, keep: T -> bool, x: T)
    ensures x in Filter(xs, keep) <==> x in xs && keep(x)
  {
    FilterCount(xs, keep, x);
  }

  /** Filtering what has been filtered with the same predicate changes nothing. */
  lemma {:induction false} FilterIdempotent<T>(xs: seq<T>, keep: T -> bool)
    ensures Filter(Filter(xs, keep), keep) == Filter(xs, keep)
  {
    if xs != [] {
      FilterIdempotent(xs[1..], keep);
    }
  }

  /** A predicate that accepts every element keeps the whole sequence. */
  lemma {:induction false} FilterKeepsAll<T>(xs: seq<T>, keep: T -> bool)
    ensures (forall i | 0 <= i < |xs| :: keep(xs[i])) ==> Filter(xs, keep) == xs
  {
    if xs != [] {
      FilterKeepsAll(xs[1..], keep);
    }
  }

  /** The filtered sequence is empty exactly when no element is accepted. */
  lemma FilterEmpty<T>(xs: seq<T>, keep: T -> bool)
    ensures Filter(xs, keep) == [] <==> forall i | 0 <= i < |xs| :: !keep(xs[i])
  {
    if Filter(xs, keep) == [] {
      forall i | 0 <= i < |xs| ensures !keep(xs[i]) {
        FilterMembership(xs, keep, xs[i]);
      }
    } else {
      FilterMembership(xs, keep, Filter(xs, keep)[0]);
    }
  }

  /** Elements whose `key`s differ stay so after filtering. */
  lemma FilterKeepsKeysDistinct<T, K>(xs: seq<T>, keep: T -> bool, key: T -> K)
    requires forall i, j | 0 <= i < j < |xs| :: key(xs[i]) != key(xs[j])
    ensures forall i, j | 0 <= i < j < |Filter(xs, keep)| :: key(Filter(xs, keep)[i]) != key(Filter(xs, keep)[j])
  {
    FilterEmbeds(xs, keep);
  }

  /** `slice(0, n)`: at most the first `n` elements. */
  function Take<T>(xs: seq<T>, n: nat): (r: seq<T>)
  {
    if |xs| <= n then xs else xs[..n]
  }

  lemma TakeIsPrefix<T>(xs: seq<T>, n: nat)
    ensures |Take(xs, n)| == if |xs| <= n then |xs| else n
    ensures Take(xs, n) <= xs
  {
  }
}
