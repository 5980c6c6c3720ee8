/** Generic sequence helpers: concatenation of a list of chunks, JavaScript's
    `Array.prototype.filter`, and order-preserving subsequences. */
module Seqs {

  /** The concatenation of all pieces, in order (`Buffer.concat`). */
  function Flatten<T>(pieces: seq<seq<T>>): (r: seq<T>)
  {
    if |pieces| == 0 then [] else pieces[0] + Flatten(pieces[1..])
  }

  lemma {:induction false} FlattenAppend<T>(pieces: seq<seq<T>>, last: seq<T>)
    ensures Flatten(pieces + [last]) == Flatten(pieces) + last
    decreases |pieces|
  {
    if |pieces| == 0 {
      assert pieces + [last] == [last];
    } else {
      assert (pieces + [last])[1..] == pieces[1..] + [last];
      FlattenAppend(pieces[1..], last);
    }
  }

  /** `r` is `xs` with some elements dropped and the rest kept in order. */
  predicate IsSubsequence<T(==)>(r: seq<T>, xs: seq<T>)
    decreases |xs|
  {
    if |r| == 0 then true
    else if |xs| == 0 then false
    else if r[0] == xs[0] then IsSubsequence(r[1..], xs[1..])
    else IsSubsequence(r, xs[1..])
  }

  /** `xs.filter(keep)`: the elements satisfying `keep`, in input order. */
  function Filter<T(==,!new)>(xs: seq<T>, keep: T -> bool): (r: seq<T>)
    ensures |r| <= |xs|
    ensures forall x :: x in r <==> x in xs && keep(x)
  {
    if |xs| == 0 then []
    else if keep(xs[0]) then [xs[0]] + Filter(xs[1..], keep)
    else Filter(xs[1..], keep)
  }

  lemma {:induction false} FilterIsSubsequence<T(!new)>(xs: seq<T>, keep: T -> bool)
    ensures IsSubsequence(Filter(xs, keep), xs)
    decreases |xs|
  {
    if |xs| > 0 {
      FilterIsSubsequence(xs[1..], keep);
      var r := Filter(xs, keep);
      if keep(xs[0]) {
        assert r[0] == xs[0] && r[1..] == Filter(xs[1..], keep);
      } else if |r| > 0 {
        SubsequenceSkip(r, xs);
      }
    }
  }

  /** Skipping a first element that the candidate does not use. */
  lemma {:induction false} SubsequenceSkip<T>(r: seq<T>, xs: seq<T>)
    requires |xs| > 0 && IsSubsequence(r, xs[1..])
    ensures IsSubsequence(r, xs)
    decreases |xs|
  {
    if |r| > 0 && r[0] == xs[0] {
      SubsequenceTail(r, xs[1..]);
      SubsequenceSkip(r[1..], xs[1..]);
    }
  }

  /** Dropping the head of a subsequence keeps it a subsequence of the tail. */
  lemma {:induction false} SubsequenceTail<T>(r: seq<T>, xs: seq<T>)
    requires |r| > 0 && IsSubsequence(r, xs)
    ensures |xs| > 0 && IsSubsequence(r[1..], xs[1..])
    decreases |xs|
  {
    if r[0] != xs[0] {
      SubsequenceTail(r, xs[1..]);
      SubsequenceSkip(r[1..], xs[1..]);
    }
  }

  /** A subsequence of a subsequence is a subsequence. */
  lemma {:induction false} SubsequenceTrans<T>(a: seq<T>, b: seq<T>, c: seq<T>)
    requires IsSubsequence(a, b) && IsSubsequence(b, c)
    ensures IsSubsequence(a, c)
    decreases |c|
  {
    if |a| > 0 {
      SubsequenceTail(a, b);
      SubsequenceTail(b, c);
      if b[0] == c[0] {
        if a[0] == b[0] {
          SubsequenceTrans(a[1..], b[1..], c[1..]);
        } else {
          SubsequenceTrans(a, b[1..], c[1..]);
          SubsequenceSkip(a, c);
        }
      } else {
        SubsequenceTrans(a, b, c[1..]);
        SubsequenceSkip(a, c);
      }
    }
  }

  /** Filtering twice with the same test is filtering once. */
  lemma {:induction false} FilterIdempotent<T(!new)>(xs: seq<T>, keep: T -> bool)
    ensures Filter(Filter(xs, keep), keep) == Filter(xs, keep)
    decreases |xs|
  {
    if |xs| > 0 {
      FilterIdempotent(xs[1..], keep);
      if keep(xs[0]) {
        var f := Filter(xs, keep);
        assert f[0] == xs[0] && f[1..] == Filter(xs[1..], keep);
      }
    }
  }
}
