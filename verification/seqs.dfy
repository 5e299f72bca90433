/** Sequence vocabulary shared by the model: order-preserving subsequences,
    filtering by a predicate, and the minimum and maximum of a non-empty
    list of frame times. */
module Seqs {

  /** `sub` can be obtained from `xs` by deleting elements, keeping the
      relative order of the rest. */
  predicate Subseq<T(==)>(sub: seq<T>, xs: seq<T>)
    decreases |xs|
  {
    if |sub| == 0 then true
    else if |xs| == 0 then false
    else (sub[0] == xs[0] && Subseq(sub[1..], xs[1..])) || Subseq(sub, xs[1..])
  }

  /** Keeping or dropping the head of a sequence keeps a subsequence. */
  lemma SubseqCons<T>(x: T, sub: seq<T>, xs: seq<T>)
    requires Subseq(sub, xs)
    ensures Subseq([x] + sub, [x] + xs)
    ensures Subseq(sub, [x] + xs)
  {
    assert ([x] + sub)[1..] == sub;
    assert ([x] + xs)[1..] == xs;
  }

  /** Deleting elements twice is deleting elements once. */
  lemma {:induction false} SubseqTrans<T>(a: seq<T>, b: seq<T>, c: seq<T>)
    requires Subseq(a, b) && Subseq(b, c)
    ensures Subseq(a, c)
    decreases |c|
  {
    if |a| == 0 {
    } else if Subseq(b, c[1..]) {
      SubseqTrans(a, b, c[1..]);
    } else {
      assert b[0] == c[0] && Subseq(b[1..], c[1..]);
      if a[0] == b[0] && Subseq(a[1..], b[1..]) {
        SubseqTrans(a[1..], b[1..], c[1..]);
      } else {
        SubseqTrans(a, b[1..], c[1..]);
      }
    }
  }

  /** Every element of a subsequence is an element of the sequence. */
  lemma {:induction false} SubseqMembers<T>(sub: seq<T>, xs: seq<T>)
    requires Subseq(sub, xs)
    ensures forall x :: x in sub ==> x in xs
    decreases |xs|
  {
    if |sub| > 0 {
      if sub[0] == xs[0] && Subseq(sub[1..], xs[1..]) {
        SubseqMembers(sub[1..], xs[1..]);
        assert sub == [sub[0]] + sub[1..];
      } else {
        SubseqMembers(sub, xs[1..]);
      }
    }
  }

  /** The elements of `xs` that satisfy `p`, in their original order. */
  function Filter<T(==)>(xs: seq<T>, p: T -> bool): (r: seq<T>)
    ensures |r| <= |xs|
    ensures forall i :: 0 <= i < |r| ==> p(r[i]) && r[i] in xs
    ensures forall i :: 0 <= i < |xs| && p(xs[i]) ==> xs[i] in r
    ensures Subseq(r, xs)
  {
    if |xs| == 0 then []
    else
      var rest := Filter(xs[1..], p);
      assert xs == [xs[0]] + xs[1..];
      SubseqCons(xs[0], rest, xs[1..]);
      if p(xs[0]) then [xs[0]] + rest else rest
  }
  /** A filter every element passes keeps the whole sequence. */
  lemma {:induction false} FilterAll<T>(xs: seq<T>, p: T -> bool)
    requires forall i :: 0 <= i < |xs| ==> p(xs[i])
    ensures Filter(xs, p) == xs
  {
    if |xs| > 0 {
      FilterAll(xs[1..], p);
    }
  }

  /** A filter no element passes keeps nothing. */
  lemma {:induction false} FilterNone<T>(xs: seq<T>, p: T -> bool)
    requires forall i :: 0 <= i < |xs| ==> !p(xs[i])
    ensures Filter(xs, p) == []
  {
    if |xs| > 0 {
      FilterNone(xs[1..], p);
    }
  }


  /** The smallest element of a non-empty sequence of integers. */
  function Min(xs: seq<int>): (m: int)
    requires |xs| > 0
    ensures m in xs
    ensures forall i :: 0 <= i < |xs| ==> m <= xs[i]
  {
    if |xs| == 1 then xs[0]
    else
      var rest := Min(xs[1..]);
      assert forall i :: 1 <= i < |xs| ==> xs[i] == xs[1..][i - 1];
      if xs[0] <= rest then xs[0] else rest
  }

  /** The largest element of a non-empty sequence of integers. */
  function Max(xs: seq<int>): (m: int)
    requires |xs| > 0
    ensures m in xs
    ensures forall i :: 0 <= i < |xs| ==> xs[i] <= m
  {
    if |xs| == 1 then xs[0]
    else
      var rest := Max(xs[1..]);
      assert forall i :: 1 <= i < |xs| ==> xs[i] == xs[1..][i - 1];
      if xs[0] >= rest then xs[0] else rest
  }

  /** The integers `lo, lo+1, ..., hi-1`, the frames Python's `range(lo, hi)`
      walks; empty when `hi <= lo`. */
  function Range(lo: int, hi: int): (r: seq<int>)
    ensures |r| == if hi <= lo then 0 else hi - lo
    ensures forall i :: 0 <= i < |r| ==> r[i] == lo + i
    ensures forall f :: f in r <==> lo <= f < hi
    decreases hi - lo
  {
    if hi <= lo then []
    else
      var rest := Range(lo + 1, hi);
      assert forall f :: f in rest <==> lo + 1 <= f < hi;
      [lo] + rest
  }
}
