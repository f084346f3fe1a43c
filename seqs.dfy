/** Order-preserving filtering and mapping of sequences: the shape of every
    loop in the wrapper that walks a list and appends what it keeps to a new
    ArrayList. */
module Seqs {

  /** The elements of `s` that satisfy `p`, in their order in `s`. */
  function Filter<T(==)>(s: seq<T>, p: T -> bool): (r: seq<T>)
    ensures |r| <= |s|
    ensures forall x :: x in r ==> x in s && p(x)
  {
    if s == [] then [] else (if p(s[0]) then [s[0]] else []) + Filter(s[1..], p)
  }

  /** `f` applied to every element of `s`. */
  function Map<T, U>(f: T -> U, s: seq<T>): (r: seq<U>)
    ensures |r| == |s|
    ensures forall i :: 0 <= i < |s| ==> r[i] == f(s[i])
  {
    if s == [] then [] else [f(s[0])] + Map(f, s[1..])
  }

  /** `a` is `b` with some elements left out and the rest in their order. */
  predicate IsSubsequence<T(==)>(a: seq<T>, b: seq<T>)
    decreases |b|
  {
    a == [] || (b != [] && ((a[0] == b[0] && IsSubsequence(a[1..], b[1..])) || IsSubsequence(a, b[1..])))
  }

  lemma {:induction false} SubsequenceLength<T>(a: seq<T>, b: seq<T>)
    requires IsSubsequence(a, b)
    ensures |a| <= |b|
    decreases |b|
  {
    if a != [] {
      if a[0] == b[0] && IsSubsequence(a[1..], b[1..]) {
        SubsequenceLength(a[1..], b[1..]);
      } else {
        SubsequenceLength(a, b[1..]);
      }
    }
  }

  /** Every element that `p` accepts is kept. */
  lemma {:induction false} FilterKeeps<T>(s: seq<T>, p: T -> bool, x: T)
    requires x in s && p(x)
    ensures x in Filter(s, p)
  {
    if s[0] != x {
      FilterKeeps(s[1..], p, x);
    }
  }

  /** Filtering distributes over concatenation: what is kept from an earlier
      part comes first. */
  lemma {:induction false} FilterAppend<T>(a: seq<T>, b: seq<T>, p: T -> bool)
    ensures Filter(a + b, p) == Filter(a, p) + Filter(b, p)
  {
    if a == [] {
      assert a + b == b;
    } else {
      assert (a + b)[1..] == a[1..] + b;
      FilterAppend(a[1..], b, p);
    }
  }

  /** A filtered sequence is a subsequence of the original. */
  lemma {:induction false} FilterIsSubsequence<T>(s: seq<T>, p: T -> bool)
    ensures IsSubsequence(Filter(s, p), s)
  {
    if s != [] {
      FilterIsSubsequence(s[1..], p);
      var a := Filter(s, p);
      if p(s[0]) {
        assert a == [s[0]] + Filter(s[1..], p);
        assert a[0] == s[0] && a[1..] == Filter(s[1..], p);
      } else {
        assert a == Filter(s[1..], p);
      }
    }
  }

  /** A weaker test keeps more: what `p` keeps, `q` keeps too, in order. */
  lemma {:induction false} FilterWeaker<T>(s: seq<T>, p: T -> bool, q: T -> bool)
    requires forall x :: p(x) ==> q(x)
    ensures IsSubsequence(Filter(s, p), Filter(s, q))
  {
    if s != [] {
      FilterWeaker(s[1..], p, q);
      var a, b := Filter(s, p), Filter(s, q);
      var a', b' := Filter(s[1..], p), Filter(s[1..], q);
      if p(s[0]) {
        assert a == [s[0]] + a' && b == [s[0]] + b';
        assert a[0] == b[0] && a[1..] == a' && b[1..] == b';
      } else if q(s[0]) {
        assert a == a' && b == [s[0]] + b' && b[1..] == b';
      } else {
        assert a == a' && b == b';
      }
    }
  }

  lemma {:induction false} MapAppend<T, U>(f: T -> U, a: seq<T>, b: seq<T>)
    ensures Map(f, a + b) == Map(f, a) + Map(f, b)
  {
    if a == [] {
      assert a + b == b;
    } else {
      assert (a + b)[1..] == a[1..] + b;
      MapAppend(f, a[1..], b);
    }
  }

  /** Mapping keeps the subsequence relation. */
  lemma {:induction false} MapSubsequence<T, U>(f: T -> U, a: seq<T>, b: seq<T>)
    requires IsSubsequence(a, b)
    ensures IsSubsequence(Map(f, a), Map(f, b))
    decreases |b|
  {
    if a != [] {
      if a[0] == b[0] && IsSubsequence(a[1..], b[1..]) {
        MapSubsequence(f, a[1..], b[1..]);
        assert Map(f, a)[1..] == Map(f, a[1..]);
        assert Map(f, b)[1..] == Map(f, b[1..]);
      } else {
        MapSubsequence(f, a, b[1..]);
        assert Map(f, b)[1..] == Map(f, b[1..]);
      }
    }
  }

  /** The loop step: filtering and mapping one more element at the end. */
  lemma MapFilterSnoc<T, U>(f: T -> U, s: seq<T>, p: T -> bool, x: T)
    ensures Map(f, Filter(s + [x], p)) == Map(f, Filter(s, p)) + (if p(x) then [f(x)] else [])
  {
    FilterAppend(s, [x], p);
    assert Filter([x], p) == if p(x) then [x] else [];
    MapAppend(f, Filter(s, p), Filter([x], p));
  }
}
