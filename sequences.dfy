/** Order-preserving filtering, the shape of a Python list comprehension with an `if`. */
module Sequences {

  /** `[x for x in s if p(x)]`: the elements of `s` that satisfy `p`, in their order.
      The result holds every element satisfying `p` as many times as `s` does, and no other. */
  function Filter<T(!new)>(p: T -> bool, s: seq<T>): (r: seq<T>)
    ensures |r| <= |s|
    ensures forall x :: x in r ==> p(x)
    decreases |s|
  {
    if s == [] then []
    else
      var init, last := s[..|s| - 1], s[|s| - 1];
      Filter(p, init) + (if p(last) then [last] else [])
  }

  /** Filtering distributes over concatenation: what is kept keeps its relative order. */
  lemma {:induction false} FilterAppend<T(!new)>(p: T -> bool, a: seq<T>, b: seq<T>)
    ensures Filter(p, a + b) == Filter(p, a) + Filter(p, b)
    decreases |b|
  {
    if b == [] {
      assert a + b == a;
    } else {
      var init, last := b[..|b| - 1], b[|b| - 1];
      var ab := a + b;
      assert ab[..|ab| - 1] == a + init;
      assert ab[|ab| - 1] == last;
      var kept := if p(last) then [last] else [];
      assert Filter(p, ab) == Filter(p, a + init) + kept;
      assert Filter(p, b) == Filter(p, init) + kept;
      FilterAppend(p, a, init);
    }
  }

  /** Filtering keeps every element satisfying `p` exactly as often as `s` holds it, and
      no other element: the result is a sub-multiset of `s`. */
  lemma {:induction false} FilterMultiset<T(!new)>(p: T -> bool, s: seq<T>, x: T)
    ensures multiset(Filter(p, s))[x] == if p(x) then multiset(s)[x] else 0
    decreases |s|
  {
    if s != [] {
      var init, last := s[..|s| - 1], s[|s| - 1];
      assert s == init + [last];
      FilterMultiset(p, init, x);
    }
  }

  /** `[f(x) for x in s]`. */
  function Map<T, U>(f: T -> U, s: seq<T>): (r: seq<U>)
    ensures |r| == |s|
    ensures forall i :: 0 <= i < |s| ==> r[i] == f(s[i])
  {
    seq(|s|, i requires 0 <= i < |s| => f(s[i]))
  }
}
