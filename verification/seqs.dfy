/** Python list comprehensions with a condition, and the order facts they keep. */
module Seqs {

  /** `[x for x in xs if p(x)]`: keeps the elements satisfying `p`, in their original order. */
  function Filter<T(==,!new)>(p: T -> bool, xs: seq<T>): (r: seq<T>)
    ensures |r| <= |xs|
    ensures forall i :: 0 <= i < |r| ==> p(r[i])
    ensures forall x :: x in r <==> x in xs && p(x)
  {
    if |xs| == 0 then []
    else if p(xs[0]) then [xs[0]] + Filter(p, xs[1..])
    else Filter(p, xs[1..])
  }

  /** `a` can be obtained from `b` by deleting elements, keeping the rest in order. */
  predicate IsSubseq<T(==,!new)>(a: seq<T>, b: seq<T>)
    decreases |b|
  {
    |a| == 0 || (|b| > 0 && ((a[0] == b[0] && IsSubseq(a[1..], b[1..])) || IsSubseq(a, b[1..])))
  }

  predicate Distinct<T(==,!new)>(xs: seq<T>) {
    forall i, j :: 0 <= i < j < |xs| ==> xs[i] != xs[j]
  }

  /** A filtered list is an order-preserving subsequence of its source. */
  lemma {:induction false} FilterIsSubseq<T(!new)>(p: T -> bool, xs: seq<T>)
    ensures IsSubseq(Filter(p, xs), xs)
    decreases |xs|
  {
    if |xs| > 0 {
      FilterIsSubseq(p, xs[1..]);
      var r := Filter(p, xs);
      if p(xs[0]) {
        assert r[0] == xs[0] && r[1..] == Filter(p, xs[1..]);
      }
    }
  }

  /** Two comprehensions in a row select what one comprehension with both conditions selects. */
  lemma {:induction false} FilterFusion<T(!new)>(p: T -> bool, q: T -> bool, both: T -> bool, xs: seq<T>)
    requires forall x :: x in xs ==> both(x) == (p(x) && q(x))
    ensures Filter(q, Filter(p, xs)) == Filter(both, xs)
    decreases |xs|
  {
    if |xs| > 0 {
      assert xs[0] in xs;
      assert forall x :: x in xs[1..] ==> x in xs;
      FilterFusion(p, q, both, xs[1..]);
      if p(xs[0]) {
        var f := Filter(p, xs);
        assert f[0] == xs[0] && f[1..] == Filter(p, xs[1..]);
      }
    }
  }

  /** Conditions that agree on every element select the same sublist. */
  lemma {:induction false} FilterCongruent<T(!new)>(p: T -> bool, q: T -> bool, xs: seq<T>)
    requires forall x :: x in xs ==> p(x) == q(x)
    ensures Filter(p, xs) == Filter(q, xs)
    decreases |xs|
  {
    if |xs| > 0 {
      assert xs[0] in xs;
      assert forall x :: x in xs[1..] ==> x in xs;
      FilterCongruent(p, q, xs[1..]);
    }
  }

  /** A condition every element meets leaves the list unchanged. */
  lemma {:induction false} FilterKeepsAll<T(!new)>(p: T -> bool, xs: seq<T>)
    requires forall x :: x in xs ==> p(x)
    ensures Filter(p, xs) == xs
    decreases |xs|
  {
    if |xs| > 0 {
      assert xs[0] in xs;
      assert forall x :: x in xs[1..] ==> x in xs;
      FilterKeepsAll(p, xs[1..]);
      assert xs == [xs[0]] + xs[1..];
    }
  }

  /** The filter of a one-element list. */
  function FilterOne<T>(p: T -> bool, x: T): seq<T> {
    if p(x) then [x] else []
  }

  /** A filter over a list with a fixed first element. */
  lemma FilterCons<T(!new)>(p: T -> bool, x: T, xs: seq<T>)
    ensures Filter(p, [x] + xs) == FilterOne(p, x) + Filter(p, xs)
  {
    var s := [x] + xs;
    assert s[0] == x && s[1..] == xs;
  }

  /** `Filter` on a one-element list is `FilterOne`. */
  lemma FilterSingle<T(!new)>(p: T -> bool, x: T)
    ensures Filter(p, [x]) == FilterOne(p, x)
  {
    assert [x][1..] == [];
  }

  /** A filter over three elements keeps each one the condition accepts, in order. */
  lemma FilterThree<T(!new)>(p: T -> bool, a: T, b: T, c: T)
    ensures Filter(p, [a, b, c]) == FilterOne(p, a) + FilterOne(p, b) + FilterOne(p, c)
  {
    var s := [a, b, c];
    assert s[1..] == [b, c];
    assert s[1..][1..] == [c];
    FilterSingle(p, c);
    assert Filter(p, [b, c]) == FilterOne(p, b) + Filter(p, [c]);
    assert Filter(p, s) == FilterOne(p, a) + Filter(p, [b, c]);
  }
}
