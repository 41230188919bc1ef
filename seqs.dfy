/** Generic sequence operations that model the row selections of a data frame:
    a boolean-mask filter, `drop_duplicates`, and counting keys. */
module Seqs {

  /** No element occurs twice. */
  predicate NoDuplicates<T(==,!new)>(s: seq<T>) {
    forall i, j :: 0 <= i < j < |s| ==> s[i] != s[j]
  }

  /** The elements of `s` that satisfy `p`, in their original order
      (`df[mask]`). Each kept element keeps its multiplicity. */
  function Filter<T(==,!new)>(s: seq<T>, p: T -> bool): (r: seq<T>)
    ensures |r| <= |s|
    ensures forall x :: x in r <==> x in s && p(x)
  {
    if |s| == 0 then []
    else
      var last := s[|s| - 1];
      assert s == s[..|s| - 1] + [last];
      Filter(s[..|s| - 1], p) + (if p(last) then [last] else [])
  }

  /** A filter keeps every selected element with its multiplicity and drops
      the rest, so it depends only on the multiset of its input. */
  lemma {:induction false} FilterMultiset<T(!new)>(s: seq<T>, p: T -> bool)
    ensures forall x :: multiset(Filter(s, p))[x] == if p(x) then multiset(s)[x] else 0
  {
    if |s| > 0 {
      var s' := s[..|s| - 1];
      var last := s[|s| - 1];
      FilterMultiset(s', p);
      assert s == s' + [last];
      FilterSnoc(s', last, p);
    }
  }

  lemma FilterSnoc<T(!new)>(s: seq<T>, x: T, p: T -> bool)
    ensures Filter(s + [x], p) == Filter(s, p) + (if p(x) then [x] else [])
  {
    assert (s + [x])[..|s|] == s;
  }

  lemma {:induction false} FilterAppend<T(!new)>(a: seq<T>, b: seq<T>, p: T -> bool)
    ensures Filter(a + b, p) == Filter(a, p) + Filter(b, p)
  {
    if |b| == 0 {
      assert a + b == a;
    } else {
      var b' := b[..|b| - 1];
      var x := b[|b| - 1];
      assert b == b' + [x];
      assert a + b == (a + b') + [x];
      FilterSnoc(a + b', x, p);
      FilterSnoc(b', x, p);
      FilterAppend(a, b', p);
    }
  }

  /** Selecting with `p` keeps everything when every element satisfies `p`. */
  lemma {:induction false} FilterAll<T(!new)>(s: seq<T>, p: T -> bool)
    requires forall x :: x in s ==> p(x)
    ensures Filter(s, p) == s
  {
    if |s| > 0 {
      var s' := s[..|s| - 1];
      FilterAll(s', p);
      assert s == s' + [s[|s| - 1]];
      FilterSnoc(s', s[|s| - 1], p);
    }
  }

  /** Selecting with `p` keeps nothing when no element satisfies `p`. */
  lemma {:induction false} FilterNone<T(!new)>(s: seq<T>, p: T -> bool)
    requires forall x :: x in s ==> !p(x)
    ensures Filter(s, p) == []
  {
    if |s| > 0 {
      var s' := s[..|s| - 1];
      FilterNone(s', p);
      assert s == s' + [s[|s| - 1]];
      FilterSnoc(s', s[|s| - 1], p);
    }
  }

  /** Two masks that agree on every element of `s` select the same rows. */
  lemma {:induction false} FilterSameMask<T(!new)>(s: seq<T>, p: T -> bool, q: T -> bool)
    requires forall x :: x in s ==> p(x) == q(x)
    ensures Filter(s, p) == Filter(s, q)
  {
    if |s| > 0 {
      var s' := s[..|s| - 1];
      FilterSameMask(s', p, q);
      assert s == s' + [s[|s| - 1]];
      FilterSnoc(s', s[|s| - 1], p);
      FilterSnoc(s', s[|s| - 1], q);
    }
  }

  /** Applying two masks one after the other is applying their conjunction `u`. */
  lemma {:induction false} FilterFilter<T(!new)>(s: seq<T>, p: T -> bool, q: T -> bool, u: T -> bool)
    requires forall x :: x in s ==> u(x) == (p(x) && q(x))
    ensures Filter(Filter(s, p), q) == Filter(s, u)
  {
    if |s| > 0 {
      var s' := s[..|s| - 1];
      var x := s[|s| - 1];
      assert s == s' + [x];
      assert u(x) == (p(x) && q(x));
      FilterFilter(s', p, q, u);
      FilterSnoc(s', x, p);
      FilterSnoc(s', x, u);
      if p(x) {
        FilterSnoc(Filter(s', p), x, q);
      } else {
        assert Filter(s, p) == Filter(s', p);
      }
    }
  }

  /** `drop_duplicates`: the first occurrence of every element, in order of
      first appearance. */
  function Distinct<T(==,!new)>(s: seq<T>): (r: seq<T>)
    ensures NoDuplicates(r)
    ensures forall x :: x in r <==> x in s
    ensures |r| <= |s|
  {
    if |s| == 0 then []
    else
      var prefix := Distinct(s[..|s| - 1]);
      var last := s[|s| - 1];
      assert s == s[..|s| - 1] + [last];
      if last in prefix then prefix else prefix + [last]
  }
}
