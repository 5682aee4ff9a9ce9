/**
 * Order-preserving selection of rows, the one operation behind every
 * boolean-mask or `isin` selection on a table in the facility logic.
 */
module Seqs {

  /** The elements of `s` that satisfy `p`, in their original order. */
  function Filter<T(!new)>(s: seq<T>, p: T -> bool): (r: seq<T>)
    ensures |r| <= |s|
    ensures forall x :: x in r <==> x in s && p(x)
  {
    if |s| == 0 then []
    else Filter(s[..|s| - 1], p) + (if p(s[|s| - 1]) then [s[|s| - 1]] else [])
  }

  /** Every kept element occurs as often as in the input, duplicates included; the others not at all. */
  lemma {:induction false} FilterMultiplicity<T(!new)>(s: seq<T>, p: T -> bool, x: T)
    ensures multiset(Filter(s, p))[x] == if p(x) then multiset(s)[x] else 0
  {
    if |s| > 0 {
      var init, last := s[..|s| - 1], s[|s| - 1];
      FilterMultiplicity(init, p, x);
      assert s == init + [last];
      assert multiset(s) == multiset(init) + multiset{last};
    }
  }

  /** `a` can be obtained from `b` by deleting elements, keeping the order of the rest. */
  ghost predicate IsSubsequence<T>(a: seq<T>, b: seq<T>) {
    |a| == 0
    || (|b| > 0
        && ((a[|a| - 1] == b[|b| - 1] && IsSubsequence(a[..|a| - 1], b[..|b| - 1]))
            || IsSubsequence(a, b[..|b| - 1])))
  }

  /** Filtering only deletes rows: the survivors keep their relative order. */
  lemma {:induction false} FilterIsSubsequence<T(!new)>(s: seq<T>, p: T -> bool)
    ensures IsSubsequence(Filter(s, p), s)
  {
    if |s| > 0 {
      var init, last := s[..|s| - 1], s[|s| - 1];
      FilterIsSubsequence(init, p);
      assert s[..|s| - 1] == init;
      if p(last) {
        var f := Filter(init, p);
        assert Filter(s, p) == f + [last];
        assert (f + [last])[..|f|] == f;
      } else {
        assert Filter(s, p) == Filter(init, p);
      }
    }
  }

  /** Filtering a sequence that is extended by one element. */
  lemma FilterSnoc<T(!new)>(s: seq<T>, x: T, p: T -> bool)
    ensures Filter(s + [x], p) == Filter(s, p) + (if p(x) then [x] else [])
  {
    assert (s + [x])[..|s|] == s;
  }

  /** A filter that rejects nothing returns its input unchanged. */
  lemma {:induction false} FilterAll<T(!new)>(s: seq<T>, p: T -> bool)
    requires forall x :: x in s ==> p(x)
    ensures Filter(s, p) == s
  {
    if |s| > 0 {
      FilterAll(s[..|s| - 1], p);
      assert s[..|s| - 1] + [s[|s| - 1]] == s;
    }
  }

  /** The predicate that holds where both `p` and `q` hold. */
  function Both<T>(p: T -> bool, q: T -> bool): T -> bool {
    x => p(x) && q(x)
  }

  /** Two successive filters select what one filter on the conjunction selects. */
  lemma {:induction false} FilterFilter<T(!new)>(s: seq<T>, p: T -> bool, q: T -> bool)
    ensures Filter(Filter(s, p), q) == Filter(s, Both(p, q))
  {
    if |s| > 0 {
      var init, last := s[..|s| - 1], s[|s| - 1];
      assert s == init + [last];
      FilterFilter(init, p, q);
      FilterSnoc(init, last, p);
      FilterSnoc(init, last, Both(p, q));
      assert Both(p, q)(last) == (p(last) && q(last));
      if p(last) {
        FilterSnoc(Filter(init, p), last, q);
        assert Filter(Filter(s, p), q) == Filter(Filter(init, p), q) + (if q(last) then [last] else []);
      } else {
        assert Filter(s, p) == Filter(init, p);
        assert Filter(s, Both(p, q)) == Filter(init, Both(p, q));
      }
    }
  }
}
