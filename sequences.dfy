/** `Array.prototype.filter` over sequences, built from the front to the back
    as the loops of the source push matching elements. */
module Sequences {

  /** `Array.prototype.map`: `f` applied to each element, in order. */
  function Map<T, U>(s: seq<T>, f: T -> U): (r: seq<U>)
    ensures |r| == |s|
    ensures forall i :: 0 <= i < |s| ==> r[i] == f(s[i])
  {
    seq(|s|, i requires 0 <= i < |s| => f(s[i]))
  }

  function Filter<T(!new)>(s: seq<T>, p: T -> bool): (r: seq<T>)
    ensures |r| <= |s|
    ensures forall i :: 0 <= i < |r| ==> p(r[i])
  {
    if s == [] then []
    else Filter(s[..|s| - 1], p) + (if p(s[|s| - 1]) then [s[|s| - 1]] else [])
  }

  /** Filtering a sequence extended by one element extends the filtered
      sequence by that element exactly when it passes. */
  lemma FilterSnoc<T(!new)>(s: seq<T>, x: T, p: T -> bool)
    ensures Filter(s + [x], p) == Filter(s, p) + (if p(x) then [x] else [])
  {
    assert (s + [x])[..|s|] == s;
  }

  /** An element is kept exactly when it occurs in the input and passes. */
  lemma {:induction false} FilterMembers<T(!new)>(s: seq<T>, p: T -> bool)
    ensures forall x :: x in Filter(s, p) <==> x in s && p(x)
  {
    if s != [] {
      FilterMembers(s[..|s| - 1], p);
      assert s == s[..|s| - 1] + [s[|s| - 1]];
    }
  }

  lemma ConcatAssociative<T>(a: seq<T>, b: seq<T>, c: seq<T>)
    ensures a + b + c == a + (b + c)
  {
  }

  /** Cutting `p + r` inside `p`. */
  lemma ConcatSlices<T>(p: seq<T>, r: seq<T>, k: nat)
    requires k <= |p|
    ensures (p + r)[..k] == p[..k] && (p + r)[k..] == p[k..] + r
  {
  }

  /** The elements of a non-empty list: those of all but its last, and its last. */
  lemma MultisetSnoc<T>(s: seq<T>)
    requires s != []
    ensures multiset(s) == multiset(s[..|s| - 1]) + multiset{s[|s| - 1]}
  {
    assert s == s[..|s| - 1] + [s[|s| - 1]];
  }

  /** No element occurs twice. */
  predicate Distinct<T(==)>(s: seq<T>) {
    forall i, j :: 0 <= i < j < |s| ==> s[i] != s[j]
  }

  /** Filtering a sequence without repeats gives one without repeats. */
  lemma {:induction false} FilterDistinct<T(!new)>(s: seq<T>, p: T -> bool)
    requires Distinct(s)
    ensures Distinct(Filter(s, p))
  {
    if s != [] {
      var init := s[..|s| - 1];
      FilterDistinct(init, p);
      FilterMembers(init, p);
      assert s[|s| - 1] !in init;
    }
  }

  /** A sequence has no repeats exactly when no element occurs in it more
      than once, so having no repeats depends only on the multiset. */
  lemma {:induction false} DistinctCounts<T>(t: seq<T>)
    ensures Distinct(t) <==> forall x :: multiset(t)[x] <= 1
  {
    if t != [] {
      var init, last := t[..|t| - 1], t[|t| - 1];
      DistinctCounts(init);
      assert t == init + [last];
      assert multiset(t) == multiset(init) + multiset{last};
      if Distinct(t) {
        assert Distinct(init);
        assert last !in init;
      }
      if forall x :: multiset(t)[x] <= 1 {
        assert forall x :: multiset(init)[x] <= 1 by {
          forall x ensures multiset(init)[x] <= 1 {
            assert multiset(t)[x] <= 1;
          }
        }
        assert multiset(t)[last] <= 1;
        assert last !in init;
      }
    }
  }
}
