/**
  Properties of a caller-supplied comparator `cmp(a, b)` ("a may come before
  b"), what it means for a sequence to be sorted by it, and the fact that a
  comparator that is a total order admits exactly one sorted arrangement of
  a given multiset of elements.
 */
module Ordering {

  /** Every two elements are comparable (this makes `cmp` reflexive too). */
  ghost predicate Total<T(!new)>(cmp: (T, T) -> bool) {
    forall x, y :: cmp(x, y) || cmp(y, x)
  }

  ghost predicate Transitive<T(!new)>(cmp: (T, T) -> bool) {
    forall x, y, z :: cmp(x, y) && cmp(y, z) ==> cmp(x, z)
  }

  ghost predicate AntiSymmetric<T(!new)>(cmp: (T, T) -> bool) {
    forall x, y :: cmp(x, y) && cmp(y, x) ==> x == y
  }

  /** A total preorder, such as `<=` on a key of the elements. */
  ghost predicate TotalPreorder<T(!new)>(cmp: (T, T) -> bool) {
    Total(cmp) && Transitive(cmp)
  }

  /** A total order, such as `<=` on integers. */
  ghost predicate TotalOrder<T(!new)>(cmp: (T, T) -> bool) {
    TotalPreorder(cmp) && AntiSymmetric(cmp)
  }

  /** Every element may come before every later one: non-decreasing under `cmp`. */
  ghost predicate Sorted<T>(cmp: (T, T) -> bool, s: seq<T>) {
    forall p, q :: 0 <= p < q < |s| ==> cmp(s[p], s[q])
  }

  /** Dropping the first element keeps a sequence sorted. */
  lemma SortedTail<T>(cmp: (T, T) -> bool, s: seq<T>)
    requires Sorted(cmp, s) && |s| > 0
    ensures Sorted(cmp, s[1..])
  {
    forall p, q | 0 <= p < q < |s| - 1 ensures cmp(s[1..][p], s[1..][q]) {
      assert cmp(s[p + 1], s[q + 1]);
    }
  }

  /** The first element of a non-empty sorted sequence may come before every
      element the sequence holds. */
  lemma SortedHeadFirst<T(!new)>(cmp: (T, T) -> bool, s: seq<T>, x: T)
    requires Total(cmp)
    requires Sorted(cmp, s) && x in s
    ensures cmp(s[0], x)
  {
    var k :| 0 <= k < |s| && s[k] == x;
    if k > 0 {
      assert cmp(s[0], s[k]);
    }
  }

  /** Under a total, antisymmetric comparator two non-empty sorted sequences
      holding the same elements start with the same element. */
  lemma SortedSameHead<T(!new)>(cmp: (T, T) -> bool, s: seq<T>, t: seq<T>)
    requires Total(cmp) && AntiSymmetric(cmp)
    requires Sorted(cmp, s) && Sorted(cmp, t)
    requires multiset(s) == multiset(t) && |s| > 0
    ensures |t| > 0 && s[0] == t[0]
  {
    assert s[0] in multiset(t);
    assert t[0] in multiset(s);
    SortedHeadFirst(cmp, t, s[0]);
    SortedHeadFirst(cmp, s, t[0]);
  }

  /** Removing the same first element from two sequences holding the same
      elements leaves tails holding the same elements. */
  lemma SameTails<T>(s: seq<T>, t: seq<T>)
    requires multiset(s) == multiset(t) && |s| > 0 && |t| > 0 && s[0] == t[0]
    ensures multiset(s[1..]) == multiset(t[1..])
  {
    assert s == [s[0]] + s[1..] && t == [t[0]] + t[1..];
    assert multiset(s[1..]) == multiset(s) - multiset{s[0]};
    assert multiset(t[1..]) == multiset(t) - multiset{t[0]};
  }

  /** Under a total, antisymmetric comparator (a total order needs nothing
      more), two sorted sequences holding the same elements are equal: a
      sort's output is determined by its input's multiset. */
  lemma {:induction false} SortedUnique<T(!new)>(cmp: (T, T) -> bool, s: seq<T>, t: seq<T>)
    requires Total(cmp) && AntiSymmetric(cmp)
    requires Sorted(cmp, s) && Sorted(cmp, t)
    requires multiset(s) == multiset(t)
    ensures s == t
  {
    if |s| == 0 {
      assert |multiset(t)| == 0;
    } else {
      SortedSameHead(cmp, s, t);
      SameTails(s, t);
      SortedTail(cmp, s);
      SortedTail(cmp, t);
      SortedUnique(cmp, s[1..], t[1..]);
      assert s == [s[0]] + s[1..] && t == [t[0]] + t[1..];
    }
  }
}
