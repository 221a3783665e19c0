/**
  The library's `insertion_sort`: for `j = 1 .. n - 1` it saves
  `key = list[j]`, walks `i` down from `j - 1` moving `list[i]` one place to
  the right while `i >= 0 && cmp(key, list[i])`, and then writes `key` at
  `i + 1`. Lists of length 0 or 1 are returned at once.

  As for bubble sort, functions give the list's state after any number of
  iterations, the method ends in exactly that state, and lemmas prove the
  loop invariants and the end result.
 */
module Insertion {
  import opened Lists
  import opened Ordering

  /** Where the inner loop stops when it starts at `i` on a list whose first
      `i + 1` cells hold those of `t`. */
  function StopAt<T>(cmp: (T, T) -> bool, t: seq<T>, key: T, i: int): (k: int)
    requires -1 <= i < |t|
    decreases i + 1
    ensures -1 <= k <= i
    // the loop stops exactly at the first index from the top that is -1 or fails the test ...
    ensures k == -1 || !cmp(key, t[k])
    // ... and every element it moved passed the test
    ensures forall m :: k < m <= i ==> cmp(key, t[m])
  {
    if i >= 0 && cmp(key, t[i]) then StopAt(cmp, t, key, i - 1) else i
  }

  /** The inner `while` loop started at `i`, followed by the write of `key`
      at `i + 1`; `ShiftInserts` says what it computes. */
  function Shift<T>(cmp: (T, T) -> bool, s: seq<T>, key: T, i: int): (r: seq<T>)
    requires -1 <= i < |s| - 1
    decreases i + 1
    ensures |r| == |s|
  {
    if i >= 0 && cmp(key, s[i]) then
      Shift(cmp, s[i + 1 := s[i]], key, i - 1)
    else
      s[i + 1 := key]
  }

  /** `t` with `key` inserted after position `k` and `t[j]` dropped. */
  function Inserted<T>(t: seq<T>, key: T, k: int, j: nat): (r: seq<T>)
    requires -1 <= k < j < |t|
    ensures |r| == |t|
  {
    t[..k + 1] + [key] + t[k + 1..j] + t[j + 1..]
  }

  /** `Inserted`, position by position. */
  lemma InsertedAt<T>(t: seq<T>, key: T, k: int, j: nat, p: nat)
    requires -1 <= k < j < |t| && p < |t|
    ensures Inserted(t, key, k, j)[p] ==
      if p <= k then t[p] else if p == k + 1 then key else if p <= j then t[p - 1] else t[p]
  {
    var a, b, c, d := t[..k + 1], [key], t[k + 1..j], t[j + 1..];
    assert Inserted(t, key, k, j) == a + b + c + d;
    if p > j {
      assert (a + b + c + d)[p] == d[p - (|a| + |b| + |c|)];
    } else if p > k + 1 {
      assert (a + b + c + d)[p] == (a + b + c)[p] == c[p - (|a| + |b|)];
    }
  }

  /** The inner-loop invariant. Starting from `t` with the hole at `j`,
      whenever the loop is at `i` the cells `0 .. i` still hold `t[0 .. i]`,
      the cells `i + 2 .. j` hold `t[i + 1 .. j - 1]` shifted right by one,
      and the cells after `j` are untouched; from there the loop and the
      final write insert `key` right after the stop index and drop `t[j]`. */
  lemma {:induction false} ShiftInserts<T>(cmp: (T, T) -> bool, t: seq<T>, key: T, j: nat, s: seq<T>, i: int)
    requires j < |t| == |s| && -1 <= i < j
    requires forall p :: 0 <= p <= i ==> s[p] == t[p]
    requires forall p :: i + 1 < p <= j ==> s[p] == t[p - 1]
    requires forall p :: j < p < |s| ==> s[p] == t[p]
    ensures Shift(cmp, s, key, i) == Inserted(t, key, StopAt(cmp, t, key, i), j)
    decreases i + 1
  {
    if i >= 0 && cmp(key, s[i]) {
      var s' := s[i + 1 := s[i]];
      assert forall p :: i < p <= j ==> s'[p] == t[p - 1];
      ShiftInserts(cmp, t, key, j, s', i - 1);
    } else {
      var r := s[i + 1 := key];
      forall p | 0 <= p < |t| ensures r[p] == Inserted(t, key, i, j)[p] {
        InsertedAt(t, key, i, j, p);
      }
    }
  }

  /** Inserting `key` between the elements that may come before it and the
      ones it may come before keeps a sorted prefix sorted. */
  lemma InsertKeepsSorted<T(!new)>(cmp: (T, T) -> bool, t: seq<T>, key: T, k: int, j: nat)
    requires TotalPreorder(cmp)
    requires -1 <= k < j < |t|
    requires Sorted(cmp, t[..j])
    requires k == -1 || !cmp(key, t[k])
    requires forall m :: k < m < j ==> cmp(key, t[m])
    ensures Sorted(cmp, Inserted(t, key, k, j)[..j + 1])
  {
    var r, before := Inserted(t, key, k, j), t[..j];
    var placed := r[..j + 1];
    forall p, q | 0 <= p < q < |placed| ensures cmp(placed[p], placed[q]) {
      InsertedAt(t, key, k, j, p);
      InsertedAt(t, key, k, j, q);
      if q <= k {
        assert cmp(before[p], before[q]);
      } else if q == k + 1 {
        assert cmp(t[k], key);
        if p < k {
          assert cmp(before[p], before[k]);
        }
      } else if p == k + 1 {
        assert cmp(key, t[q - 1]);
      } else if p <= k {
        assert cmp(before[p], before[q - 1]);
      } else {
        assert cmp(before[p - 1], before[q - 1]);
      }
    }
  }

  /** The list at the start of outer iteration `j` (`1 <= j <= |s|`). */
  function Insertions<T>(cmp: (T, T) -> bool, s: seq<T>, j: nat): (r: seq<T>)
    requires 1 <= j <= |s|
    ensures |r| == |s|
  {
    if j == 1 then s
    else
      var t := Insertions(cmp, s, j - 1);
      Shift(cmp, t, t[j - 1], j - 2)
  }

  /** What `insertion_sort` leaves in a list holding `s`. */
  function InsertionSorted<T>(cmp: (T, T) -> bool, s: seq<T>): (r: seq<T>)
    ensures |s| <= 1 ==> r == s
  {
    if |s| <= 1 then s else Insertions(cmp, s, |s|)
  }

  /** One outer iteration inserts `t[j]` right after the stop index. */
  lemma InsertionStep<T>(cmp: (T, T) -> bool, s: seq<T>, j: nat)
    requires 1 <= j < |s|
    ensures var t := Insertions(cmp, s, j);
      Insertions(cmp, s, j + 1) == Inserted(t, t[j], StopAt(cmp, t, t[j], j - 1), j)
  {
    var t := Insertions(cmp, s, j);
    assert Insertions(cmp, s, j + 1) == Shift(cmp, t, t[j], j - 1);
    ShiftInserts(cmp, t, t[j], j, t, j - 1);
  }

  /** Inserting `key` and dropping `t[j]` trades `t[j]` for `key` among the
      first `j + 1` cells and leaves the cells after `j` alone. */
  lemma InsertedPermutes<T>(t: seq<T>, key: T, k: int, j: nat)
    requires -1 <= k < j < |t|
    ensures multiset(Inserted(t, key, k, j)[..j + 1]) == multiset(t[..j]) + multiset{key}
    ensures forall p :: j < p < |t| ==> Inserted(t, key, k, j)[p] == t[p]
  {
    var front, back := t[..k + 1] + [key] + t[k + 1..j], t[j + 1..];
    var r := Inserted(t, key, k, j);
    assert r == front + back && |front| == j + 1;
    assert r[..j + 1] == front;
    assert t[..j] == t[..k + 1] + t[k + 1..j];
    forall p | j < p < |t| ensures r[p] == t[p] {
      assert r[p] == back[p - (j + 1)];
    }
  }

  /** The outer-loop invariant, as the comment in the source says: at the
      start of iteration `j`, `list[0..j)` is a permutation of the original
      `list[0..j)` and `list[j..n)` is untouched. */
  lemma {:induction false} InsertionsInvariant<T>(cmp: (T, T) -> bool, s: seq<T>, j: nat)
    requires 1 <= j <= |s|
    ensures multiset(Insertions(cmp, s, j)[..j]) == multiset(s[..j])
    ensures forall p :: j <= p < |s| ==> Insertions(cmp, s, j)[p] == s[p]
  {
    if j > 1 {
      var m := j - 1;
      var t := Insertions(cmp, s, m);
      InsertionsInvariant(cmp, s, m);
      InsertionStep(cmp, s, m);
      InsertedPermutes(t, t[m], StopAt(cmp, t, t[m], m - 1), m);
      assert t[m] == s[m];
      assert s[..j] == s[..m] + [s[m]];
    }
  }

  /** The sorting half of the outer-loop invariant: for a total-preorder
      `cmp`, `list[0..j)` is sorted at the start of iteration `j`. */
  lemma {:induction false} InsertionsSorted<T(!new)>(cmp: (T, T) -> bool, s: seq<T>, j: nat)
    requires TotalPreorder(cmp)
    requires 1 <= j <= |s|
    ensures Sorted(cmp, Insertions(cmp, s, j)[..j])
  {
    if j > 1 {
      var m := j - 1;
      var t := Insertions(cmp, s, m);
      var key := t[m];
      InsertionsSorted(cmp, s, m);
      InsertionStep(cmp, s, m);
      InsertKeepsSorted(cmp, t, key, StopAt(cmp, t, key, m - 1), m);
    }
  }

  /** `insertion_sort` leaves the list a permutation of its input, and sorted
      when `cmp` is a total preorder. */
  lemma InsertionSortedSorts<T(!new)>(cmp: (T, T) -> bool, s: seq<T>)
    ensures |InsertionSorted(cmp, s)| == |s|
    ensures multiset(InsertionSorted(cmp, s)) == multiset(s)
    ensures TotalPreorder(cmp) ==> Sorted(cmp, InsertionSorted(cmp, s))
  {
    if |s| > 1 {
      var r := Insertions(cmp, s, |s|);
      InsertionsInvariant(cmp, s, |s|);
      assert r[..|s|] == r && s[..|s|] == s;
      if TotalPreorder(cmp) {
        InsertionsSorted(cmp, s, |s|);
      }
    }
  }

  /** With a total order such as `<=`, an already sorted list comes back
      unchanged. */
  lemma InsertionSortedKeepsSorted<T(!new)>(cmp: (T, T) -> bool, s: seq<T>)
    requires TotalOrder(cmp) && Sorted(cmp, s)
    ensures InsertionSorted(cmp, s) == s
  {
    InsertionSortedSorts(cmp, s);
    SortedUnique(cmp, InsertionSorted(cmp, s), s);
  }

  /** `insertion_sort(list, cmp)` on an array. Every `get`/`set` index is in
      bounds (the test `i >= 0` guards the read of `list[i]`), so the result
      is always `Ok(())`. */
  method InsertionSort<T(!new)>(a: array<T>, cmp: (T, T) -> bool) returns (res: Result<()>)
    modifies a
    ensures res == Ok(())
    ensures a[..] == InsertionSorted(cmp, old(a[..]))
    ensures multiset(a[..]) == multiset(old(a[..]))
    ensures TotalPreorder(cmp) ==> Sorted(cmp, a[..])
  {
    if a.Length <= 1 {
      return Ok(());
    }
    var n := a.Length;
    ghost var s := a[..];
    for j := 1 to n
      invariant a[..] == Insertions(cmp, s, j)
    {
      var key :- Get(a, j);
      ghost var t := a[..];
      var i: int := j - 1;
      while i >= 0
        invariant -1 <= i < j
        invariant Shift(cmp, a[..], key, i) == Shift(cmp, t, key, j - 1)
        decreases i + 1
      {
        var tested :- Get(a, i);
        if !cmp(key, tested) {
          break;
        }
        var current :- Get(a, i);
        var _ :- Set(a, i + 1, current);
        i := i - 1;
      }
      var _ :- Set(a, i + 1, key);
    }
    assert a[..] == InsertionSorted(cmp, s);
    InsertionSortedSorts(cmp, s);
    return Ok(());
  }
}
