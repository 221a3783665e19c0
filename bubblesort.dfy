/**
  The library's `bubblesort`: for each position `i` in turn, an inner pass
  walks `j` from the last position down to `i + 1` and exchanges the elements
  at `i` and `j` whenever `cmp(list[j], list[i])` holds (the later element is
  the first argument). Lists of length 0 or 1 are returned at once.

  The functions below give the list's state after any number of iterations;
  the method runs the loops on an array and ends in exactly the state the
  functions describe, and the lemmas prove what that state is like.
 */
module Bubble {
  import opened Lists
  import opened Ordering

  /** One iteration of the inner loop: exchange `i` and `j` if
      `cmp(s[j], s[i])`. */
  function Step<T(!new)>(cmp: (T, T) -> bool, s: seq<T>, i: nat, j: nat): (r: seq<T>)
    requires i < j < |s|
    ensures |r| == |s|
  {
    if cmp(s[j], s[i]) then Swapped(s, i, j) else s
  }

  /** The list after the inner loop for outer index `i` has run the
      iterations `j = |s| - 1` down to `j = lo` (none when `lo == |s|`). */
  function Scan<T(!new)>(cmp: (T, T) -> bool, s: seq<T>, i: nat, lo: nat): (r: seq<T>)
    requires i < lo <= |s|
    decreases |s| - lo
    ensures |r| == |s|
  {
    if lo == |s| then s else Step(cmp, Scan(cmp, s, i, lo + 1), i, lo)
  }

  /** The list at the start of outer iteration `i`. */
  function Passes<T(!new)>(cmp: (T, T) -> bool, s: seq<T>, i: nat): (r: seq<T>)
    requires i <= |s|
    ensures |r| == |s|
  {
    if i == 0 then s else Scan(cmp, Passes(cmp, s, i - 1), i - 1, i)
  }

  /** What `bubblesort` leaves in a list holding `s`. */
  function BubbleSorted<T(!new)>(cmp: (T, T) -> bool, s: seq<T>): (r: seq<T>)
    ensures |s| <= 1 ==> r == s
  {
    if |s| <= 1 then s else Passes(cmp, s, |s|)
  }

  /** The inner pass for outer index `i` only exchanges elements, so it
      keeps the list's multiset of elements. */
  lemma {:induction false} ScanPermutes<T(!new)>(cmp: (T, T) -> bool, s: seq<T>, i: nat, lo: nat)
    requires i < lo <= |s|
    ensures multiset(Scan(cmp, s, i, lo)) == multiset(s)
    decreases |s| - lo
  {
    if lo < |s| {
      ScanPermutes(cmp, s, i, lo + 1);
    }
  }

  /** Hence so does every prefix of the outer loop. */
  lemma {:induction false} PassesPermutes<T(!new)>(cmp: (T, T) -> bool, s: seq<T>, i: nat)
    requires i <= |s|
    ensures multiset(Passes(cmp, s, i)) == multiset(s)
  {
    if i > 0 {
      PassesPermutes(cmp, s, i - 1);
      ScanPermutes(cmp, Passes(cmp, s, i - 1), i - 1, i);
    }
  }

  /** The inner loop for outer index `i` never touches the positions before
      `i` (the placed prefix is frozen), nor those it has not reached yet. */
  lemma {:induction false} ScanFrame<T(!new)>(cmp: (T, T) -> bool, s: seq<T>, i: nat, lo: nat)
    requires i < lo <= |s|
    ensures forall k :: 0 <= k < |s| && (k < i || i < k < lo) ==> Scan(cmp, s, i, lo)[k] == s[k]
    decreases |s| - lo
  {
    if lo < |s| {
      ScanFrame(cmp, s, i, lo + 1);
    }
  }

  /** The inner-loop invariant: once the iterations down to `lo` have run,
      `list[i]` may come before every `list[k]` with `k >= lo`. */
  lemma {:induction false} ScanMin<T(!new)>(cmp: (T, T) -> bool, s: seq<T>, i: nat, lo: nat)
    requires TotalPreorder(cmp)
    requires i < lo <= |s|
    ensures forall k :: lo <= k < |s| ==> cmp(Scan(cmp, s, i, lo)[i], Scan(cmp, s, i, lo)[k])
    decreases |s| - lo
  {
    if lo < |s| {
      ScanMin(cmp, s, i, lo + 1);
      var t := Scan(cmp, s, i, lo + 1);
      var r := Scan(cmp, s, i, lo);
      assert r == Step(cmp, t, i, lo);
      if cmp(t[lo], t[i]) {
        assert r[i] == t[lo] && r[lo] == t[i];
        forall k | lo < k < |s| ensures cmp(r[i], r[k]) {
          assert cmp(t[i], t[k]) && r[k] == t[k];
        }
      } else {
        assert r == t;
        assert cmp(t[i], t[lo]);
      }
    }
  }

  /** The inner pass only permutes positions `i` and later, so a value that
      may come before all of them still may afterwards. */
  lemma {:induction false} ScanKeepsLowerBound<T(!new)>(cmp: (T, T) -> bool, s: seq<T>, i: nat, lo: nat, v: T)
    requires i < lo <= |s|
    requires forall q :: i <= q < |s| ==> cmp(v, s[q])
    ensures forall q :: i <= q < |s| ==> cmp(v, Scan(cmp, s, i, lo)[q])
    decreases |s| - lo
  {
    if lo < |s| {
      ScanKeepsLowerBound(cmp, s, i, lo + 1, v);
    }
  }

  /** The outer-loop invariant: at the start of iteration `i` the prefix
      `list[0..i)` is sorted and each of its elements may come before every
      element of `list[i..n)`. */
  lemma {:induction false} PassesInvariant<T(!new)>(cmp: (T, T) -> bool, s: seq<T>, i: nat)
    requires TotalPreorder(cmp)
    requires i <= |s|
    ensures Sorted(cmp, Passes(cmp, s, i)[..i])
    ensures forall p, q :: 0 <= p < i <= q < |s| ==> cmp(Passes(cmp, s, i)[p], Passes(cmp, s, i)[q])
  {
    if i > 0 {
      var m := i - 1;
      var t := Passes(cmp, s, m);
      var r := Scan(cmp, t, m, i);
      assert Passes(cmp, s, i) == r;
      PassesInvariant(cmp, s, m);
      ScanFrame(cmp, t, m, i);
      ScanMin(cmp, t, m, i);
      forall p | 0 <= p < m
        ensures forall q :: m <= q < |s| ==> cmp(t[p], r[q])
      {
        ScanKeepsLowerBound(cmp, t, m, i, t[p]);
      }
      PlaceNext(cmp, t, r, m);
    }
  }

  /** One outer iteration in terms of sequences: if `t` satisfies the
      outer-loop invariant for `m` and `r` is `t` after a pass that left the
      prefix alone, kept every prefix element below the rest and placed a
      least element at `m`, then `r` satisfies the invariant for `m + 1`. */
  lemma PlaceNext<T>(cmp: (T, T) -> bool, t: seq<T>, r: seq<T>, m: nat)
    requires m < |t| == |r|
    requires Sorted(cmp, t[..m])
    requires forall k :: 0 <= k < m ==> r[k] == t[k]
    requires forall p, q :: 0 <= p < m <= q < |t| ==> cmp(t[p], r[q])
    requires forall k :: m < k < |r| ==> cmp(r[m], r[k])
    ensures Sorted(cmp, r[..m + 1])
    ensures forall p, q :: 0 <= p < m + 1 <= q < |r| ==> cmp(r[p], r[q])
  {
    var placed, before := r[..m + 1], t[..m];
    forall p, q | 0 <= p < q < |placed|
      ensures cmp(placed[p], placed[q])
    {
      if q < m {
        assert cmp(before[p], before[q]);
      }
    }
  }

  /** `bubblesort` leaves the list a permutation of its input, and sorted
      when `cmp` is a total preorder. */
  lemma BubbleSortedSorts<T(!new)>(cmp: (T, T) -> bool, s: seq<T>)
    ensures |BubbleSorted(cmp, s)| == |s|
    ensures multiset(BubbleSorted(cmp, s)) == multiset(s)
    ensures TotalPreorder(cmp) ==> Sorted(cmp, BubbleSorted(cmp, s))
  {
    if |s| > 1 {
      PassesPermutes(cmp, s, |s|);
    }
    if |s| > 1 && TotalPreorder(cmp) {
      PassesInvariant(cmp, s, |s|);
      assert Passes(cmp, s, |s|)[..|s|] == Passes(cmp, s, |s|);
    }
  }

  /** With a total order such as `<=`, an already sorted list comes back
      unchanged. */
  lemma BubbleSortedKeepsSorted<T(!new)>(cmp: (T, T) -> bool, s: seq<T>)
    requires TotalOrder(cmp) && Sorted(cmp, s)
    ensures BubbleSorted(cmp, s) == s
  {
    BubbleSortedSorts(cmp, s);
    SortedUnique(cmp, BubbleSorted(cmp, s), s);
  }

  /** `bubblesort(list, cmp)` on an array. Every `get`/`swap` index is in
      bounds, so the result is always `Ok(())`. */
  method BubbleSort<T(!new)>(a: array<T>, cmp: (T, T) -> bool) returns (res: Result<()>)
    modifies a
    ensures res == Ok(())
    ensures a[..] == BubbleSorted(cmp, old(a[..]))
    ensures multiset(a[..]) == multiset(old(a[..]))
    ensures TotalPreorder(cmp) ==> Sorted(cmp, a[..])
  {
    if a.Length <= 1 {
      return Ok(());
    }
    var n := a.Length;
    ghost var s := a[..];
    for i := 0 to n
      invariant a[..] == Passes(cmp, s, i)
    {
      ghost var t := a[..];
      for j := n downto i + 1
        invariant a[..] == Scan(cmp, t, i, j)
      {
        var later :- Get(a, j);
        var earlier :- Get(a, i);
        if cmp(later, earlier) {
          var _ :- Swap(a, i, j);
        }
      }
    }
    assert a[..] == BubbleSorted(cmp, s);
    BubbleSortedSorts(cmp, s);
    return Ok(());
  }
}
