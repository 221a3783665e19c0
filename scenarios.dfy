/**
  The scenarios of the two sorting routines' own unit tests, run on arrays
  with the tests' comparator `cmp_leq` (`a <= b`), and the fact that with a
  total order the two routines always leave a list in the same state.
 */
module Scenarios {
  import opened Lists
  import opened Ordering
  import opened Bubble
  import opened Insertion

  /** The tests' comparator `cmp_leq`. */
  function CmpLeq(a: int, b: int): bool {
    a <= b
  }

  lemma CmpLeqIsTotalOrder()
    ensures TotalOrder(CmpLeq)
  {
  }

  /** With a total order both routines produce the one sorted permutation of
      their input, so they agree on every list. */
  lemma SortsAgree<T(!new)>(cmp: (T, T) -> bool, s: seq<T>)
    requires TotalOrder(cmp)
    ensures BubbleSorted(cmp, s) == InsertionSorted(cmp, s)
  {
    BubbleSortedSorts(cmp, s);
    InsertionSortedSorts(cmp, s);
    SortedUnique(cmp, BubbleSorted(cmp, s), InsertionSorted(cmp, s));
  }

  /** `[0, 1, 4, 12, 33]` is non-decreasing ... */
  lemma FiveSorted()
    ensures Sorted(CmpLeq, [0, 1, 4, 12, 33])
  {
  }

  /** ... and holds the elements of `[33, 12, 0, 1, 4]` ... */
  lemma FivePermuted()
    ensures multiset([0, 1, 4, 12, 33]) == multiset([33, 12, 0, 1, 4])
  {
  }

  /** ... and it is the only one. */
  lemma FiveSortedForm(r: seq<int>)
    requires Sorted(CmpLeq, r) && multiset(r) == multiset([33, 12, 0, 1, 4])
    ensures r == [0, 1, 4, 12, 33]
  {
    FiveSorted();
    FivePermuted();
    CmpLeqIsTotalOrder();
    SortedUnique(CmpLeq, r, [0, 1, 4, 12, 33]);
  }

  method BubbleSortNormal() returns (list: seq<int>, res: Result<()>)
    ensures list == [0, 1, 4, 12, 33] && res == Ok(())
  {
    var a := new int[] [33, 12, 0, 1, 4];
    assert a[..] == [33, 12, 0, 1, 4];
    res := BubbleSort(a, CmpLeq);
    list := a[..];
    CmpLeqIsTotalOrder();
    FiveSortedForm(list);
  }

  method BubbleSortEmpty() returns (list: seq<int>, res: Result<()>)
    ensures list == [] && res == Ok(())
  {
    var a := new int[0];
    res := BubbleSort(a, CmpLeq);
    list := a[..];
  }

  method BubbleSortSingle() returns (list: seq<int>, res: Result<()>)
    ensures list == [1] && res == Ok(())
  {
    var a := new int[] [1];
    assert a[..] == [1];
    res := BubbleSort(a, CmpLeq);
    list := a[..];
  }

  method BubbleSortSortedTwo() returns (list: seq<int>, res: Result<()>)
    ensures list == [1, 12] && res == Ok(())
  {
    var a := new int[] [1, 12];
    assert a[..] == [1, 12];
    res := BubbleSort(a, CmpLeq);
    list := a[..];
    CmpLeqIsTotalOrder();
    BubbleSortedKeepsSorted(CmpLeq, [1, 12]);
  }

  method InsertionSortNormal() returns (list: seq<int>, res: Result<()>)
    ensures list == [0, 1, 4, 12, 33] && res == Ok(())
  {
    var a := new int[] [33, 12, 0, 1, 4];
    assert a[..] == [33, 12, 0, 1, 4];
    res := InsertionSort(a, CmpLeq);
    list := a[..];
    CmpLeqIsTotalOrder();
    FiveSortedForm(list);
  }

  method InsertionSortEmpty() returns (list: seq<int>, res: Result<()>)
    ensures list == [] && res == Ok(())
  {
    var a := new int[0];
    res := InsertionSort(a, CmpLeq);
    list := a[..];
  }

  method InsertionSortSingle() returns (list: seq<int>, res: Result<()>)
    ensures list == [1] && res == Ok(())
  {
    var a := new int[] [1];
    assert a[..] == [1];
    res := InsertionSort(a, CmpLeq);
    list := a[..];
  }

  method InsertionSortSortedTwo() returns (list: seq<int>, res: Result<()>)
    ensures list == [1, 12] && res == Ok(())
  {
    var a := new int[] [1, 12];
    assert a[..] == [1, 12];
    res := InsertionSort(a, CmpLeq);
    list := a[..];
    CmpLeqIsTotalOrder();
    InsertionSortedKeepsSorted(CmpLeq, [1, 12]);
  }
}
