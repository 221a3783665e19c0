/**
  The shared error vocabulary and the slice of the `List` capability that the
  two sorting routines use: positional read, positional write and exchange of
  two positions, each reporting `OutOfBounds` for a position outside the list.
  A list is modelled as a Dafny array; its length is `a.Length`.
 */
module Lists {

  /** The library's error kind; the sorts can only ever meet `OutOfBounds`. */
  datatype Error = OutOfBounds

  /** A result in the style of Rust's `Result<T, Error>`, usable with `:-`
      the way the source uses `?`. */
  datatype Result<T> = Ok(value: T) | Err(error: Error) {

    predicate IsFailure() {
      Err?
    }

    /** Total, so that propagating a failure that cannot occur leaves no
        obligation behind at the call site. */
    function PropagateFailure<U>(): Result<U> {
      match this
      case Err(e) => Err(e)
      case Ok(_) => Err(OutOfBounds)
    }

    function Extract(): T
      requires Ok?
    {
      value
    }
  }

  /** The sequence `s` with the elements at positions `i` and `j` exchanged. */
  function Swapped<T>(s: seq<T>, i: nat, j: nat): (r: seq<T>)
    requires i < |s| && j < |s|
    ensures |r| == |s|
    ensures r[i] == s[j] && r[j] == s[i]
    ensures forall k :: 0 <= k < |s| && k != i && k != j ==> r[k] == s[k]
    ensures multiset(r) == multiset(s)
  {
    s[i := s[j]][j := s[i]]
  }

  /** `get(pos)`: the element at `pos`, or `OutOfBounds`. */
  function Get<T>(a: array<T>, pos: nat): (r: Result<T>)
    reads a
    ensures r.Ok? <==> pos < a.Length
    ensures r.Ok? ==> r.value == a[pos]
  {
    if pos < a.Length then Ok(a[pos]) else Err(OutOfBounds)
  }

  /** `set(pos, elem)`: overwrite the element at `pos`, or fail with
      `OutOfBounds` and leave the list alone. */
  method Set<T>(a: array<T>, pos: nat, elem: T) returns (r: Result<()>)
    modifies a
    ensures r.Ok? <==> pos < a.Length
    ensures a[..] == if r.Ok? then old(a[..])[pos := elem] else old(a[..])
  {
    if pos < a.Length {
      a[pos] := elem;
      r := Ok(());
    } else {
      r := Err(OutOfBounds);
    }
  }

  /** `swap(i, j)`: exchange the elements at `i` and `j`, or fail with
      `OutOfBounds` and leave the list alone. */
  method Swap<T>(a: array<T>, i: nat, j: nat) returns (r: Result<()>)
    modifies a
    ensures r.Ok? <==> i < a.Length && j < a.Length
    ensures a[..] == if r.Ok? then Swapped(old(a[..]), i, j) else old(a[..])
  {
    if i < a.Length && j < a.Length {
      a[i], a[j] := a[j], a[i];
      r := Ok(());
    } else {
      r := Err(OutOfBounds);
    }
  }
}
