/**
 * `moveItem`, the list move behind every drag-and-drop reorder of projects
 * and tasks, and the one-element removal (`splice(i, 1)`) behind every delete.
 */
module Reorder {

  /** `splice(i, 1)` on a copy: the list without its i-th element. */
  function RemoveAt<T>(s: seq<T>, i: int): (r: seq<T>)
    requires 0 <= i < |s|
    ensures |r| == |s| - 1
    ensures forall k :: 0 <= k < i ==> r[k] == s[k]
    ensures forall k :: i <= k < |r| ==> r[k] == s[k + 1]
    ensures multiset(r) + multiset{s[i]} == multiset(s)
  {
    assert s == s[..i] + [s[i]] + s[i + 1..];
    s[..i] + s[i + 1..]
  }

  /** `splice(i, 0, x)` on a copy: `x` inserted so that it lands at index i. */
  function InsertAt<T>(s: seq<T>, i: int, x: T): (r: seq<T>)
    requires 0 <= i <= |s|
    ensures |r| == |s| + 1 && r[i] == x
    ensures forall k :: 0 <= k < i ==> r[k] == s[k]
    ensures forall k :: i < k < |r| ==> r[k] == s[k - 1]
    ensures multiset(r) == multiset(s) + multiset{x}
  {
    assert s == s[..i] + s[i..];
    s[..i] + [x] + s[i..]
  }

  /**
   * The result of `moveItem(list, from, to)`: the list itself when `to` is
   * outside the list or equals `from`, otherwise the element at `from`
   * taken out and put back so that it sits at `to`.
   */
  function Moved<T>(s: seq<T>, from: int, to: int): (r: seq<T>)
    requires 0 <= to < |s| && from != to ==> 0 <= from < |s|
    ensures |r| == |s| && multiset(r) == multiset(s)
    ensures 0 <= to < |s| ==> r[to] == s[from]
    ensures to < 0 || to >= |s| || from == to ==> r == s
  {
    if to < 0 || to >= |s| || from == to then s
    else InsertAt(RemoveAt(s, from), to, s[from])
  }

  /**
   * Where every element of a proper move lands: the elements between the
   * two positions shift by one towards `from`, all others stay put.
   */
  lemma MovedAt<T>(s: seq<T>, from: int, to: int, k: int)
    requires 0 <= from < |s| && 0 <= to < |s| && from != to && 0 <= k < |s|
    ensures Moved(s, from, to)[k] ==
      if k == to then s[from]
      else if from < to && from <= k < to then s[k + 1]
      else if to < from && to < k <= from then s[k - 1]
      else s[k]
  {
  }

  /** Moving an element back where it came from restores the list. */
  lemma {:induction false} MovedBack<T>(s: seq<T>, from: int, to: int)
    requires 0 <= from < |s| && 0 <= to < |s|
    ensures Moved(Moved(s, from, to), to, from) == s
  {
    if from != to {
      var b := Moved(Moved(s, from, to), to, from);
      forall k | 0 <= k < |s| ensures b[k] == s[k] {
        MovedBackAt(s, from, to, k);
      }
    }
  }

  /** One position of MovedBack: the element at `k` returns to `k`. */
  lemma MovedBackAt<T>(s: seq<T>, from: int, to: int, k: int)
    requires 0 <= from < |s| && 0 <= to < |s| && from != to && 0 <= k < |s|
    ensures Moved(Moved(s, from, to), to, from)[k] == s[k]
  {
    var m := Moved(s, from, to);
    MovedAt(m, to, from, k);
    if k == from {
      MovedAt(s, from, to, to);
    } else if to < from && to <= k < from {
      MovedAt(s, from, to, k + 1);
    } else if from < to && from < k <= to {
      MovedAt(s, from, to, k - 1);
    } else {
      MovedAt(s, from, to, k);
    }
  }

  /**
   * `arr.splice(from, 1)` on an array used up to its last slot: the
   * elements after `from` shift one slot left, so that the first
   * `arr.Length - 1` slots hold the list without element `from`.
   */
  method SpliceOut<T>(arr: array<T>, from: int)
    requires 0 <= from < arr.Length
    modifies arr
    ensures arr[..arr.Length - 1] == RemoveAt(old(arr[..]), from)
  {
    ghost var list := arr[..];
    var n := arr.Length;
    var i := from;
    while i < n - 1
      invariant from <= i <= n - 1
      invariant forall k :: 0 <= k < from ==> arr[k] == list[k]
      invariant forall k :: from <= k < i ==> arr[k] == list[k + 1]
      invariant forall k :: i <= k < n ==> arr[k] == list[k]
    {
      arr[i] := arr[i + 1];
      i := i + 1;
    }
    assert forall k :: 0 <= k < n - 1 ==> arr[..n - 1][k] == RemoveAt(list, from)[k];
  }

  /**
   * `arr.splice(to, 0, x)` on an array whose first `arr.Length - 1` slots
   * are in use: those from `to` on shift one slot right and `x` fills slot `to`.
   */
  method SpliceIn<T>(arr: array<T>, to: int, x: T)
    requires 0 <= to < arr.Length
    modifies arr
    ensures arr[..] == InsertAt(old(arr[..arr.Length - 1]), to, x)
  {
    ghost var list := arr[..arr.Length - 1];
    var j := arr.Length - 1;
    while j > to
      invariant to <= j <= arr.Length - 1
      invariant forall k :: 0 <= k < j ==> arr[k] == list[k]
      invariant forall k :: j < k < arr.Length ==> arr[k] == list[k - 1]
    {
      arr[j] := arr[j - 1];
      j := j - 1;
    }
    arr[to] := x;
    assert forall k :: 0 <= k < arr.Length ==> arr[..][k] == InsertAt(list, to, x)[k];
  }

  /**
   * `moveItem(list, from, to)`: works on an array copy of the list, which
   * it returns as it is for a move that is not one, and otherwise picks the
   * element at `from` out and splices it back in at `to`.
   */
  method MoveItem<T>(list: seq<T>, from: int, to: int) returns (r: seq<T>)
    requires 0 <= to < |list| && from != to ==> 0 <= from < |list|
    ensures r == Moved(list, from, to)
  {
    var arr := new T[|list|](i requires 0 <= i < |list| => list[i]);
    if to < 0 || to >= arr.Length || from == to {
      return arr[..];
    }
    assert arr[..] == list;
    var picked := arr[from];
    SpliceOut(arr, from);
    ghost var removed := arr[..arr.Length - 1];
    assert removed == RemoveAt(list, from);
    SpliceIn(arr, to, picked);
    r := arr[..];
    assert r == InsertAt(removed, to, picked);
  }

  /** The source's own examples: a move to the end, a move to the start, and a move onto itself. */
  lemma MoveToEndExample()
    ensures Moved(['A', 'B', 'C'], 0, 2) == ['B', 'C', 'A']
  {
    var s := ['A', 'B', 'C'];
    MovedAt(s, 0, 2, 0);
    MovedAt(s, 0, 2, 1);
    MovedAt(s, 0, 2, 2);
  }

  lemma MoveToStartExample()
    ensures Moved(['A', 'B', 'C'], 2, 0) == ['C', 'A', 'B']
  {
    var s := ['A', 'B', 'C'];
    MovedAt(s, 2, 0, 0);
    MovedAt(s, 2, 0, 1);
    MovedAt(s, 2, 0, 2);
  }

  lemma MoveOntoItselfExample()
    ensures Moved(['A', 'B', 'C'], 1, 1) == ['A', 'B', 'C']
  {
  }
}
