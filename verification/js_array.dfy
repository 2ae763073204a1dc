/** The JavaScript array primitives the store relies on: `splice` (with its
    index normalisation), `findIndex` and `find`. */
module JsArray {

  /** The start index `splice(start, …)` actually uses on an array of length
      `n`: a negative start counts back from the end (floored at 0) and a
      start past the end is clamped to the end. */
  function SpliceStart(n: nat, start: int): (k: nat)
    ensures k <= n
    ensures 0 <= start <= n ==> k == start
    ensures start > n ==> k == n
    ensures start < 0 && n + start >= 0 ==> k == n + start
    ensures n + start < 0 ==> k == 0
  {
    if start < 0 then (if n + start < 0 then 0 else n + start)
    else if start > n then n
    else start
  }

  /** `splice(i, 1)` on an in-range index: the element at `i` is gone and
      every other element keeps its relative order. */
  function RemoveAt<T>(s: seq<T>, i: nat): (r: seq<T>)
    requires i < |s|
    ensures |r| == |s| - 1
    ensures forall j :: 0 <= j < i ==> r[j] == s[j]
    ensures forall j :: i <= j < |r| ==> r[j] == s[j + 1]
    ensures multiset(r) + multiset{s[i]} == multiset(s)
  {
    assert s == s[..i] + [s[i]] + s[i + 1..];
    s[..i] + s[i + 1..]
  }

  /** `splice(i, 0, x)` on an in-range index: `x` lands at `i`, the elements
      before it stay put and the ones from `i` on shift right by one. */
  function InsertAt<T>(s: seq<T>, i: nat, x: T): (r: seq<T>)
    requires i <= |s|
    ensures |r| == |s| + 1
    ensures r[i] == x
    ensures forall j :: 0 <= j < i ==> r[j] == s[j]
    ensures forall j :: i < j < |r| ==> r[j] == s[j - 1]
    ensures multiset(r) == multiset(s) + multiset{x}
  {
    assert s == s[..i] + s[i..];
    s[..i] + [x] + s[i..]
  }

  /** Putting an element back where it was removed restores the sequence. */
  lemma InsertAtRemoveAt<T>(s: seq<T>, i: nat)
    requires i < |s|
    ensures InsertAt(RemoveAt(s, i), i, s[i]) == s
  {
  }

  /** Removing past the head removes from the tail. */
  lemma RemoveAtCons<T>(s: seq<T>, i: nat)
    requires 0 < i < |s|
    ensures RemoveAt(s, i) == [s[0]] + RemoveAt(s[1..], i - 1)
  {
    assert s[1..][..i - 1] == s[1..i];
    assert s[1..][i..] == s[i + 1..];
  }

  /** Taking out the element at `i` and putting it back one place earlier
      swaps it with its predecessor. */
  lemma MoveBackOne<T>(s: seq<T>, i: nat)
    requires 0 < i < |s|
    ensures InsertAt(RemoveAt(s, i), i - 1, s[i]) == s[i - 1 := s[i]][i := s[i - 1]]
  {
    var r := InsertAt(RemoveAt(s, i), i - 1, s[i]);
    var w := s[i - 1 := s[i]][i := s[i - 1]];
    forall j | 0 <= j < |r| ensures r[j] == w[j] {
      if j > i { assert r[j] == RemoveAt(s, i)[j - 1]; }
    }
  }

  /** Taking out the element at `i` and putting it back one place later
      swaps it with its successor. */
  lemma MoveForwardOne<T>(s: seq<T>, i: nat)
    requires i + 1 < |s|
    ensures InsertAt(RemoveAt(s, i), i + 1, s[i]) == s[i := s[i + 1]][i + 1 := s[i]]
  {
    var r := InsertAt(RemoveAt(s, i), i + 1, s[i]);
    var w := s[i := s[i + 1]][i + 1 := s[i]];
    forall j | 0 <= j < |r| ensures r[j] == w[j] {
      if j > i + 1 { assert r[j] == RemoveAt(s, i)[j - 1]; }
    }
  }

  /** Moving one element: `splice(from, 1)` followed by `splice(to, 0, moved)`,
      both with the normalised start of `splice`. `None` when `from` names no
      element (the source's `if (!moved) return`). */
  function Move<T>(s: seq<T>, from: int, to: int): (r: seq<T>)
    requires 0 <= SpliceStart(|s|, from) < |s|
    ensures |r| == |s|
    ensures multiset(r) == multiset(s)
    ensures r[SpliceStart(|s| - 1, to)] == s[SpliceStart(|s|, from)]
  {
    var i := SpliceStart(|s|, from);
    InsertAt(RemoveAt(s, i), SpliceStart(|s| - 1, to), s[i])
  }

  /** `findIndex`: the first index whose element satisfies `p`, or -1. */
  function FindIndex<T>(s: seq<T>, p: T -> bool): (r: int)
    ensures -1 <= r < |s|
    ensures r >= 0 ==> p(s[r]) && forall j :: 0 <= j < r ==> !p(s[j])
    ensures r == -1 <==> forall j :: 0 <= j < |s| ==> !p(s[j])
  {
    if |s| == 0 then -1
    else if p(s[0]) then 0
    else
      var k := FindIndex(s[1..], p);
      if k == -1 then -1 else k + 1
  }
}
