/** `arrayMove` from the drag-and-drop library's sortable preset: take the
    element at `from` out of the list and insert it again at `to`. */
module Sortable {

  function ArrayMove<T>(s: seq<T>, from: nat, to: nat): (r: seq<T>)
    requires from < |s| && to < |s|
    ensures |r| == |s|
    ensures r[to] == s[from]
  {
    var rest := s[..from] + s[from + 1..];
    rest[..to] + [s[from]] + rest[to..]
  }

  /** Where each element of a move ends up: the moved element lands at `to`,
      the elements between `from` and `to` shift one place towards `from`,
      and everything outside that range stays put. */
  lemma ArrayMoveAt<T>(s: seq<T>, from: nat, to: nat, k: nat)
    requires from < |s| && to < |s| && k < |s|
    ensures ArrayMove(s, from, to)[k] ==
      if k == to then s[from]
      else if from < to && from <= k < to then s[k + 1]
      else if to < from && to < k <= from then s[k - 1]
      else s[k]
  {
    var rest := s[..from] + s[from + 1..];
    assert forall j :: 0 <= j < |rest| ==> rest[j] == if j < from then s[j] else s[j + 1];
  }

  /** A move rearranges the list: it is a permutation. */
  lemma ArrayMovePermutes<T>(s: seq<T>, from: nat, to: nat)
    requires from < |s| && to < |s|
    ensures multiset(ArrayMove(s, from, to)) == multiset(s)
  {
    var rest := s[..from] + s[from + 1..];
    assert s == s[..from] + [s[from]] + s[from + 1..];
    assert multiset(s) == multiset(s[..from]) + multiset{s[from]} + multiset(s[from + 1..]);
    assert multiset(rest) == multiset(s[..from]) + multiset(s[from + 1..]);
    assert rest == rest[..to] + rest[to..];
    assert multiset(rest) == multiset(rest[..to]) + multiset(rest[to..]);
    assert multiset(ArrayMove(s, from, to)) == multiset(rest[..to]) + multiset{s[from]} + multiset(rest[to..]);
    assert multiset(ArrayMove(s, from, to)) == multiset(rest) + multiset{s[from]};
  }

  /** Moving an element back where it came from undoes the move. */
  lemma ArrayMoveUndo<T>(s: seq<T>, from: nat, to: nat)
    requires from < |s| && to < |s|
    ensures ArrayMove(ArrayMove(s, from, to), to, from) == s
  {
    var m := ArrayMove(s, from, to);
    forall k | 0 <= k < |s| ensures ArrayMove(m, to, from)[k] == s[k] {
      ArrayMoveAt(m, to, from, k);
      if k == from {
        ArrayMoveAt(s, from, to, to);
      } else if to < from && to <= k < from {
        ArrayMoveAt(s, from, to, k + 1);
      } else if from < to && from < k <= to {
        ArrayMoveAt(s, from, to, k - 1);
      } else {
        ArrayMoveAt(s, from, to, k);
      }
    }
  }

  /** Moving an element onto its own index changes nothing. */
  lemma ArrayMoveInPlace<T>(s: seq<T>, i: nat)
    requires i < |s|
    ensures ArrayMove(s, i, i) == s
  {
    assert s == s[..i] + [s[i]] + s[i + 1..];
  }

  /** A move is not a swap: moving the first of four elements to index 2
      shifts the second and third forward. */
  lemma MoveIsNotSwap<T>(a: T, b: T, c: T, d: T)
    ensures ArrayMove([a, b, c, d], 0, 2) == [b, c, a, d]
  {
  }
}
