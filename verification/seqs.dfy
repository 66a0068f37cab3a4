/**
 The two array operations the relay is built from, as pure functions on
 sequences. `Filter` is JavaScript `filter`: it keeps every element the
 predicate accepts, once each and in the original order. `FindFirst` is
 JavaScript `findIndex`: the position of the FIRST accepted element, with
 `None` in place of -1 (`find` is that element, see `Relay.FindSender`).
 */
module Seqs {

  datatype Option<+T> = None | Some(value: T)

  /** The elements of `s` accepted by `p`, in the order they occur in `s`. */
  function Filter<T>(s: seq<T>, p: T -> bool): (r: seq<T>)
    ensures |r| <= |s|
    ensures forall k :: 0 <= k < |r| ==> p(r[k]) && r[k] in s
    decreases |s|
  {
    if |s| == 0 then []
    else
      var front := Filter(s[..|s| - 1], p);
      if p(s[|s| - 1]) then front + [s[|s| - 1]] else front
  }

  /** Whether `idx` lists positions of `s` in strictly increasing order. */
  predicate Ascending(idx: seq<nat>)
  {
    forall k, l :: 0 <= k < l < |idx| ==> idx[k] < idx[l]
  }

  /**
   The positions of `s` that `p` accepts, in ascending order: every accepted
   position is listed once, and no other.
   */
  function FilterIndices<T>(s: seq<T>, p: T -> bool): (idx: seq<nat>)
    ensures forall k :: 0 <= k < |idx| ==> idx[k] < |s|
    ensures Ascending(idx)
    ensures forall i :: 0 <= i < |s| ==> (p(s[i]) <==> i in idx)
    decreases |s|
  {
    if |s| == 0 then []
    else
      var front := FilterIndices(s[..|s| - 1], p);
      if p(s[|s| - 1]) then front + [|s| - 1] else front
  }

  /**
   `Filter` is pinned down completely by the accepted positions: its k-th
   element is the element at the k-th accepted position. With the contract of
   `FilterIndices` this says the result keeps the original order and holds one
   element per accepted element, none missed and none added.
   */
  lemma {:induction false} FilterByIndices<T>(s: seq<T>, p: T -> bool)
    ensures |Filter(s, p)| == |FilterIndices(s, p)|
    ensures forall k :: 0 <= k < |Filter(s, p)| ==> Filter(s, p)[k] == s[FilterIndices(s, p)[k]]
    decreases |s|
  {
    if |s| > 0 {
      var s' := s[..|s| - 1];
      var x := s[|s| - 1];
      FilterByIndices(s', p);
      var f', idx' := Filter(s', p), FilterIndices(s', p);
      forall k | 0 <= k < |f'|
        ensures f'[k] == s[idx'[k]]
      {
        assert s'[idx'[k]] == s[idx'[k]];
      }
      if p(x) {
        assert Filter(s, p) == f' + [x];
        assert FilterIndices(s, p) == idx' + [|s| - 1];
      } else {
        assert Filter(s, p) == f';
        assert FilterIndices(s, p) == idx';
      }
    }
  }

  /** Every accepted element of `s` is kept. */
  lemma FilterKeeps<T>(s: seq<T>, p: T -> bool, i: nat)
    requires i < |s| && p(s[i])
    ensures s[i] in Filter(s, p)
  {
    FilterByIndices(s, p);
    var idx := FilterIndices(s, p);
    var k :| 0 <= k < |idx| && idx[k] == i;
    assert Filter(s, p)[k] == s[i];
  }

  /** Filtering an appended element only touches the end of the result. */
  lemma FilterSnoc<T>(s: seq<T>, x: T, p: T -> bool)
    ensures Filter(s + [x], p) == if p(x) then Filter(s, p) + [x] else Filter(s, p)
  {
    assert (s + [x])[..|s + [x]| - 1] == s;
  }

  /** A sequence every element of which passes `p` is its own filter. */
  lemma {:induction false} FilterAllPass<T>(s: seq<T>, p: T -> bool)
    requires forall i :: 0 <= i < |s| ==> p(s[i])
    ensures Filter(s, p) == s
    decreases |s|
  {
    if |s| > 0 {
      FilterAllPass(s[..|s| - 1], p);
      assert s == s[..|s| - 1] + [s[|s| - 1]];
    }
  }

  /** Filtering twice with the same predicate is filtering once. */
  lemma FilterIdempotent<T>(s: seq<T>, p: T -> bool)
    ensures Filter(Filter(s, p), p) == Filter(s, p)
  {
    FilterAllPass(Filter(s, p), p);
  }

  /**
   The position of the first element of `s` accepted by `p`, or `None` when
   no element is accepted.
   */
  function FindFirst<T>(s: seq<T>, p: T -> bool): (r: Option<nat>)
    ensures r.None? <==> forall i :: 0 <= i < |s| ==> !p(s[i])
    ensures r.Some? ==> r.value < |s| && p(s[r.value])
    ensures r.Some? ==> forall j :: 0 <= j < r.value ==> !p(s[j])
    decreases |s|
  {
    if |s| == 0 then None
    else if p(s[0]) then Some(0)
    else
      match FindFirst(s[1..], p)
      case None => None
      case Some(i) => Some(i + 1)
  }

  /** Appending never changes which element is found first, once one is. */
  lemma {:induction false} FindFirstSnocFound<T>(s: seq<T>, x: T, p: T -> bool)
    requires FindFirst(s, p).Some?
    ensures FindFirst(s + [x], p) == FindFirst(s, p)
    decreases |s|
  {
    assert (s + [x])[0] == s[0];
    if !p(s[0]) {
      assert (s + [x])[1..] == s[1..] + [x];
      FindFirstSnocFound(s[1..], x, p);
    }
  }

  /** Appending to a sequence with no accepted element finds the new one iff it is accepted. */
  lemma {:induction false} FindFirstSnocMissing<T>(s: seq<T>, x: T, p: T -> bool)
    requires FindFirst(s, p).None?
    ensures FindFirst(s + [x], p) == if p(x) then Some(|s|) else None
    decreases |s|
  {
    if |s| == 0 {
      assert s + [x] == [x];
    } else {
      assert (s + [x])[0] == s[0];
      assert (s + [x])[1..] == s[1..] + [x];
      FindFirstSnocMissing(s[1..], x, p);
    }
  }
}
