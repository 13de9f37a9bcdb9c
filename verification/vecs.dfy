/**
 * The vector operations `choice` performs on its list of candidate positions,
 * stated over immutable sequences.
 */
module Vecs {

  /** No value occurs twice in `s`. */
  predicate Distinct<T(==)>(s: seq<T>)
  {
    forall i, j | 0 <= i < j < |s| :: s[i] != s[j]
  }

  /** `(0..n).collect::<Vec<_>>()`: every position of a population of size n, in order. */
  function Range(n: nat): seq<nat>
  {
    seq(n, j requires 0 <= j < n => j)
  }

  /** Every entry of `idx` is a position of a population of size n. */
  predicate InBounds(idx: seq<nat>, n: nat)
  {
    forall k | 0 <= k < |idx| :: idx[k] < n
  }

  /** The elements of `a` at the positions `idx` lists, in the order it lists them. */
  function Gather<T>(a: seq<T>, idx: seq<nat>): (r: seq<T>)
    requires InBounds(idx, |a|)
    ensures |r| == |idx|
    ensures forall k | 0 <= k < |idx| :: r[k] == a[idx[k]]
  {
    seq(|idx|, k requires 0 <= k < |idx| => a[idx[k]])
  }

  /**
   * `Vec::swap_remove(i)`: the last element overwrites slot i and the vector
   * shrinks by one. Every element but the one at i survives, the order of the
   * survivors aside.
   */
  function SwapRemove<T>(s: seq<T>, i: nat): (r: seq<T>)
    requires i < |s|
    ensures |r| == |s| - 1
    ensures multiset(r) == multiset(s) - multiset{s[i]}
  {
    var r := s[i := s[|s| - 1]][..|s| - 1];
    SwapRemoveMultiset(s, i, r);
    r
  }

  lemma SwapRemoveMultiset<T>(s: seq<T>, i: nat, r: seq<T>)
    requires i < |s| && r == s[i := s[|s| - 1]][..|s| - 1]
    ensures multiset(r) == multiset(s) - multiset{s[i]}
  {
    var last := |s| - 1;
    if i == last {
      assert s == r + [s[i]];
    } else {
      assert s == s[..i] + [s[i]] + s[i + 1..last] + [s[last]];
      assert r == s[..i] + [s[last]] + s[i + 1..last];
    }
    assert multiset(s) == multiset(r) + multiset{s[i]};
    MultisetTakeBack(multiset(r), s[i]);
  }

  /** Adding one occurrence of x and taking it away again changes nothing. */
  lemma MultisetTakeBack<T>(m: multiset<T>, x: T)
    ensures m + multiset{x} - multiset{x} == m
  {
    assert forall y :: (m + multiset{x} - multiset{x})[y] == m[y];
  }

  /** swap_remove of the last slot drops the last element. */
  lemma SwapRemoveLastShape<T>(s: seq<T>)
    requires |s| > 0
    ensures s == SwapRemove(s, |s| - 1) + [s[|s| - 1]]
  {
  }

  /** swap_remove(i) below the last slot, as pieces: s = front + [s[i]] + middle + [last], and the result is front + [last] + middle. */
  lemma SwapRemoveShape<T>(s: seq<T>, i: nat)
    requires i < |s| - 1
    ensures s == s[..i] + [s[i]] + s[i + 1..|s| - 1] + [s[|s| - 1]]
    ensures SwapRemove(s, i) == s[..i] + [s[|s| - 1]] + s[i + 1..|s| - 1]
  {
  }

  /** Slot by slot: slot i now holds the former last element, every other slot keeps its element. */
  lemma SwapRemoveSlots<T>(s: seq<T>, i: nat)
    requires i < |s|
    ensures i < |s| - 1 ==> SwapRemove(s, i)[i] == s[|s| - 1]
    ensures forall j | 0 <= j < |s| - 1 && j != i :: SwapRemove(s, i)[j] == s[j]
  {
  }

  /** On a duplicate-free vector, swap_remove(i) removes exactly the value s[i] and keeps the rest duplicate-free. */
  lemma SwapRemoveDistinct<T>(s: seq<T>, i: nat)
    requires i < |s| && Distinct(s)
    ensures Distinct(SwapRemove(s, i))
    ensures forall x :: x in SwapRemove(s, i) <==> x in s && x != s[i]
  {
    var r := SwapRemove(s, i);
    var last := |s| - 1;
    SwapRemoveSlots(s, i);
    // where each slot of r came from in s
    var from := seq(|r|, j requires 0 <= j < |r| => if j == i then last else j);
    assert forall j | 0 <= j < |r| :: r[j] == s[from[j]] && from[j] != i;
    assert forall j, k | 0 <= j < k < |r| :: from[j] != from[k];
    forall x | x in s && x != s[i]
      ensures x in r
    {
      var k :| 0 <= k < |s| && s[k] == x;
      if k == last {
        assert r[i] == x;
      } else {
        assert r[k] == x;
      }
    }
  }

  /** Gathering through swap-removed positions is swap-removing the gathered elements. */
  lemma GatherSwapRemove<T>(a: seq<T>, idx: seq<nat>, i: nat)
    requires InBounds(idx, |a|) && i < |idx|
    ensures InBounds(SwapRemove(idx, i), |a|)
    ensures Gather(a, SwapRemove(idx, i)) == SwapRemove(Gather(a, idx), i)
  {
    SwapRemoveSlots(idx, i);
    SwapRemoveSlots(Gather(a, idx), i);
  }

  /** Gathering every position in order gives back the whole population. */
  lemma GatherRange<T>(a: seq<T>)
    ensures InBounds(Range(|a|), |a|)
    ensures Gather(a, Range(|a|)) == a
    ensures Distinct(Range(|a|))
    ensures forall q: nat :: q in Range(|a|) <==> q < |a|
  {
    forall q: nat | q < |a|
      ensures q in Range(|a|)
    {
      assert Range(|a|)[q] == q;
    }
  }
}
