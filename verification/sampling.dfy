/**
 * `choice` from numrust's random.rs: draw `size` elements from a population
 * `a`, with or without replacement, optionally weighted by `p`.
 *
 * The random number generator is an oracle: `draws` lists, in order, the
 * indices that `dist.sample(&mut rng)` returns. `WeightedIndex` is not
 * modelled beyond its contract: it accepts a weight vector that is non-empty,
 * has no negative weight and has a positive total, and every index it returns
 * lies in [0, number of weights).
 */
module Sampling {
  import Stats
  import opened Vecs

  datatype Option<T> = None | Some(value: T)

  /** Why `choice` panics. */
  datatype Panic =
    | SizeExceedsPopulation                  // oversize sample without replacement
    | WeightsLengthMismatch                  // `p` and `a` differ in length
    | InvalidDistribution                    // `WeightedIndex::new(..).unwrap()` fails
    | IndexOutOfBounds(index: nat, len: nat) // `indices[i]` with i >= indices.len()

  /** What a call returns, or the panic that ends it. */
  datatype Outcome<T> = Ok(value: T) | Panicked(reason: Panic)

  /** The weight vectors `WeightedIndex::new` accepts. */
  predicate AcceptedWeights(w: seq<real>)
  {
    && |w| > 0
    && (forall j | 0 <= j < |w| :: w[j] >= 0.0)
    && Stats.Sum(w) > 0.0
  }

  /** `vec![1.0 / a.len() as f64; a.len()]`: the weights used when `p` is `None`. */
  function UniformWeights(n: nat): seq<real>
  {
    seq(n, j requires 0 <= j < n => 1.0 / (n as real))
  }

  /** A non-empty vector of positive weights is accepted. */
  lemma {:induction false} PositiveWeightsAccepted(w: seq<real>)
    requires |w| > 0 && forall j | 0 <= j < |w| :: w[j] > 0.0
    ensures AcceptedWeights(w)
  {
    var init := w[..|w| - 1];
    assert forall j | 0 <= j < |init| :: init[j] == w[j];
    if |init| > 0 {
      PositiveWeightsAccepted(init);
    }
  }

  /** The uniform weights of a non-empty population sum to 1 and are accepted. */
  lemma UniformWeightsAccepted(n: nat)
    requires n > 0
    ensures Stats.Sum(UniformWeights(n)) == 1.0
    ensures AcceptedWeights(UniformWeights(n))
    ensures forall j | 0 <= j < n :: UniformWeights(n)[j] > 0.0
  {
    var w := UniformWeights(n);
    Stats.SumConstant(w, 1.0 / (n as real));
    PositiveWeightsAccepted(w);
  }

  /**
   * Everything `choice` does before its first draw: the size check, then the
   * length check on `p`, then building the distribution once. The result is the
   * weight vector of that distribution, or the panic that comes first.
   */
  function Admit(n: nat, size: nat, replace: bool, p: Option<seq<real>>): (r: Outcome<seq<real>>)
    ensures !replace && size > n ==> r == Panicked(SizeExceedsPopulation)
    ensures (replace || size <= n) && p.Some? && |p.value| != n ==> r == Panicked(WeightsLengthMismatch)
    ensures ((replace || size <= n) && p.Some? && |p.value| == n)
              ==> r == (if AcceptedWeights(p.value) then Ok(p.value) else Panicked(InvalidDistribution))
    ensures (replace || size <= n) && p.None? ==> (r.Ok? <==> n > 0)
    ensures r.Ok? ==> n > 0 && |r.value| == n && AcceptedWeights(r.value) && (replace || size <= n)
  {
    if !replace && size > n then Panicked(SizeExceedsPopulation)
    else if p.Some? && |p.value| != n then Panicked(WeightsLengthMismatch)
    else
      var w := match p case Some(probs) => probs case None => UniformWeights(n);
      if n > 0 && p.None? then UniformWeightsAccepted(n); Ok(w)
      else if AcceptedWeights(w) then Ok(w)
      else Panicked(InvalidDistribution)
  }

  /**
   * The sampler's contract, as `choice` uses it: `size` draws from the
   * distribution over the weights w, each an index of w whose weight is
   * positive (an outcome of weight zero is never sampled).
   */
  predicate SamplerDraws(draws: seq<nat>, size: nat, w: seq<real>)
  {
    |draws| == size && forall k | 0 <= k < |draws| :: draws[k] < |w| && w[draws[k]] > 0.0
  }

  /** Draw k addresses a slot of an `indices` vector that has already lost k entries. */
  predicate DrawsFit(draws: seq<nat>, n: nat)
  {
    forall k | 0 <= k < |draws| :: draws[k] < n - k
  }

  /** Draw k is the first one that does not fit. */
  predicate FirstOverrun(draws: seq<nat>, n: nat, k: nat)
  {
    k < |draws| && k <= n && DrawsFit(draws[..k], n) && draws[k] >= n - k
  }

  /** `out` lists the elements of `a` at pairwise distinct positions `pos`. */
  ghost predicate ReadsDistinct<T>(a: seq<T>, out: seq<T>, pos: seq<nat>)
  {
    InBounds(pos, |a|) && Distinct(pos) && out == Gather(a, pos)
  }

  /**
   * The without-replacement bookkeeping after some draws: `indices` holds,
   * without duplicates, exactly the positions of `a` not yet `picked`; the
   * result so far is `a` read at the picked positions; and the result and the
   * elements still reachable through `indices` together make up `a`.
   */
  ghost predicate Unpicked<T>(a: seq<T>, indices: seq<nat>, picked: seq<nat>, result: seq<T>)
  {
    && |indices| + |picked| == |a|
    && InBounds(indices, |a|) && InBounds(picked, |a|)
    && Distinct(indices) && Distinct(picked)
    && (forall q: nat :: q in indices <==> q < |a| && q !in picked)
    && result == Gather(a, picked)
    && multiset(result) + multiset(Gather(a, indices)) == multiset(a)
  }

  /** Before the first draw every position is unpicked. */
  lemma StartUnpicked<T>(a: seq<T>)
    ensures Unpicked(a, Range(|a|), [], [])
  {
    GatherRange(a);
  }

  /** Reading `a[indices[i]]` and swap-removing slot i keeps the bookkeeping. */
  lemma PickKeepsUnpicked<T>(a: seq<T>, indices: seq<nat>, picked: seq<nat>, result: seq<T>, i: nat)
    requires Unpicked(a, indices, picked, result) && i < |indices|
    ensures Unpicked(a, SwapRemove(indices, i), picked + [indices[i]], result + [a[indices[i]]])
  {
    var x := a[indices[i]];
    var rest := SwapRemove(indices, i);
    var picked' := picked + [indices[i]];
    GatherSwapRemove(a, indices, i);
    SwapRemoveDistinct(indices, i);
    assert InBounds(rest, |a|) && InBounds(picked', |a|);
    assert Distinct(picked') by {
      assert indices[i] !in picked;
    }
    assert forall q: nat :: q in rest <==> q < |a| && q !in picked' by {
      forall q: nat
        ensures q in rest <==> q < |a| && q !in picked'
      {
        assert q in picked' <==> q in picked || q == indices[i];
      }
    }
    assert Gather(a, picked') == result + [x];
    assert multiset(result + [x]) + multiset(Gather(a, rest)) == multiset(a) by {
      assert Gather(a, indices)[i] == x;
      assert multiset(Gather(a, rest)) == multiset(Gather(a, indices)) - multiset{x};
      assert x in multiset(Gather(a, indices));
    }
  }

  // ---------------------------------------------------------------------------
  // The reference for the without-replacement loop
  // ---------------------------------------------------------------------------

  /** `o` with `done` in front of its elements; a panic passes through unchanged. */
  function Prepend<T>(done: seq<T>, o: Outcome<seq<T>>): (r: Outcome<seq<T>>)
    ensures r.Ok? <==> o.Ok?
    ensures r.Ok? ==> r.value == done + o.value
    ensures r.Panicked? ==> r == o
  {
    match o
    case Ok(rest) => Ok(done + rest)
    case Panicked(_) => o
  }

  /** The first draw fits when it is below n; the others must fit the n - 1 slots left after it. */
  lemma DrawsFitFirst(draws: seq<nat>, n: nat)
    requires |draws| > 0
    ensures DrawsFit(draws, n) <==> draws[0] < n && DrawsFit(draws[1..], n - 1)
  {
    assert forall k | 1 <= k < |draws| :: draws[1..][k - 1] == draws[k];
  }

  /**
   * Sampling without replacement, stated on the elements themselves: draw d
   * takes the element in slot d of what remains, and that slot is
   * swap-removed before the next draw. A draw past the end of what remains
   * is the panic of `indices[i]`.
   */
  function PickFrom<T>(rem: seq<T>, draws: seq<nat>): (r: Outcome<seq<T>>)
    ensures r.Ok? <==> DrawsFit(draws, |rem|)
    ensures r.Ok? ==> |r.value| == |draws|
    ensures r.Panicked? ==> r.reason.IndexOutOfBounds?
    decreases |draws|
  {
    if |draws| == 0 then Ok([])
    else
      var d := draws[0];
      DrawsFitFirst(draws, |rem|);
      if d >= |rem| then Panicked(IndexOutOfBounds(d, |rem|))
      else Prepend([rem[d]], PickFrom(SwapRemove(rem, d), draws[1..]))
  }

  /** What `PickFrom` returns is drawn from what remains, each occurrence at most once. */
  lemma {:induction false} PickFromWithin<T>(rem: seq<T>, draws: seq<nat>)
    requires PickFrom(rem, draws).Ok?
    ensures multiset(PickFrom(rem, draws).value) <= multiset(rem)
    decreases |draws|
  {
    if |draws| > 0 {
      var d := draws[0];
      DrawsFitFirst(draws, |rem|);
      PickFromUnfold(rem, draws);
      PickFromWithin(SwapRemove(rem, d), draws[1..]);
      assert rem[d] in multiset(rem);
    }
  }

  /**
   * One round of the loop, read against `PickFrom`: taking the element at
   * `indices[d]` and swap-removing slot d of `indices` is one unfolding of
   * `PickFrom` on the elements `indices` still reaches.
   */
  lemma PickFromStep<T>(a: seq<T>, indices: seq<nat>, result: seq<T>, draws: seq<nat>)
    requires InBounds(indices, |a|) && |draws| > 0 && draws[0] < |indices|
    ensures InBounds(SwapRemove(indices, draws[0]), |a|)
    ensures Prepend(result, PickFrom(Gather(a, indices), draws))
         == Prepend(result + [a[indices[draws[0]]]], PickFrom(Gather(a, SwapRemove(indices, draws[0])), draws[1..]))
  {
    var d := draws[0];
    var g := Gather(a, indices);
    GatherSwapRemove(a, indices, d);
    assert g[d] == a[indices[d]];
    PickFromUnfold(g, draws);
    PrependTwice(result, [g[d]], PickFrom(SwapRemove(g, d), draws[1..]));
  }

  /** `PickFrom` after a first draw that fits. */
  lemma PickFromUnfold<T>(rem: seq<T>, draws: seq<nat>)
    requires |draws| > 0 && draws[0] < |rem|
    ensures PickFrom(rem, draws) == Prepend([rem[draws[0]]], PickFrom(SwapRemove(rem, draws[0]), draws[1..]))
  {
  }

  /** `PickFrom` after a first draw past the end of what remains. */
  lemma PickFromOverrun<T>(rem: seq<T>, draws: seq<nat>)
    requires |draws| > 0 && draws[0] >= |rem|
    ensures PickFrom(rem, draws) == Panicked(IndexOutOfBounds(draws[0], |rem|))
  {
  }

  lemma PrependTwice<T>(x: seq<T>, y: seq<T>, o: Outcome<seq<T>>)
    ensures Prepend(x, Prepend(y, o)) == Prepend(x + y, o)
  {
    if o.Ok? {
      assert x + (y + o.value) == (x + y) + o.value;
    }
  }

  /** Before the first draw, the loop's state is `PickFrom` on the whole of `a`. */
  lemma PickFromStart<T>(a: seq<T>, draws: seq<nat>)
    ensures InBounds(Range(|a|), |a|)
    ensures Prepend([], PickFrom(Gather(a, Range(|a|)), draws[0..])) == PickFrom(a, draws)
  {
    GatherRange(a);
    assert draws[0..] == draws;
    var o := PickFrom(a, draws);
    if o.Ok? {
      assert [] + o.value == o.value;
    }
  }

  /**
   * The state of the without-replacement loop after k draws: the bookkeeping
   * of `Unpicked`, the first k draws fit, and the result so far followed by
   * `PickFrom` on the elements still reachable is `PickFrom` on all of `a`.
   */
  ghost predicate AfterDraws<T>(a: seq<T>, draws: seq<nat>, k: nat, indices: seq<nat>, picked: seq<nat>, result: seq<T>)
  {
    && k <= |draws| && |picked| == k
    && Unpicked(a, indices, picked, result)
    && DrawsFit(draws[..k], |a|)
    && Prepend(result, PickFrom(Gather(a, indices), draws[k..])) == PickFrom(a, draws)
  }

  lemma StartDraws<T>(a: seq<T>, draws: seq<nat>)
    ensures AfterDraws(a, draws, 0, Range(|a|), [], [])
  {
    StartUnpicked(a);
    PickFromStart(a, draws);
  }

  /** A draw that fits moves the loop state on by one. */
  lemma NextDraw<T>(a: seq<T>, draws: seq<nat>, k: nat, indices: seq<nat>, picked: seq<nat>, result: seq<T>)
    requires AfterDraws(a, draws, k, indices, picked, result)
    requires k < |draws| && draws[k] < |indices|
    ensures AfterDraws(a, draws, k + 1, SwapRemove(indices, draws[k]),
                       picked + [indices[draws[k]]], result + [a[indices[draws[k]]]])
  {
    var i := draws[k];
    PickKeepsUnpicked(a, indices, picked, result, i);
    DrawsFitExtend(draws, k, |a|);
    PickFromStep(a, indices, result, draws[k..]);
    assert draws[k..][1..] == draws[k + 1..];
  }

  lemma DrawsFitExtend(draws: seq<nat>, k: nat, n: nat)
    requires k < |draws| && DrawsFit(draws[..k], n) && draws[k] < n - k
    ensures DrawsFit(draws[..k + 1], n)
  {
    assert draws[..k + 1] == draws[..k] + [draws[k]];
  }

  /** A draw that does not fit ends the loop with the panic `PickFrom` predicts. */
  lemma OverrunDraw<T>(a: seq<T>, draws: seq<nat>, k: nat, indices: seq<nat>, picked: seq<nat>, result: seq<T>)
    requires AfterDraws(a, draws, k, indices, picked, result)
    requires k < |draws| && draws[k] >= |indices|
    ensures PickFrom(a, draws) == Panicked(IndexOutOfBounds(draws[k], |indices|))
    ensures FirstOverrun(draws, |a|, k) && |indices| == |a| - k
  {
    PickFromOverrun(Gather(a, indices), draws[k..]);
  }

  /** After the last draw the result is `PickFrom` on all of `a`, read at distinct positions. */
  lemma LastDraw<T>(a: seq<T>, draws: seq<nat>, indices: seq<nat>, picked: seq<nat>, result: seq<T>)
    requires AfterDraws(a, draws, |draws|, indices, picked, result)
    ensures PickFrom(a, draws) == Ok(result)
    ensures DrawsFit(draws, |a|) && ReadsDistinct(a, result, picked)
    ensures |result| == |draws| && multiset(result) <= multiset(a)
  {
    assert draws[..|draws|] == draws;
    assert result + [] == result;
  }

  // ---------------------------------------------------------------------------
  // The two loops of `choice`
  // ---------------------------------------------------------------------------

  /** The with-replacement loop: draw k selects `a[draws[k]]`. */
  method DrawWithReplacement<T>(a: seq<T>, draws: seq<nat>) returns (out: seq<T>)
    requires InBounds(draws, |a|)
    ensures |out| == |draws|
    ensures forall k | 0 <= k < |draws| :: out[k] == a[draws[k]]
  {
    out := [];
    var k := 0;
    while k < |draws|
      invariant k <= |draws|
      invariant |out| == k
      invariant forall j | 0 <= j < k :: out[j] == a[draws[j]]
    {
      out := out + [a[draws[k]]];
      k := k + 1;
    }
  }

  /**
   * The without-replacement loop as written: `indices` starts as every
   * position of `a`; draw i reads `a[indices[i]]` and then swap-removes slot i.
   * The distribution is never narrowed, so nothing keeps i below
   * `indices.len()`.
   */
  method DrawWithoutReplacement<T>(a: seq<T>, draws: seq<nat>) returns (r: Outcome<seq<T>>)
    ensures r.Ok? <==> DrawsFit(draws, |a|)
    ensures r.Ok? ==> |r.value| == |draws| && multiset(r.value) <= multiset(a)
    ensures r.Ok? ==> exists pos :: ReadsDistinct(a, r.value, pos)
    ensures r.Panicked? ==> && r.reason.IndexOutOfBounds?
                            && r.reason.len <= |a|
                            && FirstOverrun(draws, |a|, |a| - r.reason.len)
                            && r.reason.index == draws[|a| - r.reason.len]
    ensures r == PickFrom(a, draws)
  {
    var indices := Range(|a|);
    var result: seq<T> := [];
    ghost var picked: seq<nat> := [];
    StartDraws(a, draws);
    var k := 0;
    while k < |draws|
      invariant AfterDraws(a, draws, k, indices, picked, result)
    {
      var i := draws[k];
      if i >= |indices| {
        OverrunDraw(a, draws, k, indices, picked, result);
        return Panicked(IndexOutOfBounds(i, |indices|));
      }
      NextDraw(a, draws, k, indices, picked, result);
      result := result + [a[indices[i]]];
      picked := picked + [indices[i]];
      indices := SwapRemove(indices, i);
      k := k + 1;
    }
    LastDraw(a, draws, indices, picked, result);
    return Ok(result);
  }

  /**
   * `choice` as written. A draw of the never-narrowed distribution can exceed
   * the shrinking `indices`, and then the call panics with IndexOutOfBounds.
   */
  method Choice<T>(a: seq<T>, size: nat, replace: bool, p: Option<seq<real>>, draws: seq<nat>)
    returns (r: Outcome<seq<T>>)
    requires Admit(|a|, size, replace, p).Ok? ==> SamplerDraws(draws, size, Admit(|a|, size, replace, p).value)
    ensures Admit(|a|, size, replace, p).Ok? && replace ==> r == Ok(Gather(a, draws))
    ensures Admit(|a|, size, replace, p).Ok? && !replace ==> r == PickFrom(a, draws)
    ensures Admit(|a|, size, replace, p).Ok? && !replace ==> (r.Ok? <==> DrawsFit(draws, |a|))
    ensures Admit(|a|, size, replace, p).Ok? && r.Panicked? ==> r.reason.IndexOutOfBounds?
    ensures r.Ok? ==> |r.value| == size && forall x | x in r.value :: x in a
    ensures r.Ok? && !replace ==> multiset(r.value) <= multiset(a)
    ensures r.Ok? && !replace ==> exists pos :: ReadsDistinct(a, r.value, pos)
    ensures r.Panicked? && r.reason.IndexOutOfBounds? ==>
              && !replace
              && r.reason.len <= |a|
              && FirstOverrun(draws, |a|, |a| - r.reason.len)
              && r.reason.index == draws[|a| - r.reason.len]
    ensures Admit(|a|, size, replace, p).Panicked? ==> r == Panicked(Admit(|a|, size, replace, p).reason)
  {
    var admitted := Admit(|a|, size, replace, p);
    if admitted.Panicked? {
      return Panicked(admitted.reason);
    }
    assert |admitted.value| == |a| && SamplerDraws(draws, size, admitted.value);
    if replace {
      assert InBounds(draws, |a|);
      var out := DrawWithReplacement(a, draws);
      assert out == Gather(a, draws);
      assert forall k | 0 <= k < |out| :: out[k] in a;
      return Ok(out);
    }
    r := DrawWithoutReplacement(a, draws);
    if r.Ok? {
      assert forall x | x in r.value :: x in multiset(a);
    }
  }

  // ---------------------------------------------------------------------------
  // What the never-narrowed distribution lets through
  // ---------------------------------------------------------------------------

  /**
   * When every weight is positive, as for the uniform weights, the sampler may
   * return any index; the without-replacement loop can then overrun exactly
   * when two or more draws are made.
   */
  lemma OverrunReachable(w: seq<real>, size: nat)
    requires size <= |w| && forall j | 0 <= j < |w| :: w[j] > 0.0
    ensures (exists draws :: SamplerDraws(draws, size, w) && !DrawsFit(draws, |w|)) <==> size >= 2
  {
    var n := |w|;
    if size >= 2 {
      var draws := seq(size, k requires 0 <= k < size => if k == 1 then n - 1 else 0);
      assert draws[1] >= n - 1;
      assert SamplerDraws(draws, size, w) && !DrawsFit(draws, n);
    } else {
      forall draws | SamplerDraws(draws, size, w)
        ensures DrawsFit(draws, n)
      {
      }
    }
  }

  /**
   * The call `random::choice(&colors, 2, false, None)` that src/main.rs:11 writes:
   * two of three colours, without replacement, uniform weights; draws 0 then 2 panic.
   */
  method MainDemo() returns (r: Outcome<seq<string>>)
    ensures r == Panicked(IndexOutOfBounds(2, 2))
  {
    UniformWeightsAccepted(3);
    assert Admit(3, 2, false, None) == Ok(UniformWeights(3));
    assert SamplerDraws([0, 2], 2, UniformWeights(3)) by {
      assert UniformWeights(3)[0] == UniformWeights(3)[2] == 1.0 / 3.0;
    }
    r := Choice(["red", "blue", "green"], 2, false, None, [0, 2]);
    assert !DrawsFit([0, 2], 3) by {
      assert [0, 2][1] >= 3 - 1;
    }
    assert r.Panicked? && r.reason.IndexOutOfBounds?;
    assert !FirstOverrun([0, 2], 3, 0);
    assert r.reason.len == 2;
  }

  /** With weights [1, 0, 0] the sampler can only return index 0. */
  lemma OnlyIndexZero(draws: seq<nat>)
    requires SamplerDraws(draws, 2, [1.0, 0.0, 0.0])
    ensures draws == [0, 0]
  {
  }

  /**
   * Weights [1, 0, 0], two draws without replacement: both draws are 0, and the
   * second reads slot 0 of the swap-removed `indices` [2, 1], the element of
   * weight zero.
   */
  method ZeroWeightDemo(draws: seq<nat>) returns (r: Outcome<seq<int>>)
    requires SamplerDraws(draws, 2, [1.0, 0.0, 0.0])
    ensures r == Ok([10, 30])
  {
    OnlyIndexZero(draws);
    ZeroWeightAdmitted();
    ZeroWeightPicks();
    r := Choice([10, 20, 30], 2, false, Some([1.0, 0.0, 0.0]), draws);
  }

  /** The weights [1, 0, 0] pass every check of `choice`. */
  lemma ZeroWeightAdmitted()
    ensures Admit(3, 2, false, Some([1.0, 0.0, 0.0])) == Ok([1.0, 0.0, 0.0])
  {
    var p := [1.0, 0.0, 0.0];
    assert p[..2] == [1.0, 0.0] && [1.0, 0.0][..1] == [1.0] && [1.0][..0] == [];
    assert Stats.Sum(p) == 1.0;
  }

  /** Two draws of slot 0 without replacement read the first element and then the last. */
  lemma FirstThenLast<T>(a: seq<T>, draws: seq<nat>)
    requires |a| >= 2 && |draws| == 2 && draws[0] == 0 && draws[1] == 0
    ensures PickFrom(a, draws) == Ok([a[0], a[|a| - 1]])
  {
    var b := SwapRemove(a, 0);
    var rest := draws[1..];
    OnlyPick(b, rest);
    assert [0] + rest == draws;
    PickFromCons(a, 0, rest, [b[0]]);
    assert [a[0]] + [b[0]] == [a[0], a[|a| - 1]];
  }

  /** A single draw of slot 0 reads the first element. */
  lemma OnlyPick<T>(b: seq<T>, draws: seq<nat>)
    requires |b| >= 1 && |draws| == 1 && draws[0] == 0
    ensures PickFrom(b, draws) == Ok([b[0]])
  {
    var none := draws[1..];
    PickFromEmpty(SwapRemove(b, 0));
    assert none == [] && [0] + none == draws;
    PickFromCons(b, 0, none, []);
    assert [b[0]] + [] == [b[0]];
  }

  lemma PickFromEmpty<T>(rem: seq<T>)
    ensures PickFrom(rem, []) == Ok([])
  {
  }

  /** A first draw d that fits, followed by draws that succeed on what remains. */
  lemma PickFromCons<T>(rem: seq<T>, d: nat, rest: seq<nat>, v: seq<T>)
    requires d < |rem| && PickFrom(SwapRemove(rem, d), rest) == Ok(v)
    ensures PickFrom(rem, [d] + rest) == Ok([rem[d]] + v)
  {
    assert ([d] + rest)[0] == d && ([d] + rest)[1..] == rest;
    PickFromUnfold(rem, [d] + rest);
  }

  /** Draws 0 and 0 without replacement read positions 0 and then 2. */
  lemma ZeroWeightPicks()
    ensures PickFrom([10, 20, 30], [0, 0]) == Ok([10, 30])
  {
    FirstThenLast([10, 20, 30], [0, 0]);
  }

  // ---------------------------------------------------------------------------
  // The loop with the distribution narrowed after every draw
  // ---------------------------------------------------------------------------

  /**
   * The sampler's contract when the distribution is narrowed after every
   * draw. While the rebuilt weights are accepted, draw k is a slot of positive
   * weight among the weights that remain once the earlier draws have been
   * swap-removed. Once a rebuild is rejected the call panics there, the later
   * draws are never made, and nothing constrains them.
   */
  predicate NarrowedDraws(w: seq<real>, draws: seq<nat>)
    decreases |draws|
  {
    || |draws| == 0
    || !AcceptedWeights(w)
    || (draws[0] < |w| && w[draws[0]] > 0.0 && NarrowedDraws(SwapRemove(w, draws[0]), draws[1..]))
  }

  /** `w` has no negative weight. */
  predicate NonNegative(w: seq<real>)
  {
    forall j | 0 <= j < |w| :: w[j] >= 0.0
  }

  /** The number of positive weights in `w`. */
  function CountPositive(w: seq<real>): nat
  {
    if |w| == 0 then 0 else (if w[0] > 0.0 then 1 else 0) + CountPositive(w[1..])
  }

  /** The first position whose weight is positive. */
  function PositiveIndex(w: seq<real>): (i: nat)
    requires CountPositive(w) > 0
    ensures i < |w| && w[i] > 0.0
  {
    if w[0] > 0.0 then 0 else 1 + PositiveIndex(w[1..])
  }

  /** Non-negative weights none of which is positive are all zero. */
  lemma {:induction false} NoPositiveWeight(w: seq<real>)
    requires NonNegative(w) && CountPositive(w) == 0
    ensures forall j | 0 <= j < |w| :: w[j] == 0.0
  {
    if |w| > 0 {
      NoPositiveWeight(w[1..]);
      assert forall j | 1 <= j < |w| :: w[j] == w[1..][j - 1];
    }
  }

  /** Weights that are never negative have a non-negative total. */
  lemma {:induction false} NonNegativeTotal(w: seq<real>)
    requires forall j | 0 <= j < |w| :: w[j] >= 0.0
    ensures Stats.Sum(w) >= 0.0
  {
    if |w| > 0 {
      var init := w[..|w| - 1];
      assert forall j | 0 <= j < |init| :: init[j] == w[j];
      NonNegativeTotal(init);
    }
  }

  /** Non-negative weights with one positive weight are accepted. */
  lemma {:induction false} PositiveEntryAccepted(w: seq<real>, i: nat)
    requires i < |w| && w[i] > 0.0
    requires forall j | 0 <= j < |w| :: w[j] >= 0.0
    ensures AcceptedWeights(w)
  {
    var init := w[..|w| - 1];
    assert forall j | 0 <= j < |init| :: init[j] == w[j];
    if i < |w| - 1 {
      PositiveEntryAccepted(init, i);
    } else {
      NonNegativeTotal(init);
    }
  }

  /** `WeightedIndex::new` accepts a weight vector exactly when no weight is negative and some weight is positive. */
  lemma AcceptedIffPositive(w: seq<real>)
    ensures AcceptedWeights(w) <==> NonNegative(w) && CountPositive(w) > 0
  {
    if NonNegative(w) {
      if CountPositive(w) > 0 {
        PositiveEntryAccepted(w, PositiveIndex(w));
      } else {
        NoPositiveWeight(w);
        Stats.SumConstant(w, 0.0);
      }
    }
  }

  /** Positive weights are all counted. */
  lemma {:induction false} AllPositiveCount(w: seq<real>)
    requires forall j | 0 <= j < |w| :: w[j] > 0.0
    ensures NonNegative(w) && CountPositive(w) == |w|
  {
    if |w| > 0 {
      AllPositiveCount(w[1..]);
    }
  }

  /** Positive weights are counted piece by piece. */
  lemma {:induction false} CountAppend(u: seq<real>, v: seq<real>)
    ensures CountPositive(u + v) == CountPositive(u) + CountPositive(v)
  {
    if |u| > 0 {
      assert (u + v)[0] == u[0] && (u + v)[1..] == u[1..] + v;
      CountAppend(u[1..], v);
    } else {
      assert u + v == v;
    }
  }

  /** One weight counts once when positive. */
  lemma CountSingle(x: real)
    ensures CountPositive([x]) == if x > 0.0 then 1 else 0
  {
    assert [x][1..] == [];
  }

  /** Moving the last weight into slot i and dropping the old one there takes w[i]'s count away. */
  lemma CountSwapPieces(front: seq<real>, x: real, middle: seq<real>, y: real)
    ensures CountPositive(front + [y] + middle) + (if x > 0.0 then 1 else 0)
            == CountPositive(front + [x] + middle + [y])
  {
    CountSingle(x);
    CountSingle(y);
    CountAppend(front + [x] + middle, [y]);
    CountAppend(front + [x], middle);
    CountAppend(front, [x]);
    CountAppend(front + [y], middle);
    CountAppend(front, [y]);
  }

  /** swap_remove(i) takes a positive weight away exactly when w[i] is positive. */
  lemma CountSwapRemove(w: seq<real>, i: nat)
    requires i < |w|
    ensures CountPositive(SwapRemove(w, i)) + (if w[i] > 0.0 then 1 else 0) == CountPositive(w)
  {
    var last := |w| - 1;
    if i == last {
      SwapRemoveLastShape(w);
      CountAppend(SwapRemove(w, i), [w[i]]);
      CountSingle(w[i]);
    } else {
      SwapRemoveShape(w, i);
      CountSwapPieces(w[..i], w[i], w[i + 1..last], w[last]);
    }
  }

  /** swap_remove keeps weights non-negative. */
  lemma NonNegativeSwapRemove(w: seq<real>, i: nat)
    requires i < |w| && NonNegative(w)
    ensures NonNegative(SwapRemove(w, i))
  {
    SwapRemoveSlots(w, i);
  }

  /**
   * The narrowed loop runs out: a draw is asked of weights with a negative
   * entry, or of fewer positive weights than there are draws.
   */
  predicate WeightsRunOut(w: seq<real>, n: nat)
  {
    n > 0 && (!NonNegative(w) || CountPositive(w) < n)
  }

  /** Accepted weights run out exactly when fewer than `n` of them are positive. */
  lemma RunOutIffFewer(w: seq<real>, n: nat)
    requires AcceptedWeights(w)
    ensures WeightsRunOut(w, n) <==> CountPositive(w) < n
  {
    AcceptedIffPositive(w);
  }

  /** Draws of the narrowed distribution fit the shrinking `indices` whenever the weights do not run out. */
  lemma {:induction false} NarrowedDrawsFit(w: seq<real>, draws: seq<nat>)
    requires NarrowedDraws(w, draws) && !WeightsRunOut(w, |draws|)
    ensures DrawsFit(draws, |w|)
    decreases |draws|
  {
    if |draws| > 0 {
      AcceptedIffPositive(w);
      CountSwapRemove(w, draws[0]);
      NonNegativeSwapRemove(w, draws[0]);
      NarrowedDrawsFit(SwapRemove(w, draws[0]), draws[1..]);
      DrawsFitFirst(draws, |w|);
    }
  }

  /** Slot j of the rebuilt distribution carries the weight of the element at `indices[j]`. */
  ghost predicate WeightsFollow(weights: seq<real>, w: seq<real>, indices: seq<nat>)
  {
    && |weights| == |indices|
    && InBounds(indices, |w|)
    && forall j | 0 <= j < |indices| :: weights[j] == w[indices[j]]
  }

  /** Swap-removing the same slot of both vectors keeps every weight with its element. */
  lemma WeightsFollowSwapRemove(weights: seq<real>, w: seq<real>, indices: seq<nat>, i: nat)
    requires WeightsFollow(weights, w, indices) && i < |indices|
    ensures WeightsFollow(SwapRemove(weights, i), w, SwapRemove(indices, i))
  {
    SwapRemoveSlots(weights, i);
    SwapRemoveSlots(indices, i);
  }

  /** Every listed position carries a positive weight. */
  ghost predicate PositiveAt(w: seq<real>, pos: seq<nat>)
  {
    forall k | 0 <= k < |pos| :: pos[k] < |w| && w[pos[k]] > 0.0
  }

  /**
   * The weight side of the narrowed loop after k draws: the remaining weights
   * follow `indices`, the draws left are draws of the narrowed distribution,
   * every picked position has positive weight, and once a draw was made the
   * weights are non-negative and each draw took exactly one positive weight away.
   */
  ghost predicate Narrowed(w: seq<real>, draws: seq<nat>, k: nat, weights: seq<real>, indices: seq<nat>, picked: seq<nat>)
  {
    && k <= |draws|
    && WeightsFollow(weights, w, indices)
    && NarrowedDraws(weights, draws[k..])
    && PositiveAt(w, picked)
    && (k == 0 ==> weights == w)
    && (k > 0 ==> NonNegative(w) && NonNegative(weights) && CountPositive(weights) + k == CountPositive(w))
  }

  /** Before the first draw, the weights are the caller's and follow 0..n. */
  lemma StartNarrowed(w: seq<real>, draws: seq<nat>)
    requires NarrowedDraws(w, draws)
    ensures Narrowed(w, draws, 0, w, Range(|w|), [])
  {
    assert draws[0..] == draws;
  }

  /** A rebuild is rejected only when the weights run out. */
  lemma RebuildRejected(w: seq<real>, draws: seq<nat>, k: nat, weights: seq<real>, indices: seq<nat>, picked: seq<nat>)
    requires Narrowed(w, draws, k, weights, indices, picked) && k < |draws| && !AcceptedWeights(weights)
    ensures WeightsRunOut(w, |draws|)
  {
    AcceptedIffPositive(weights);
  }

  /** A draw of an accepted rebuild fits, has positive weight, and moves the weight side on by one. */
  lemma NarrowedNext(w: seq<real>, draws: seq<nat>, k: nat, weights: seq<real>, indices: seq<nat>, picked: seq<nat>)
    requires Narrowed(w, draws, k, weights, indices, picked) && k < |draws| && AcceptedWeights(weights)
    ensures draws[k] < |indices|
    ensures Narrowed(w, draws, k + 1, SwapRemove(weights, draws[k]), SwapRemove(indices, draws[k]),
                     picked + [indices[draws[k]]])
  {
    var i := draws[k];
    assert draws[k..][0] == i && draws[k..][1..] == draws[k + 1..];
    WeightsFollowSwapRemove(weights, w, indices, i);
    AcceptedIffPositive(weights);
    CountSwapRemove(weights, i);
    NonNegativeSwapRemove(weights, i);
  }

  /** One round of the narrowed loop, once the rebuilt distribution is accepted. */
  lemma NarrowedRound<T>(a: seq<T>, w: seq<real>, draws: seq<nat>, k: nat,
                         weights: seq<real>, indices: seq<nat>, picked: seq<nat>, result: seq<T>)
    requires AfterDraws(a, draws, k, indices, picked, result)
    requires Narrowed(w, draws, k, weights, indices, picked)
    requires k < |draws| && AcceptedWeights(weights)
    ensures draws[k] < |indices|
    ensures AfterDraws(a, draws, k + 1, SwapRemove(indices, draws[k]),
                       picked + [indices[draws[k]]], result + [a[indices[draws[k]]]])
    ensures Narrowed(w, draws, k + 1, SwapRemove(weights, draws[k]), SwapRemove(indices, draws[k]),
                     picked + [indices[draws[k]]])
  {
    NarrowedNext(w, draws, k, weights, indices, picked);
    NextDraw(a, draws, k, indices, picked, result);
  }

  /**
   * The without-replacement loop with the distribution narrowed after every
   * draw: the weights are swap-removed in step with `indices`, and the
   * distribution is rebuilt over the remaining slots before each draw. A
   * rebuild is rejected, and the call panics, exactly when the weights run
   * out; otherwise the result is the one the loop as written reads for the
   * same draws, and every element in it has a positive weight.
   */
  method DrawWithoutReplacementRenormalised<T>(a: seq<T>, w: seq<real>, draws: seq<nat>)
    returns (r: Outcome<seq<T>>)
    requires |w| == |a|
    requires NarrowedDraws(w, draws)
    ensures r.Panicked? <==> WeightsRunOut(w, |draws|)
    ensures r.Panicked? ==> r.reason == InvalidDistribution
    ensures r.Ok? ==> |r.value| == |draws| && multiset(r.value) <= multiset(a)
    ensures r.Ok? ==> exists pos :: ReadsDistinct(a, r.value, pos) && PositiveAt(w, pos)
    ensures (forall j | 0 <= j < |w| :: w[j] > 0.0) && |draws| <= |w| ==> r.Ok?
    ensures r.Ok? ==> r == PickFrom(a, draws)
  {
    if forall j | 0 <= j < |w| :: w[j] > 0.0 {
      AllPositiveCount(w);
    }
    var result, accepted, indices, picked := NarrowedLoop(a, w, draws);
    if !accepted {
      return Panicked(InvalidDistribution);
    }
    LastDraw(a, draws, indices, picked, result);
    assert ReadsDistinct(a, result, picked) && PositiveAt(w, picked);
    return Ok(result);
  }

  /**
   * The rounds of the narrowed loop. `accepted` is false when a rebuild of the
   * distribution is rejected, which happens exactly when the weights run out.
   */
  method NarrowedLoop<T>(a: seq<T>, w: seq<real>, draws: seq<nat>)
    returns (result: seq<T>, accepted: bool, indices: seq<nat>, ghost picked: seq<nat>)
    requires |w| == |a|
    requires NarrowedDraws(w, draws)
    ensures !accepted <==> WeightsRunOut(w, |draws|)
    ensures accepted ==> AfterDraws(a, draws, |draws|, indices, picked, result)
    ensures accepted ==> PositiveAt(w, picked)
  {
    indices := Range(|a|);
    var weights := w;
    result := [];
    picked := [];
    StartDraws(a, draws);
    StartNarrowed(w, draws);
    var k := 0;
    while k < |draws|
      invariant AfterDraws(a, draws, k, indices, picked, result)
      invariant Narrowed(w, draws, k, weights, indices, picked)
    {
      var i := draws[k];
      if !AcceptedWeights(weights) {
        RebuildRejected(w, draws, k, weights, indices, picked);
        return result, false, indices, picked;
      }
      NarrowedRound(a, w, draws, k, weights, indices, picked, result);
      result := result + [a[indices[i]]];
      picked := picked + [indices[i]];
      weights := SwapRemove(weights, i);
      indices := SwapRemove(indices, i);
      k := k + 1;
    }
    return result, true, indices, picked;
  }

  /** The oracle for `choice` with the narrowed loop. */
  predicate CorrectedDraws(draws: seq<nat>, size: nat, w: seq<real>, replace: bool)
  {
    if replace then SamplerDraws(draws, size, w) else |draws| == size && NarrowedDraws(w, draws)
  }

  /** Accepted weights have draws of any length that the sampler may return. */
  lemma SamplerDrawsExist(w: seq<real>, size: nat)
    requires AcceptedWeights(w)
    ensures exists draws :: SamplerDraws(draws, size, w)
  {
    AcceptedIffPositive(w);
    var j := PositiveIndex(w);
    var draws := seq(size, k requires 0 <= k < size => j);
    assert SamplerDraws(draws, size, w);
  }

  /** Draws of any length that meet the narrowed contract: the first positive slot each round. */
  function NarrowedWitness(w: seq<real>, m: nat): (d: seq<nat>)
    ensures |d| == m && NarrowedDraws(w, d)
    decreases m
  {
    if m == 0 then []
    else if !AcceptedWeights(w) then seq(m, k requires 0 <= k < m => 0)
    else
      AcceptedIffPositive(w);
      var j := PositiveIndex(w);
      var rest := NarrowedWitness(SwapRemove(w, j), m - 1);
      assert ([j] + rest)[0] == j && ([j] + rest)[1..] == rest;
      [j] + rest
  }

  /** Every call that passes the argument checks of `choice` has draws that meet the oracle of the as-written and of the corrected `choice`. */
  lemma DrawsExist(n: nat, size: nat, replace: bool, p: Option<seq<real>>)
    requires Admit(n, size, replace, p).Ok?
    ensures exists draws :: SamplerDraws(draws, size, Admit(n, size, replace, p).value)
    ensures exists draws :: CorrectedDraws(draws, size, Admit(n, size, replace, p).value, replace)
  {
    var w := Admit(n, size, replace, p).value;
    SamplerDrawsExist(w, size);
    if replace {
      var draws :| SamplerDraws(draws, size, w);
      assert CorrectedDraws(draws, size, w, replace);
    } else {
      assert CorrectedDraws(NarrowedWitness(w, size), size, w, replace);
    }
  }

  /** The draws of `choice` with the narrowed loop, once the weights `w` are admitted. */
  method DrawAdmittedRenormalised<T>(a: seq<T>, w: seq<real>, size: nat, replace: bool, draws: seq<nat>)
    returns (r: Outcome<seq<T>>)
    requires |w| == |a| && AcceptedWeights(w) && (replace || size <= |a|)
    requires CorrectedDraws(draws, size, w, replace)
    ensures replace ==> r == Ok(Gather(a, draws))
    ensures !replace ==> (r.Ok? <==> size <= CountPositive(w))
    ensures (forall j | 0 <= j < |w| :: w[j] > 0.0) ==> r.Ok?
    ensures r.Panicked? ==> r == Panicked(InvalidDistribution)
    ensures r.Ok? ==> |r.value| == size && forall x | x in r.value :: x in a
    ensures r.Ok? ==> exists pos :: InBounds(pos, |a|) && r.value == Gather(a, pos) && PositiveAt(w, pos)
    ensures r.Ok? && !replace ==> multiset(r.value) <= multiset(a)
    ensures r.Ok? && !replace ==> exists pos :: ReadsDistinct(a, r.value, pos)
    ensures r.Ok? && !replace ==> r == PickFrom(a, draws)
  {
    if replace {
      assert InBounds(draws, |a|) && PositiveAt(w, draws);
      var out := DrawWithReplacement(a, draws);
      assert out == Gather(a, draws);
      assert forall k | 0 <= k < |out| :: out[k] in a;
      return Ok(out);
    }
    if forall j | 0 <= j < |w| :: w[j] > 0.0 {
      AllPositiveCount(w);
    }
    RunOutIffFewer(w, size);
    r := DrawWithoutReplacementRenormalised(a, w, draws);
    if r.Ok? {
      ghost var pos :| ReadsDistinct(a, r.value, pos) && PositiveAt(w, pos);
      assert InBounds(pos, |a|) && r.value == Gather(a, pos);
      assert forall x | x in r.value :: x in multiset(a);
    }
  }

  /**
   * `choice` with the narrowed without-replacement loop. With replacement it
   * returns what `choice` returns. Without replacement it panics with
   * `InvalidDistribution` exactly when fewer than `size` weights are positive,
   * which never happens without `p`; otherwise it reads the elements in the
   * same order as the loop as written. Every element it returns has a
   * positive weight.
   */
  method ChoiceRenormalised<T>(a: seq<T>, size: nat, replace: bool, p: Option<seq<real>>, draws: seq<nat>)
    returns (r: Outcome<seq<T>>)
    requires Admit(|a|, size, replace, p).Ok? ==> CorrectedDraws(draws, size, Admit(|a|, size, replace, p).value, replace)
    ensures Admit(|a|, size, replace, p).Ok? && replace ==> r == Ok(Gather(a, draws))
    ensures Admit(|a|, size, replace, p).Ok? && !replace ==> (r.Ok? <==> size <= CountPositive(Admit(|a|, size, replace, p).value))
    ensures Admit(|a|, size, replace, p).Ok? && p.None? ==> r.Ok?
    ensures Admit(|a|, size, replace, p).Ok? && r.Panicked? ==> r.reason == InvalidDistribution
    ensures r.Ok? ==> |r.value| == size && forall x | x in r.value :: x in a
    ensures r.Ok? ==> && Admit(|a|, size, replace, p).Ok?
                      && exists pos :: InBounds(pos, |a|) && r.value == Gather(a, pos)
                                       && PositiveAt(Admit(|a|, size, replace, p).value, pos)
    ensures r.Ok? && !replace ==> multiset(r.value) <= multiset(a)
    ensures r.Ok? && !replace ==> exists pos :: ReadsDistinct(a, r.value, pos)
    ensures r.Panicked? ==> !r.reason.IndexOutOfBounds?
    ensures r.Ok? && !replace ==> r == PickFrom(a, draws)
    ensures Admit(|a|, size, replace, p).Panicked? ==> r == Panicked(Admit(|a|, size, replace, p).reason)
  {
    var admitted := Admit(|a|, size, replace, p);
    if admitted.Panicked? {
      return Panicked(admitted.reason);
    }
    if p.None? {
      assert admitted.value == UniformWeights(|a|);
      UniformWeightsAccepted(|a|);
    }
    r := DrawAdmittedRenormalised(a, admitted.value, size, replace, draws);
  }

  /**
   * The weights [1, 0, 0] and two draws without replacement, with the narrowed
   * loop: the rebuild before the second draw is over [0, 0], which
   * `WeightedIndex::new` rejects, so the call panics instead of returning an
   * element of weight zero.
   */
  method ZeroWeightCorrected(draws: seq<nat>) returns (r: Outcome<seq<int>>)
    requires CorrectedDraws(draws, 2, [1.0, 0.0, 0.0], false)
    ensures r == Panicked(InvalidDistribution)
  {
    ZeroWeightAdmitted();
    assert CountPositive([1.0, 0.0, 0.0]) == 1 by {
      assert [1.0, 0.0, 0.0][1..] == [0.0, 0.0] && [0.0, 0.0][1..] == [0.0] && [0.0][1..] == [];
    }
    r := ChoiceRenormalised([10, 20, 30], 2, false, Some([1.0, 0.0, 0.0]), draws);
  }

  // ---------------------------------------------------------------------------
  // The unit tests of random.rs, for every outcome of the sampler
  // ---------------------------------------------------------------------------

  /** test_choice_uniform: ten draws with replacement from five integers. */
  method TestChoiceUniform(draws: seq<nat>) returns (r: Outcome<seq<int>>)
    requires SamplerDraws(draws, 10, UniformWeights(5))
    ensures r.Ok? && |r.value| == 10
    ensures forall x | x in r.value :: x in [1, 2, 3, 4, 5]
  {
    UniformWeightsAccepted(5);
    r := Choice([1, 2, 3, 4, 5], 10, true, None, draws);
  }

  /** test_choice_probabilities: ten weighted draws with replacement from five integers. */
  method TestChoiceProbabilities(draws: seq<nat>) returns (r: Outcome<seq<int>>)
    requires SamplerDraws(draws, 10, [0.1, 0.2, 0.3, 0.2, 0.2])
    ensures r.Ok? && |r.value| == 10
    ensures forall x | x in r.value :: x in [1, 2, 3, 4, 5]
  {
    var p := [0.1, 0.2, 0.3, 0.2, 0.2];
    assert p[..4] == [0.1, 0.2, 0.3, 0.2];
    assert [0.1, 0.2, 0.3, 0.2][..3] == [0.1, 0.2, 0.3];
    assert [0.1, 0.2, 0.3][..2] == [0.1, 0.2];
    assert [0.1, 0.2][..1] == [0.1];
    assert [0.1][..0] == [];
    assert Stats.Sum([0.1]) == 0.1;
    assert Stats.Sum([0.1, 0.2]) == 0.3;
    assert Stats.Sum([0.1, 0.2, 0.3]) == 0.6;
    assert Stats.Sum([0.1, 0.2, 0.3, 0.2]) == 0.8;
    assert Stats.Sum(p) == 1.0;
    r := Choice([1, 2, 3, 4, 5], 10, true, Some(p), draws);
  }

  /**
   * The second call of test_choice_probabilities: 10000 weighted draws with
   * replacement from three colours, whose weights total less than one.
   */
  method TestChoiceWeightedColours(draws: seq<nat>) returns (r: Outcome<seq<string>>)
    requires SamplerDraws(draws, 10000, [0.7, 0.2, 0.05])
    ensures r.Ok? && |r.value| == 10000
    ensures forall k | 0 <= k < 10000 :: r.value[k] == ["red", "blue", "green"][draws[k]]
  {
    PositiveWeightsAccepted([0.7, 0.2, 0.05]);
    r := Choice(["red", "blue", "green"], 10000, true, Some([0.7, 0.2, 0.05]), draws);
  }

  /** test_choice_size_mismatch: ten of five without replacement panics before any draw. */
  method TestChoiceSizeMismatch(draws: seq<nat>) returns (r: Outcome<seq<int>>)
    ensures r == Panicked(SizeExceedsPopulation)
  {
    r := Choice([1, 2, 3, 4, 5], 10, false, None, draws);
  }

  /** test_choice_probabilities_length_mismatch: four weights for five elements panics before any draw. */
  method TestChoiceLengthMismatch(draws: seq<nat>) returns (r: Outcome<seq<int>>)
    ensures r == Panicked(WeightsLengthMismatch)
  {
    r := Choice([1, 2, 3, 4, 5], 10, true, Some([0.1, 0.2, 0.3, 0.2]), draws);
  }
}
