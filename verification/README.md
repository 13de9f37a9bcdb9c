# numrust in Dafny: `choice`, `mean`, `variance`, `std_dev`

This project models the two pieces of logic in the numrust crate.

**`choice`** (src/random.rs) draws `size` elements from a slice `a`, with or without replacement, optionally weighted by `p`. It checks its arguments in a fixed order: oversize without replacement, then a `p` of the wrong length, then building the `WeightedIndex` distribution. Then it runs one of two loops:

- With replacement, it reads `a[draw]` once per draw.
- Without replacement, it keeps `indices`, the positions not yet picked. It reads `a[indices[i]]` and drops slot `i` with `swap_remove`.

The random number generator is an oracle. The model takes a sequence `draws` of the indices the sampler returns (`Sampling.SamplerDraws`). Each draw is an index of the weight vector whose weight is positive, since `WeightedIndex` never returns an outcome of weight zero. `WeightedIndex::new` is represented by the conditions under which it accepts a weight vector: non-empty, no negative weight, positive total. A panic is an `Outcome` value that names its reason.

The without-replacement loop has an independent reference, `Sampling.PickFrom`, stated on the elements themselves: draw d takes the element in slot d of what remains, and that slot is swap-removed before the next draw. The loop is proved equal to it on every input.

The distribution is built once (src/random.rs:46-49) and is not rebuilt after a pick. The loop as written therefore both overruns `indices` and returns elements of weight zero (see "## Findings"). The corrected loop narrows the distribution after every pick: the picked weight is swap-removed along with its index, and the distribution is rebuilt over the remaining weights before each draw. Its oracle is `Sampling.NarrowedDraws`: while the rebuilt weights are accepted, each draw is a slot of positive weight among the weights still remaining. When a rebuild is rejected, the call panics with `InvalidDistribution`, and no later draw is made. Without replacement this happens exactly when fewer than `size` weights are positive.

The documentation lists two panics. `Sampling.Admit` shows a third: an empty `a` panics even when `size` is 0. With no `p`, the uniform weight vector is then empty, and `WeightedIndex::new(..).unwrap()` fails.

**`mean`, `variance`, `std_dev`** (src/lib.rs) are modelled over `real`, with the result type `Num = Val(real) | NaN`. `Div` yields `NaN` exactly for 0/0, the only undefined division these formulas perform:

- the mean of an empty slice;
- the `n - 1` denominator of a one-element variance.

`f64::sqrt` is a parameter `sqrt: real -> real`. Facts about `std_dev` hold for any `sqrt` that meets the `IsSqrt` predicate: non-negative, and squaring back to its argument on the non-negative reals.

Files:

- `stats.dfy` (module `Stats`): the statistics, their reference definitions and the unit-test values.
- `vecs.dfy` (module `Vecs`): `swap_remove`, `0..n` and gathering by positions, over immutable sequences.
- `sampling.dfy` (module `Sampling`): `choice`, its loops, the documented panics and the tests.

Where the crate's documentation and its code differ, the model follows the code. The doc comment of `std_dev` (src/lib.rs:34) says NaN only for an empty slice. The code (src/lib.rs:47-54) takes the square root of the variance, which is also NaN for a single element.

## Model

| member | source | states |
|---|---|---|
| Stats.Div | src/lib.rs:22 | f64 division where the only undefined case is 0/0: NaN exactly when the divisor is 0, and otherwise a quotient that multiplies back to the dividend |
| Stats.Mean | src/lib.rs:20-24 | NaN exactly for an empty slice; otherwise the mean times the length is the sum |
| Stats.MeanWithinBounds | src/lib.rs:20-24 | the mean of a non-empty slice lies between any lower and any upper bound of its values |
| Stats.MeanOfConstant | src/lib.rs:20-24 | the mean of n >= 1 copies of c is c |
| Stats.MeanExamples | src/lib.rs:89-105 | mean of [] is NaN, of [42] is 42, of [1,2,3] is 2, of [1,2,3,4,5] is 3 |
| Stats.Variance | src/lib.rs:77-84 | NaN exactly for slices of length 0 (explicit branch) or 1 (0/0 under the n-1 denominator); otherwise non-negative |
| Stats.SumSqDevZero | src/lib.rs:82 | the sum of squared deviations from m is 0 exactly when every value equals m |
| Stats.VarianceOnePass | src/lib.rs:77-84 | the two-pass variance equals the one-pass formula (sum of squares - sum^2/n)/(n-1) on every slice, NaN cases included |
| Stats.VarianceZeroIffConstant | src/lib.rs:77-84 | a slice of two or more values has variance 0 exactly when all its values are equal |
| Stats.VarianceExamples | src/lib.rs:107-123 | variance of [] and of [42] is NaN, of [1,2,3,4,5] is 2.5, of [1,2,3] is 1 |
| Stats.StdDev | src/lib.rs:47-54 | NaN exactly when the variance is NaN (length 0 or 1); otherwise, for a correct sqrt, a non-negative value whose square is the variance |
| Stats.StdDevUnique | src/lib.rs:47-54 | std_dev is the same for every correct square-root function |
| Stats.StdDevExamples | src/lib.rs:125-141 | std_dev of [] and of [42] is NaN, of [1,2,3] is 1 |
| Vecs.SwapRemove | src/random.rs:61 | swap_remove shortens the vector by one and removes exactly one occurrence of the element at i |
| Vecs.SwapRemoveSlots | src/random.rs:61 | after swap_remove(i), slot i holds the former last element and every other slot is unchanged |
| Vecs.SwapRemoveDistinct | src/random.rs:61 | on a duplicate-free vector, swap_remove(i) keeps it duplicate-free and removes exactly the value at i |
| Vecs.GatherSwapRemove | src/random.rs:59-61 | reading through swap-removed positions equals swap-removing the elements read |
| Vecs.GatherRange | src/random.rs:56 | 0..n is duplicate-free, holds exactly the positions below n, and reading a through it gives a back |
| Sampling.PositiveWeightsAccepted | src/random.rs:47 | WeightedIndex::new accepts any non-empty vector of positive weights |
| Sampling.UniformWeightsAccepted | src/random.rs:48 | the uniform weights for a non-empty population sum to 1 and are accepted |
| Sampling.Admit | src/random.rs:35-49 | the order of the checks before any draw: oversize without replacement, then a p of the wrong length, then rejected weights; without p the distribution is built exactly when a is non-empty |
| Sampling.StartUnpicked | src/random.rs:56 | before the first draw, indices holds exactly the unpicked positions, none twice |
| Sampling.PickKeepsUnpicked | src/random.rs:58-61 | reading a[indices[i]] and swap-removing slot i keeps indices duplicate-free and equal to the unpicked positions, and keeps the picks distinct |
| Sampling.PickFrom | src/random.rs:56-62 | without replacement, stated on elements: succeeds exactly when draw k is below the \|a\| - k slots left; one element per draw; a failure is an index panic |
| Sampling.PickFromWithin | src/random.rs:56-62 | every element picked without replacement occurs in a at least as often as it is picked |
| Sampling.NextDraw | src/random.rs:58-61 | a round whose draw fits keeps the loop state in step with PickFrom on the elements indices still reaches |
| Sampling.DrawWithReplacement | src/random.rs:51-54 | the k-th result is a at the k-th draw, one result per draw |
| Sampling.DrawWithoutReplacement | src/random.rs:56-63 | returns exactly PickFrom(a, draws): result k is the element in slot draws[k] of what remains after the earlier swap_removes; it succeeds exactly when draw k is below the \|a\| - k remaining slots, reading pairwise distinct positions; otherwise it panics at the first draw that does not fit |
| Sampling.Choice | src/random.rs:34-66 | panics before any draw as Admit says; with replacement returns a at the draws; without replacement returns PickFrom(a, draws), so it succeeds exactly when the draws fit; a success has size elements, all from a, and without replacement at distinct positions; an index panic happens only without replacement, at the first overrun |
| Sampling.OverrunReachable | src/random.rs:46-59 | for all-positive weights, as the uniform ones, some draws the never-narrowed distribution allows make the without-replacement loop overrun exactly when size >= 2 |
| Sampling.MainDemo | src/main.rs:11 | the call `random::choice(&colors, 2, false, None)` written there (two of three colours, without replacement), with draws 0 then 2, panics with index 2 on a length-2 indices |
| Sampling.ZeroWeightAdmitted | src/random.rs:35-47 | the weights [1, 0, 0] for three elements and size 2 pass every check and build the distribution |
| Sampling.OnlyIndexZero | src/random.rs:58 | under the weights [1, 0, 0] both draws are necessarily index 0 |
| Sampling.FirstThenLast | src/random.rs:58-61 | two draws of slot 0 without replacement read the first element and then the last |
| Sampling.ZeroWeightDemo | src/random.rs:46-61 | choice([10, 20, 30], 2, false, [1, 0, 0]) returns [10, 30] whatever the sampler does: its second element has weight zero |
| Sampling.NarrowedDrawsFit | src/random.rs:58-61 | draws of the narrowed distribution fit the shrinking indices whenever the weights do not run out |
| Sampling.PositiveEntryAccepted | src/random.rs:47 | non-negative weights with at least one positive entry are accepted |
| Sampling.AcceptedIffPositive | src/random.rs:47 | WeightedIndex::new accepts a weight vector exactly when no weight is negative and at least one is positive |
| Sampling.CountSwapRemove | src/random.rs:61 | swap_remove(i) on the weights loses a positive weight exactly when the weight at i is positive |
| Sampling.RunOutIffFewer | src/random.rs:47 | accepted weights run out under n draws exactly when fewer than n of them are positive |
| Sampling.WeightsFollowSwapRemove | src/random.rs:61 | swap-removing the same slot of weights and indices keeps every weight with its element |
| Sampling.NarrowedLoop | src/random.rs:56-63 | the narrowed rounds stop at a rejected rebuild exactly when the weights run out (a negative weight, or fewer positive weights than draws); otherwise they end in the PickFrom state with every picked position of positive weight |
| Sampling.DrawWithoutReplacementRenormalised | src/random.rs:46-63 | with the distribution narrowed after every pick: panics with InvalidDistribution exactly when the weights run out; otherwise returns PickFrom(a, draws), one element per draw at distinct positions of positive weight; all-positive weights with no more draws than weights never fail |
| Sampling.DrawsExist | src/random.rs:34-58 | every call that passes the argument checks of choice has draws meeting the sampler contract of the loop as written and of the narrowed loop |
| Sampling.DrawAdmittedRenormalised | src/random.rs:50-63 | once the weights are admitted: with replacement, a at the draws; without replacement, panics with InvalidDistribution exactly when fewer than size weights are positive, and otherwise returns PickFrom(a, draws); every element returned has a positive weight |
| Sampling.ChoiceRenormalised | src/random.rs:34-66 | choice with the narrowed loop: the same checks and the same with-replacement result; without replacement, an admitted call panics with InvalidDistribution exactly when fewer than size weights are positive, which never happens without p; it never panics on an index, reads the elements in PickFrom's order, and returns only elements of positive weight |
| Sampling.ZeroWeightCorrected | src/random.rs:46-61 | with the narrowed loop, choice([10, 20, 30], 2, false, [1, 0, 0]) panics with InvalidDistribution for every sampler result, instead of returning an element of weight zero |
| Sampling.TestChoiceUniform | src/random.rs:292-298 | ten uniform draws with replacement from [1..5] give ten elements of [1..5] |
| Sampling.TestChoiceProbabilities | src/random.rs:300-306 | ten weighted draws with replacement from [1..5] give ten elements of [1..5] |
| Sampling.TestChoiceWeightedColours | src/random.rs:308-309 | 10000 weighted draws with replacement from three colours give 10000 colours, the k-th at the k-th draw |
| Sampling.TestChoiceSizeMismatch | src/random.rs:325-332 | ten of five without replacement panics with the size message |
| Sampling.TestChoiceLengthMismatch | src/random.rs:334-340 | four weights for five elements panics with the length message |

## Left out

- `binomial`, `normal` and `randint` (src/random.rs:107-189) are thin wrappers over external samplers. Their tests are statistical.
- The internals of `thread_rng` and `WeightedIndex` are left out. Draws are an oracle, and construction is reduced to its acceptance conditions.
- The sampler's distribution is left out. Only its support is modelled: each draw is an index of positive weight, as `Sampling.SamplerDraws` states.
- IEEE-754 rounding, overflow, infinities and NaN inputs are not modelled. Values are `real`, and NaN appears only where the code divides 0 by 0.
- Sampling.TestChoiceProbabilities: the frequency claim of the second half of the test (reds > blues > greens, src/random.rs:310-322) is probabilistic and not modelled. Only the call itself is modelled, as Sampling.TestChoiceWeightedColours.
- src/main.rs counts and prints the colours it gets. Only the `choice` call is modelled. As written, src/main.rs does not compile: src/lib.rs:1 declares only `pub mod random;`, so `use numrust::*` does not bring `choice` into scope. Sampling.MainDemo models the call `random::choice(&colors, 2, false, None)` it evidently means, not a run of the program.
- Sampling.DrawWithoutReplacement: the inner `if !replace` guard (src/random.rs:60) is always true in that branch, so the swap_remove is modelled as unconditional.
- Stats.StdDev: `f64::sqrt` is a parameter. Its results are stated only for a `sqrt` meeting `IsSqrt`.

## Findings

| source | as written | input that shows it | evidently intended | confidence | as-written member | corrected member |
|---|---|---|---|---|---|---|
| src/random.rs:46-62 | without replacement, the distribution over all \|a\| outcomes is built once and never narrowed, while `indices` loses one slot per draw, so draw k may be >= \|a\| - k and `indices[i]` panics | `choice(&["red","blue","green"], 2, false, None)` with the sampler returning 0, then 2: after one swap_remove, `indices` has length 2 and index 2 is out of bounds (the call `random::choice(&colors, 2, false, None)` that src/main.rs:11 writes) | sample only among the remaining positions: remove the picked weight along with its index and rebuild the distribution each round | not executed | Sampling.OverrunReachable | Sampling.DrawWithoutReplacementRenormalised |
| src/random.rs:46-61 | without replacement, the weight of a picked element is not removed, and `swap_remove` moves the last index into the picked slot; a later draw of that slot reads an element whose weight is zero | `choice(&[10, 20, 30], 2, false, Some(&[1.0, 0.0, 0.0]))`: the sampler can only return 0, twice; the second draw reads `indices[0] == 2`, so the result is [10, 30] | never return an element whose weight is zero: narrow the distribution with the picked weight removed, which panics with InvalidDistribution when fewer than `size` weights are positive (here, on the second draw, as Sampling.ZeroWeightCorrected states) | not executed | Sampling.ZeroWeightDemo | Sampling.ChoiceRenormalised |
