/**
 * The descriptive statistics of numrust's lib.rs: `mean`, `variance` and
 * `std_dev` over a slice of f64.
 *
 * The model computes over exact reals, so rounding, overflow and infinities
 * are not represented. What is represented is the one place where the f64
 * code relies on IEEE semantics: a division 0.0 / 0.0 yields NaN. That is how
 * `mean` of an empty slice and `variance` of a one-element slice become NaN
 * without any explicit branch.
 */
module Stats {

  /** An f64 result: a number, or the NaN that 0.0 / 0.0 produces. */
  datatype Num = Val(v: real) | NaN

  /** `nums.iter().sum()`: a left fold of `+` starting at 0.0. */
  function Sum(s: seq<real>): real
  {
    if |s| == 0 then 0.0 else Sum(s[..|s| - 1]) + s[|s| - 1]
  }

  /** `x.powi(2)`. */
  function Square(x: real): real
  {
    x * x
  }

  /** The sum of squares, used only by the one-pass reference formula for the variance. */
  function SumSquares(s: seq<real>): real
  {
    if |s| == 0 then 0.0 else SumSquares(s[..|s| - 1]) + Square(s[|s| - 1])
  }

  /** `nums.iter().map(|x| (x - m).powi(2)).sum()`: squared deviations from `m`, folded left. */
  function SumSqDev(s: seq<real>, m: real): real
  {
    if |s| == 0 then 0.0 else SumSqDev(s[..|s| - 1], m) + Square(s[|s| - 1] - m)
  }

  /**
   * f64 division as these formulas reach it. A zero divisor only ever meets a
   * zero dividend (the callers prove it), and IEEE 754 makes 0.0 / 0.0 NaN.
   */
  function Div(x: real, y: real): (r: Num)
    requires y == 0.0 ==> x == 0.0
    ensures r.NaN? <==> y == 0.0
    ensures r.Val? ==> r.v * y == x
  {
    if y == 0.0 then NaN else Val(x / y)
  }

  /** `mean`: the sum divided by the length; NaN exactly for the empty slice. */
  function Mean(s: seq<real>): (r: Num)
    ensures r.NaN? <==> |s| == 0
    ensures r.Val? ==> r.v * (|s| as real) == Sum(s)
  {
    Div(Sum(s), |s| as real)
  }

  /**
   * `variance`: NaN for the empty slice by an explicit branch, otherwise the
   * squared deviations from the mean divided by n - 1, which is 0.0 / 0.0 for
   * a single element.
   */
  function Variance(s: seq<real>): (r: Num)
    ensures r.NaN? <==> |s| <= 1
    ensures r.Val? ==> r.v >= 0.0
  {
    if |s| == 0 then NaN
    else
      var m := Mean(s).v;
      assert |s| == 1 ==> SumSqDev(s, m) == 0.0 by {
        if |s| == 1 {
          SingletonHasNoDeviation(s);
        }
      }
      SumSqDevNonNegative(s, m);
      Div(SumSqDev(s, m), (|s| - 1) as real)
  }

  /** `sqrt` behaves as `f64::sqrt` on the non-negative reals: it returns the non-negative root. */
  ghost predicate IsSqrt(sqrt: real -> real)
  {
    forall x: real :: x >= 0.0 ==> sqrt(x) >= 0.0 && sqrt(x) * sqrt(x) == x
  }

  /**
   * `std_dev`: NaN for the empty slice by an explicit branch, otherwise the
   * square root of `variance`; `f64::sqrt` is the parameter `sqrt`, and the
   * square root of NaN is NaN.
   */
  function StdDev(s: seq<real>, sqrt: real -> real): (r: Num)
    ensures r.NaN? <==> |s| <= 1
    ensures r.NaN? <==> Variance(s).NaN?
    ensures IsSqrt(sqrt) && r.Val? ==> r.v >= 0.0 && r.v * r.v == Variance(s).v
  {
    var variance := Variance(s);
    if |s| == 0 then NaN
    else
      match variance
      case NaN => NaN
      case Val(v) => Val(sqrt(v))
  }

  // ---------------------------------------------------------------------------
  // Facts about the folds
  // ---------------------------------------------------------------------------

  lemma {:induction false} SumSqDevNonNegative(s: seq<real>, m: real)
    ensures SumSqDev(s, m) >= 0.0
  {
    if |s| > 0 {
      var d := s[|s| - 1] - m;
      SumSqDevNonNegative(s[..|s| - 1], m);
      SquarePositive(d);
    }
  }

  /** A square is never negative, and it is positive unless its root is 0. */
  lemma SquarePositive(d: real)
    ensures Square(d) >= 0.0
    ensures d != 0.0 ==> Square(d) > 0.0
  {
    if d != 0.0 {
      assert (d * d) / d == d;
    }
  }

  /** A single value does not deviate from its own mean, so `variance` divides 0.0 by 0.0. */
  lemma SingletonHasNoDeviation(s: seq<real>)
    requires |s| == 1
    ensures Mean(s) == Val(s[0])
    ensures SumSqDev(s, Mean(s).v) == 0.0
  {
    assert s[..0] == [];
    assert Sum(s) == s[0];
    assert SumSqDev(s, s[0]) == 0.0;
  }

  /** Values that all sit at the centre have no squared deviation. */
  lemma {:induction false} SumSqDevAtCentre(s: seq<real>, m: real)
    requires forall i | 0 <= i < |s| :: s[i] == m
    ensures SumSqDev(s, m) == 0.0
  {
    if |s| > 0 {
      var init := s[..|s| - 1];
      assert forall i | 0 <= i < |init| :: init[i] == s[i];
      SumSqDevAtCentre(init, m);
      assert s[|s| - 1] - m == 0.0;
    }
  }

  /** One value away from the centre makes the squared deviations strictly positive. */
  lemma {:induction false} SumSqDevOffCentre(s: seq<real>, m: real, i: nat)
    requires i < |s| && s[i] != m
    ensures SumSqDev(s, m) > 0.0
  {
    var init := s[..|s| - 1];
    var d := s[|s| - 1] - m;
    assert SumSqDev(s, m) == SumSqDev(init, m) + Square(d);
    SquarePositive(d);
    SumSqDevNonNegative(init, m);
    if i < |s| - 1 {
      assert init[i] == s[i];
      SumSqDevOffCentre(init, m, i);
    } else {
      assert d != 0.0;
    }
  }

  /** A sum of squared deviations vanishes exactly when every value equals the centre. */
  lemma SumSqDevZero(s: seq<real>, m: real)
    ensures SumSqDev(s, m) == 0.0 <==> forall i | 0 <= i < |s| :: s[i] == m
  {
    if forall i | 0 <= i < |s| :: s[i] == m {
      SumSqDevAtCentre(s, m);
    } else {
      var i :| 0 <= i < |s| && s[i] != m;
      SumSqDevOffCentre(s, m, i);
    }
  }

  /** Every value lies in [lo, hi], so the sum lies in [n * lo, n * hi]. */
  lemma {:induction false} SumBounds(s: seq<real>, lo: real, hi: real)
    requires forall i | 0 <= i < |s| :: lo <= s[i] <= hi
    ensures (|s| as real) * lo <= Sum(s) <= (|s| as real) * hi
  {
    if |s| > 0 {
      var init := s[..|s| - 1];
      assert forall i | 0 <= i < |init| :: init[i] == s[i];
      SumBounds(init, lo, hi);
      assert (|s| as real) * lo == (|init| as real) * lo + lo;
      assert (|s| as real) * hi == (|init| as real) * hi + hi;
    }
  }

  /** The sum of n copies of c is n * c. */
  lemma {:induction false} SumConstant(s: seq<real>, c: real)
    requires forall i | 0 <= i < |s| :: s[i] == c
    ensures Sum(s) == (|s| as real) * c
  {
    SumBounds(s, c, c);
  }

  /** q - s^2 / n: the squared deviations from their mean of n values with sum s and sum of squares q. */
  function CentredSquares(q: real, sum: real, n: real): real
    requires n != 0.0
  {
    q - sum * sum / n
  }

  /** q - 2ms + nm^2: the squared deviations from m of n values with sum s and sum of squares q. */
  function Expansion(q: real, sum: real, n: real, m: real): real
  {
    q - 2.0 * m * sum + n * m * m
  }

  /** Expanding the square: the deviations from any centre m, in terms of the plain sums. */
  lemma {:induction false} SumSqDevExpand(s: seq<real>, m: real)
    ensures SumSqDev(s, m) == Expansion(SumSquares(s), Sum(s), |s| as real, m)
  {
    if |s| > 0 {
      var init := s[..|s| - 1];
      SumSqDevExpand(init, m);
      ExpandStep(SumSquares(init), Sum(init), |init| as real, s[|s| - 1], m);
    }
  }

  /** One step of `SumSqDevExpand`, over plain reals: appending x keeps the expansion. */
  lemma ExpandStep(q: real, sum: real, n: real, x: real, m: real)
    ensures Expansion(q, sum, n, m) + Square(x - m) == Expansion(q + Square(x), sum + x, n + 1.0, m)
  {
    assert Square(x - m) == Square(x) - 2.0 * m * x + m * m;
  }

  // ---------------------------------------------------------------------------
  // Properties of mean, variance and std_dev
  // ---------------------------------------------------------------------------

  /** The mean of a non-empty slice lies between any lower and upper bound of its values. */
  lemma MeanWithinBounds(s: seq<real>, lo: real, hi: real)
    requires |s| > 0
    requires forall i | 0 <= i < |s| :: lo <= s[i] <= hi
    ensures Mean(s).Val? && lo <= Mean(s).v <= hi
  {
    SumBounds(s, lo, hi);
    ScaleBounds(Sum(s), |s| as real, Mean(s).v, lo, hi);
  }

  /** Over plain reals: if m * n == sum and n * lo <= sum <= n * hi with n > 0, then lo <= m <= hi. */
  lemma ScaleBounds(sum: real, n: real, m: real, lo: real, hi: real)
    requires n > 0.0 && m * n == sum
    requires n * lo <= sum <= n * hi
    ensures lo <= m <= hi
  {
    assert (m - lo) * n == sum - n * lo;
    assert (hi - m) * n == n * hi - sum;
  }

  /** The mean of n >= 1 copies of c is c; in particular `mean([42.0]) == 42.0`. */
  lemma MeanOfConstant(s: seq<real>, c: real)
    requires |s| > 0
    requires forall i | 0 <= i < |s| :: s[i] == c
    ensures Mean(s) == Val(c)
  {
    MeanWithinBounds(s, c, c);
  }

  /**
   * The textbook one-pass formula (sum of squares - sum^2 / n) / (n - 1), with
   * the same NaN cases: an explicit one for n = 0, and 0.0 / 0.0 for n = 1.
   */
  function OnePassVariance(s: seq<real>): Num
  {
    if |s| == 0 then NaN
    else
      var n := |s| as real;
      assert |s| == 1 ==> CentredSquares(SumSquares(s), Sum(s), n) == 0.0 by {
        if |s| == 1 {
          assert s[..0] == [];
          assert Sum(s) == s[0] && SumSquares(s) == Square(s[0]);
        }
      }
      Div(CentredSquares(SumSquares(s), Sum(s), n), n - 1.0)
  }

  /** The two-pass `variance` agrees with the one-pass formula on every slice, NaN cases included. */
  lemma VarianceOnePass(s: seq<real>)
    ensures Variance(s) == OnePassVariance(s)
  {
    if |s| > 0 {
      DeviationsFromMean(s);
    }
  }

  /** Around the mean, the squared deviations are the sum of squares less sum^2 / n. */
  lemma DeviationsFromMean(s: seq<real>)
    requires |s| > 0
    ensures SumSqDev(s, Mean(s).v) == CentredSquares(SumSquares(s), Sum(s), |s| as real)
  {
    var m := Mean(s).v;
    var n := |s| as real;
    assert m * n == Sum(s);
    SumSqDevExpand(s, m);
    CompleteTheSquare(SumSquares(s), Sum(s), n, m);
  }

  /** The algebra behind `VarianceOnePass`, over plain reals: q - 2ms + nm^2 = q - s^2/n when m = s/n. */
  lemma CompleteTheSquare(q: real, sum: real, n: real, m: real)
    requires n > 0.0
    requires m * n == sum
    ensures Expansion(q, sum, n, m) == CentredSquares(q, sum, n)
  {
    assert n * m * m == m * sum;
    assert m == sum / n;
    assert m * sum == sum * sum / n;
  }

  /** A slice of two or more values has variance 0.0 exactly when all its values are equal. */
  lemma VarianceZeroIffConstant(s: seq<real>)
    requires |s| >= 2
    ensures Variance(s) == Val(0.0) <==> forall i | 0 <= i < |s| :: s[i] == s[0]
  {
    var m := Mean(s).v;
    var n1 := (|s| - 1) as real;
    assert Variance(s) == Val(SumSqDev(s, m) / n1);
    assert Variance(s) == Val(0.0) <==> SumSqDev(s, m) == 0.0;
    SumSqDevZero(s, m);
    if forall i | 0 <= i < |s| :: s[i] == s[0] {
      MeanOfConstant(s, s[0]);
    }
  }

  /** Square roots are unique on the non-negative reals. */
  lemma NonNegativeRootUnique(x: real, y: real)
    requires x >= 0.0 && y >= 0.0
    requires x * x == y * y
    ensures x == y
  {
    assert (x - y) * (x + y) == x * x - y * y;
    if x + y != 0.0 {
      assert x - y == ((x - y) * (x + y)) / (x + y);
    }
  }

  /** `std_dev` does not depend on which correct square root is plugged in. */
  lemma StdDevUnique(s: seq<real>, sqrt1: real -> real, sqrt2: real -> real)
    requires IsSqrt(sqrt1) && IsSqrt(sqrt2)
    ensures StdDev(s, sqrt1) == StdDev(s, sqrt2)
  {
    var r1 := StdDev(s, sqrt1);
    var r2 := StdDev(s, sqrt2);
    if r1.Val? {
      NonNegativeRootUnique(r1.v, r2.v);
    }
  }

  // ---------------------------------------------------------------------------
  // The documented examples and the unit tests of lib.rs
  // ---------------------------------------------------------------------------

  /** The prefixes the left folds peel off the example slices. */
  lemma Prefixes()
    ensures [1.0][..0] == []
    ensures [1.0, 2.0][..1] == [1.0]
    ensures [1.0, 2.0, 3.0][..2] == [1.0, 2.0]
    ensures [1.0, 2.0, 3.0, 4.0][..3] == [1.0, 2.0, 3.0]
    ensures [1.0, 2.0, 3.0, 4.0, 5.0][..4] == [1.0, 2.0, 3.0, 4.0]
  {
  }

  lemma MeanExamples()
    ensures Mean([]) == NaN
    ensures Mean([42.0]) == Val(42.0)
    ensures Mean([1.0, 2.0, 3.0]) == Val(2.0)
    ensures Mean([1.0, 2.0, 3.0, 4.0, 5.0]) == Val(3.0)
  {
    MeanWithinBounds([42.0], 42.0, 42.0);
    Prefixes();
    assert Sum([1.0]) == 1.0;
    assert Sum([1.0, 2.0]) == 3.0;
    assert Sum([1.0, 2.0, 3.0]) == 6.0;
    assert Sum([1.0, 2.0, 3.0, 4.0]) == 10.0;
    assert Sum([1.0, 2.0, 3.0, 4.0, 5.0]) == 15.0;
  }

  lemma VarianceExamples()
    ensures Variance([]) == NaN
    ensures Variance([42.0]) == NaN
    ensures Variance([1.0, 2.0, 3.0, 4.0, 5.0]) == Val(2.5)
    ensures Variance([1.0, 2.0, 3.0]) == Val(1.0)
  {
    MeanExamples();
    Prefixes();
    assert SumSqDev([1.0], 2.0) == 1.0;
    assert SumSqDev([1.0, 2.0], 2.0) == 1.0;
    assert SumSqDev([1.0, 2.0, 3.0], 2.0) == 2.0;
    assert SumSqDev([1.0], 3.0) == 4.0;
    assert SumSqDev([1.0, 2.0], 3.0) == 5.0;
    assert SumSqDev([1.0, 2.0, 3.0], 3.0) == 5.0;
    assert SumSqDev([1.0, 2.0, 3.0, 4.0], 3.0) == 6.0;
    assert SumSqDev([1.0, 2.0, 3.0, 4.0, 5.0], 3.0) == 10.0;
  }

  lemma StdDevExamples(sqrt: real -> real)
    requires IsSqrt(sqrt)
    ensures StdDev([], sqrt) == NaN
    ensures StdDev([42.0], sqrt) == NaN
    ensures StdDev([1.0, 2.0, 3.0], sqrt) == Val(1.0)
  {
    VarianceExamples();
    var r := StdDev([1.0, 2.0, 3.0], sqrt);
    NonNegativeRootUnique(r.v, 1.0);
  }
}
