/**
  The MACD recurrence of
  src/data/technicalindicator/directionalmovement/MovingAverageConvergenceDivergence.js,
  stated as functions of the closing prices and the parameter vector, with the
  properties the indicator is meant to have. JavaScript doubles are modelled
  as `real`, so every step is exact rational arithmetic.
 */
module Macd {

  /** The triple `{ diff, dea, macd }` written onto one record. */
  datatype MacdValue = MacdValue(diff: real, dea: real, macd: real)

  /**
    The parameter vector `[short, long, signal]` can be used: it has the three
    entries the recurrence reads, and none makes a denominator `p + 1` zero.
   */
  predicate ValidParams(p: seq<real>) {
    |p| >= 3 && p[0] != -1.0 && p[1] != -1.0 && p[2] != -1.0
  }

  /**
    One step of an exponential moving average with period `n`: the new value
    `x` weighted by 2 and the previous average by `n - 1`, over `n + 1`.
   */
  function EmaStep(x: real, prev: real, n: real): real
    requires n != -1.0
  {
    (2.0 * x + (n - 1.0) * prev) / (n + 1.0)
  }

  /** The step with its products written the other way round, as the DEA update spells it. */
  lemma EmaStepCommuted(x: real, prev: real, n: real)
    requires n != -1.0
    ensures (x * 2.0 + prev * (n - 1.0)) / (n + 1.0) == EmaStep(x, prev, n)
  {
    assert x * 2.0 + prev * (n - 1.0) == 2.0 * x + (n - 1.0) * prev;
  }

  /** Exponential moving average with period `n` of `xs` at index `i`, seeded with the first value. */
  function Ema(xs: seq<real>, n: real, i: nat): real
    requires i < |xs| && n != -1.0
    decreases i
  {
    if i == 0 then xs[0] else EmaStep(xs[i], Ema(xs, n, i - 1), n)
  }

  /** DIFF: the short-period EMA minus the long-period EMA. */
  function Diff(closes: seq<real>, p: seq<real>, i: nat): real
    requires i < |closes| && ValidParams(p)
  {
    Ema(closes, p[0], i) - Ema(closes, p[1], i)
  }

  /** DEA: the same recurrence applied to DIFF with the signal period, seeded at 0 before index 0. */
  function Dea(closes: seq<real>, p: seq<real>, i: nat): real
    requires i < |closes| && ValidParams(p)
    decreases i
  {
    EmaStep(Diff(closes, p, i), if i == 0 then 0.0 else Dea(closes, p, i - 1), p[2])
  }

  /** The triple written onto record `i`; the histogram is twice DIFF minus DEA. */
  function MacdAt(closes: seq<real>, p: seq<real>, i: nat): MacdValue
    requires i < |closes| && ValidParams(p)
  {
    var diff := Diff(closes, p, i);
    var dea := Dea(closes, p, i);
    MacdValue(diff, dea, (diff - dea) * 2.0)
  }

  /** The first record always gets the zero triple: both averages start at the first close. */
  lemma MacdAtFirst(closes: seq<real>, p: seq<real>)
    requires |closes| > 0 && ValidParams(p)
    ensures MacdAt(closes, p, 0) == MacdValue(0.0, 0.0, 0.0)
  {
    EmaStepFixedPoint(0.0, p[2]);
  }

  // ---------------------------------------------------------------- step weight

  /** The weight `2 / (n + 1)` that one step gives the new value. */
  function Weight(n: real): real
    requires n != -1.0
  {
    2.0 / (n + 1.0)
  }

  /** `EmaStep` moves the previous average towards `x` by the weight `2 / (n + 1)`. */
  lemma EmaStepWeighted(x: real, prev: real, n: real)
    requires n != -1.0
    ensures EmaStep(x, prev, n) == prev + Weight(n) * (x - prev)
  {
    var d := n + 1.0;
    var w := Weight(n);
    assert w * d == 2.0;
    assert (prev + w * (x - prev)) * d == 2.0 * x + (n - 1.0) * prev;
  }

  // ------------------------------------------------------------ constant prices

  /** A step that sees the same value as the previous average keeps it. */
  lemma EmaStepFixedPoint(c: real, n: real)
    requires n != -1.0
    ensures EmaStep(c, c, n) == c
  {
    var d := n + 1.0;
    var num := 2.0 * c + (n - 1.0) * c;
    assert num == d * c;
    assert EmaStep(c, c, n) == num / d;
    assert (d * c) / d == c;
  }

  /** The average of a constant series is that constant. */
  lemma {:induction false} EmaOfConstant(xs: seq<real>, n: real, c: real, i: nat)
    requires i < |xs| && n != -1.0
    requires forall j :: 0 <= j < |xs| ==> xs[j] == c
    ensures Ema(xs, n, i) == c
    decreases i
  {
    if i > 0 {
      EmaOfConstant(xs, n, c, i - 1);
      EmaStepFixedPoint(c, n);
    }
  }

  /** On a constant series, DIFF, DEA and the histogram are zero at every index. */
  lemma {:induction false} MacdOfConstant(closes: seq<real>, p: seq<real>, c: real, i: nat)
    requires i < |closes| && ValidParams(p)
    requires forall j :: 0 <= j < |closes| ==> closes[j] == c
    ensures Ema(closes, p[0], i) == c && Ema(closes, p[1], i) == c
    ensures MacdAt(closes, p, i) == MacdValue(0.0, 0.0, 0.0)
    decreases i
  {
    EmaOfConstant(closes, p[0], c, i);
    EmaOfConstant(closes, p[1], c, i);
    if i > 0 {
      MacdOfConstant(closes, p, c, i - 1);
    }
    EmaStepFixedPoint(0.0, p[2]);
  }

  // ----------------------------------------------------------- bounded averages

  /** One step of the average stays between the bounds of the new value and the previous average. */
  lemma EmaStepBounded(x: real, prev: real, n: real, lo: real, hi: real)
    requires n >= 1.0 && lo <= x <= hi && lo <= prev <= hi
    ensures lo <= EmaStep(x, prev, n) <= hi
  {
    assert (n - 1.0) * lo <= (n - 1.0) * prev <= (n - 1.0) * hi;
    assert (n + 1.0) * lo <= 2.0 * x + (n - 1.0) * prev <= (n + 1.0) * hi;
  }

  /** With a period of at least 1, the average never leaves any range that holds the values so far. */
  lemma {:induction false} EmaBounded(xs: seq<real>, n: real, i: nat, lo: real, hi: real)
    requires i < |xs| && n >= 1.0
    requires forall j :: 0 <= j <= i ==> lo <= xs[j] <= hi
    ensures lo <= Ema(xs, n, i) <= hi
    decreases i
  {
    if i > 0 {
      EmaBounded(xs, n, i - 1, lo, hi);
      EmaStepBounded(xs[i], Ema(xs, n, i - 1), n, lo, hi);
    }
  }

  /** The smallest of `xs[0..i]`. */
  function PrefixMin(xs: seq<real>, i: nat): (m: real)
    requires i < |xs|
    ensures forall j :: 0 <= j <= i ==> m <= xs[j]
    ensures exists j :: 0 <= j <= i && m == xs[j]
  {
    if i == 0 then xs[0]
    else if xs[i] < PrefixMin(xs, i - 1) then xs[i] else PrefixMin(xs, i - 1)
  }

  /** The largest of `xs[0..i]`. */
  function PrefixMax(xs: seq<real>, i: nat): (m: real)
    requires i < |xs|
    ensures forall j :: 0 <= j <= i ==> xs[j] <= m
    ensures exists j :: 0 <= j <= i && m == xs[j]
  {
    if i == 0 then xs[0]
    else if xs[i] > PrefixMax(xs, i - 1) then xs[i] else PrefixMax(xs, i - 1)
  }

  /** Both averages lie between the lowest and the highest close seen up to their index. */
  lemma EmasWithinCloses(closes: seq<real>, p: seq<real>, i: nat)
    requires i < |closes| && ValidParams(p) && p[0] >= 1.0 && p[1] >= 1.0
    ensures PrefixMin(closes, i) <= Ema(closes, p[0], i) <= PrefixMax(closes, i)
    ensures PrefixMin(closes, i) <= Ema(closes, p[1], i) <= PrefixMax(closes, i)
  {
    EmaBounded(closes, p[0], i, PrefixMin(closes, i), PrefixMax(closes, i));
    EmaBounded(closes, p[1], i, PrefixMin(closes, i), PrefixMax(closes, i));
  }

  // --------------------------------------------------------------- no lookahead

  lemma {:induction false} EmaCausal(xs: seq<real>, ys: seq<real>, n: real, i: nat)
    requires i < |xs| && i < |ys| && n != -1.0
    requires forall j :: 0 <= j <= i ==> xs[j] == ys[j]
    ensures Ema(xs, n, i) == Ema(ys, n, i)
    decreases i
  {
    if i > 0 {
      EmaCausal(xs, ys, n, i - 1);
    }
  }

  /**
    The triple at index `i` depends only on the closes up to `i` and the
    parameters: two series that agree up to `i` get the same triple there.
   */
  lemma {:induction false} MacdCausal(xs: seq<real>, ys: seq<real>, p: seq<real>, i: nat)
    requires i < |xs| && i < |ys| && ValidParams(p)
    requires forall j :: 0 <= j <= i ==> xs[j] == ys[j]
    ensures MacdAt(xs, p, i) == MacdAt(ys, p, i)
    decreases i
  {
    EmaCausal(xs, ys, p[0], i);
    EmaCausal(xs, ys, p[1], i);
    if i > 0 {
      MacdCausal(xs, ys, p, i - 1);
    }
  }

  /** Appending a new candle leaves every earlier triple as it was. */
  lemma MacdAppend(closes: seq<real>, close: real, p: seq<real>, i: nat)
    requires i < |closes| && ValidParams(p)
    ensures MacdAt(closes + [close], p, i) == MacdAt(closes, p, i)
  {
    MacdCausal(closes + [close], closes, p, i);
  }

  // --------------------------------------------------------- shifted prices

  /** Every close moved by the same amount `c`. */
  function Shifted(xs: seq<real>, c: real): (ys: seq<real>)
    ensures |ys| == |xs|
    ensures forall k :: 0 <= k < |xs| ==> ys[k] == xs[k] + c
  {
    seq(|xs|, k requires 0 <= k < |xs| => xs[k] + c)
  }

  /** Moving the new value and the previous average by `c` moves the step's result by `c`. */
  lemma EmaStepShift(x: real, prev: real, n: real, c: real)
    requires n != -1.0
    ensures EmaStep(x + c, prev + c, n) == EmaStep(x, prev, n) + c
  {
    EmaStepWeighted(x, prev, n);
    EmaStepWeighted(x + c, prev + c, n);
    assert (x + c) - (prev + c) == x - prev;
  }

  /** Moving every close by `c` moves the EMA by `c`: its weights sum to one. */
  lemma {:induction false} EmaShift(xs: seq<real>, n: real, c: real, i: nat)
    requires i < |xs| && n != -1.0
    ensures Ema(Shifted(xs, c), n, i) == Ema(xs, n, i) + c
    decreases i
  {
    if i == 0 {
      assert Shifted(xs, c)[0] == xs[0] + c;
    } else {
      var ys := Shifted(xs, c);
      EmaShift(xs, n, c, i - 1);
      var prev, shiftedPrev := Ema(xs, n, i - 1), Ema(ys, n, i - 1);
      assert Ema(ys, n, i) == EmaStep(ys[i], shiftedPrev, n);
      assert Ema(xs, n, i) == EmaStep(xs[i], prev, n);
      assert ys[i] == xs[i] + c && shiftedPrev == prev + c;
      EmaStepShift(xs[i], prev, n, c);
    }
  }

  /**
    The indicator reads only price differences: moving every close by the
    same amount leaves DIFF, DEA and the histogram unchanged at every index.
   */
  lemma {:induction false} MacdShiftInvariant(closes: seq<real>, p: seq<real>, c: real, i: nat)
    requires i < |closes| && ValidParams(p)
    ensures MacdAt(Shifted(closes, c), p, i) == MacdAt(closes, p, i)
    decreases i
  {
    EmaShift(closes, p[0], c, i);
    EmaShift(closes, p[1], c, i);
    if i > 0 {
      MacdShiftInvariant(closes, p, c, i - 1);
    }
  }

  // -------------------------------------------------------------- rising prices

  predicate NonDecreasing(xs: seq<real>) {
    forall j, k :: 0 <= j <= k < |xs| ==> xs[j] <= xs[k]
  }

  predicate Increasing(xs: seq<real>) {
    forall j, k :: 0 <= j < k < |xs| ==> xs[j] < xs[k]
  }

  lemma ProductSigns(u: real, v: real)
    requires u >= 0.0 && v >= 0.0
    ensures u * v >= 0.0
    ensures u > 0.0 && v > 0.0 ==> u * v > 0.0
  {
  }

  /** The longer period gives the smaller positive weight, and no weight exceeds one. */
  lemma WeightsOrdered(ns: real, nl: real)
    requires 1.0 <= ns < nl
    ensures 0.0 < 2.0 / (nl + 1.0) < 2.0 / (ns + 1.0) <= 1.0
  {
  }

  /** The gap after one step, with `a` and `b` the short and long weights. */
  lemma GapIdentity(x: real, s: real, l: real, a: real, b: real)
    ensures s + a * (x - s) - (l + b * (x - l)) == (1.0 - a) * (s - l) + (a - b) * (x - l)
  {
  }

  /**
    Both terms of the new gap are non-negative, and the second is positive
    once the close rises above the long average (`rise > 0`).
   */
  lemma GapSign(a: real, b: real, gap: real, rise: real)
    requires 0.0 < b < a <= 1.0
    requires gap >= 0.0 && rise >= 0.0
    ensures (1.0 - a) * gap + (a - b) * rise >= 0.0
    ensures rise > 0.0 ==> (1.0 - a) * gap + (a - b) * rise > 0.0
  {
    ProductSigns(1.0 - a, gap);
    ProductSigns(a - b, rise);
    if rise > 0.0 {
      var kept, gained := (1.0 - a) * gap, (a - b) * rise;
      assert kept >= 0.0 && gained > 0.0;
      assert kept + gained > 0.0;
    }
  }

  /**
    One step of both averages: with weights `a = 2 / (short + 1)` and
    `b = 2 / (long + 1)`, the new gap is `(1 - a) * oldGap + (a - b) * (x - oldLong)`.
   */
  lemma GapStep(x: real, s: real, l: real, ns: real, nl: real)
    requires 1.0 <= ns < nl
    requires l <= s && l <= x
    ensures EmaStep(x, s, ns) >= EmaStep(x, l, nl)
    ensures l < x ==> EmaStep(x, s, ns) > EmaStep(x, l, nl)
  {
    var a := Weight(ns);
    var b := Weight(nl);
    EmaStepWeighted(x, s, ns);
    EmaStepWeighted(x, l, nl);
    WeightsOrdered(ns, nl);
    GapIdentity(x, s, l, a, b);
    GapSign(a, b, s - l, x - l);
  }

  /**
    On a non-decreasing series the short average never falls below the long
    one, so DIFF is never negative; on a strictly rising series DIFF is
    positive from the second record on.
   */
  lemma {:induction false} DiffOfRisingSeries(closes: seq<real>, p: seq<real>, i: nat)
    requires i < |closes| && ValidParams(p) && 1.0 <= p[0] < p[1]
    requires NonDecreasing(closes)
    ensures Ema(closes, p[0], i) >= Ema(closes, p[1], i)
    ensures MacdAt(closes, p, i).diff >= 0.0
    ensures Increasing(closes) && i > 0 ==> MacdAt(closes, p, i).diff > 0.0
    decreases i
  {
    if i > 0 {
      DiffOfRisingSeries(closes, p, i - 1);
      EmaBounded(closes, p[1], i - 1, closes[0], closes[i - 1]);
      GapStep(closes[i], Ema(closes, p[0], i - 1), Ema(closes, p[1], i - 1), p[0], p[1]);
    }
  }

  /** The default parameter vector `[12, 26, 9]`. */
  const DefaultCalcParams: seq<real> := [12.0, 26.0, 9.0]

  /**
    Thirty closes rising linearly from 100 to 129 under the default parameters:
    the short average ends above the long one and DIFF ends positive.
   */
  lemma LinearRiseScenario()
    ensures var closes := seq(30, j => 100.0 + j as real);
            Ema(closes, 12.0, 29) > Ema(closes, 26.0, 29) && MacdAt(closes, DefaultCalcParams, 29).diff > 0.0
  {
    var closes := seq(30, j => 100.0 + j as real);
    assert Increasing(closes);
    DiffOfRisingSeries(closes, DefaultCalcParams, 29);
  }
}
