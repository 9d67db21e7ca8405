/** The signal strength history of a station: minimum, maximum, mean and moving average. */
module SignalStats {

  /** Division as in C, truncating toward zero. */
  function CDiv(a: int, b: int): int
    requires b > 0
  {
    if a >= 0 then a / b else -(-a / b)
  }

  /** Division as in C, by a divisor of either sign. */
  function CQuotient(a: int, b: int): int
    requires b != 0
  {
    if b > 0 then CDiv(a, b) else CDiv(-a, -b)
  }

  const UINT32_COUNT := 0x1_0000_0000
  const INT32_MAX := 0x7FFF_FFFF
  const INT32_MIN := -0x8000_0000

  predicate IsInt32(x: int) {
    INT32_MIN <= x <= INT32_MAX
  }

  /** The value a 32-bit field or operation keeps of `x`. */
  function ToInt32(x: int): (r: int)
    ensures IsInt32(r) && (IsInt32(x) ==> r == x)
  {
    (x + 0x8000_0000) % 0x1_0000_0000 - 0x8000_0000
  }

  const FACTOR := 50

  /** wld_util_performFactorStep, on unbounded integers. */
  function FactorStep(accum: int, newVal: int, factor: int): int {
    if accum == 0 then newVal * 1000
    else CDiv((1000 - factor) * accum, 1000) + factor * newVal
  }

  /** wld_util_performFactorStep: 32-bit products of 32-bit operands, a 64-bit accumulator,
      and a conversion to 32 bits at the end. */
  function FactorStep32(accum: int, newVal: int, factor: int): int {
    if accum == 0 then ToInt32(newVal * 1000)
    else ToInt32(CDiv((1000 - factor) * accum, 1000) + ToInt32(factor * newVal))
  }

  // ---------- arithmetic ----------

  lemma CDivBounds(a: int, b: int, lo: int, hi: int)
    requires b > 0 && lo * b <= a <= hi * b
    ensures lo <= CDiv(a, b) <= hi
  {
    if a >= 0 {
      DivBounds(a, b, hi);
      if lo > 0 { DivAtLeast(a, b, lo); }
    } else {
      assert -a <= -lo * b;
      DivBounds(-a, b, -lo);
      if hi < 0 {
        assert -hi * b <= -a;
        DivAtLeast(-a, b, -hi);
      }
    }
  }

  lemma DivBounds(a: nat, b: nat, hi: int)
    requires b > 0 && a <= hi * b
    ensures 0 <= a / b <= hi
  {
    var q, m := a / b, a % b;
    assert a == q * b + m && 0 <= m < b;
  }

  lemma DivAtLeast(a: nat, b: nat, lo: nat)
    requires b > 0 && lo * b <= a
    ensures lo <= a / b
  {
    var q, m := a / b, a % b;
    assert a == q * b + m && 0 <= m < b;
    if lo >= q + 1 {
      MulMonotone(b, q + 1, lo);
    }
  }

  lemma MulMonotone(f: nat, a: int, b: int)
    requires a <= b
    ensures f * a <= f * b
  {
  }

  /** One step keeps the accumulator within 1000 times any range that holds it and the sample. */
  lemma StepStaysInRange(accum: int, newVal: int, factor: nat, lo: int, hi: int)
    requires factor <= 1000 && lo <= newVal <= hi && 1000 * lo <= accum <= 1000 * hi
    ensures 1000 * lo <= FactorStep(accum, newVal, factor) <= 1000 * hi
  {
    if accum != 0 {
      var w := 1000 - factor;
      MulMonotone(w, 1000 * lo, accum);
      MulMonotone(w, accum, 1000 * hi);
      assert w * (1000 * lo) == (w * lo) * 1000 && w * (1000 * hi) == (w * hi) * 1000;
      CDivBounds(w * accum, 1000, w * lo, w * hi);
      MulMonotone(factor, lo, newVal);
      MulMonotone(factor, newVal, hi);
      assert w * lo + factor * lo == 1000 * lo && w * hi + factor * hi == 1000 * hi;
    }
  }

  /** What the truncating division by a thousand leaves out. */
  lemma CDivRest(a: int)
    ensures -1000 < a - 1000 * CDiv(a, 1000) < 1000
  {
  }

  /** One step moves the accumulator by `factor` thousandths of its distance to the sample, up to truncation. */
  lemma StepMovesByFactor(accum: int, newVal: int, factor: int)
    requires accum != 0
    ensures
      var moved, distance := FactorStep(accum, newVal, factor) - accum, 1000 * newVal - accum;
      -1000 < 1000 * moved - factor * distance < 1000
  {
    CDivRest((1000 - factor) * accum);
    assert (1000 - factor) * accum == 1000 * accum - factor * accum;
    assert factor * (1000 * newVal - accum) == 1000 * (factor * newVal) - factor * accum;
    hide CDiv;
  }

  function Abs(x: int): nat { if x < 0 then -x else x }

  /** How far the accumulator is from a sample, beyond what truncation leaves. */
  function Excess(accum: int, v: int): nat {
    var d := Abs(accum - 1000 * v);
    if d > 19 then d - 19 else 0
  }

  /** With the factor in use a step takes a twentieth of the distance away, up to truncation,
      and a restart all of it. */
  lemma ExcessShrinks(accum: int, v: int)
    ensures 20 * Excess(FactorStep(accum, v, FACTOR), v) <= 19 * Excess(accum, v)
    ensures accum != 0 ==> 19 * Abs(accum - 1000 * v) < 20 * Abs(FactorStep(accum, v, FACTOR) - 1000 * v) + 20
  {
    if accum != 0 { StepMovesByFactor(accum, v, FACTOR); }
    hide CDiv;
  }

  /** The greatest magnitude of samples whose 1000-fold fits 32 bits. */
  const SAMPLE_MAX := 2147483

  /** With samples of that magnitude no operation of the step leaves 32 bits. */
  lemma StepFitsInt32(accum: int, newVal: int)
    requires -SAMPLE_MAX <= newVal <= SAMPLE_MAX && -1000 * SAMPLE_MAX <= accum <= 1000 * SAMPLE_MAX
    ensures FactorStep32(accum, newVal, FACTOR) == FactorStep(accum, newVal, FACTOR)
    ensures -1000 * SAMPLE_MAX <= FactorStep(accum, newVal, FACTOR) <= 1000 * SAMPLE_MAX
  {
    StepStaysInRange(accum, newVal, FACTOR, -SAMPLE_MAX, SAMPLE_MAX);
    assert IsInt32(FACTOR * newVal);
    hide ToInt32, CDiv;
  }

  /** The first step is exact for samples of that magnitude and for no others. */
  lemma FirstStepExactly(newVal: int)
    requires IsInt32(newVal)
    ensures FactorStep32(0, newVal, FACTOR) == FactorStep(0, newVal, FACTOR) <==> -SAMPLE_MAX <= newVal <= SAMPLE_MAX
  {
    assert IsInt32(newVal * 1000) <==> -SAMPLE_MAX <= newVal <= SAMPLE_MAX;
  }

  // ---------- s_updateStationStatsHistory ----------

  datatype Stats = Stats(min: int, max: int, n: nat, linear: int, mean: int, exp: int)

  /** The fields of a new station. */
  const INIT := Stats(0, -200, 0, 0, 0, 0)

  function Sampled(h: Stats, v: int): Stats {
    var n, linear := h.n + 1, h.linear + v;
    Stats(if v < h.min then v else h.min, if v > h.max then v else h.max,
          n, linear, CDiv(linear, n), FactorStep(h.exp, v, FACTOR))
  }

  /** The number of samples after one more, in its 32 bits. */
  function NextCount(n: nat): nat {
    (n + 1) % UINT32_COUNT
  }

  /** One sample, with every field and every operation cut to 32 bits; the count is a divisor. */
  function Sampled32(h: Stats, v: int): Stats
    requires NextCount(h.n) != 0
  {
    var n, linear := NextCount(h.n), ToInt32(h.linear + v);
    Stats(if v < h.min then v else h.min, if v > h.max then v else h.max,
          n, linear, ToInt32(CQuotient(linear, ToInt32(n))), FactorStep32(h.exp, v, FACTOR))
  }

  /** Nothing overflows: the sample and the moving average are in range, and the sum and the count fit 32 bits. */
  predicate Fits(h: Stats, v: int) {
    && -SAMPLE_MAX <= v <= SAMPLE_MAX
    && -1000 * SAMPLE_MAX <= h.exp <= 1000 * SAMPLE_MAX
    && IsInt32(h.linear + v)
    && h.n < INT32_MAX
  }

  /** Then the fields hold what unbounded ones would, and the moving average stays in range. */
  lemma FittingSampleIsExact(h: Stats, v: int)
    requires Fits(h, v)
    ensures NextCount(h.n) != 0 && Sampled32(h, v) == Sampled(h, v)
    ensures -1000 * SAMPLE_MAX <= Sampled(h, v).exp <= 1000 * SAMPLE_MAX
  {
    StepFitsInt32(h.exp, v);
    MeanFits(h.linear + v, h.n + 1);
    hide FactorStep, FactorStep32, CDiv;
  }

  lemma MeanFits(linear: int, n: nat)
    requires IsInt32(linear) && n > 0
    ensures IsInt32(CDiv(linear, n))
  {
    var lo, hi := if linear < 0 then linear else 0, if linear < 0 then 0 else linear;
    MulMonotone(n, lo, 0);
    MulMonotone(n, 0, hi);
    if linear < 0 {
      ScaleDown(linear, n);
    } else {
      ScaleDown(-linear, n);
    }
    CDivBounds(linear, n, lo, hi);
  }

  lemma ScaleDown(x: int, n: nat)
    requires x <= 0 && n > 0
    ensures x * n <= x && -x <= -x * n
  {
    MulMonotone(-x, 1, n);
  }

  class SignalHistory {
    var minSignalStrength: int
    var maxSignalStrength: int
    var nrMeanSignalStrength: nat
    var meanSignalStrengthLinearAccumulator: int
    var meanSignalStrength: int
    var meanSignalStrengthExpAccumulator: int

    constructor ()
      ensures Value() == INIT
    {
      minSignalStrength, maxSignalStrength, nrMeanSignalStrength := 0, -200, 0;
      meanSignalStrengthLinearAccumulator, meanSignalStrength, meanSignalStrengthExpAccumulator := 0, 0, 0;
    }

    function Value(): Stats
      reads this
    {
      Stats(minSignalStrength, maxSignalStrength, nrMeanSignalStrength,
            meanSignalStrengthLinearAccumulator, meanSignalStrength, meanSignalStrengthExpAccumulator)
    }

    /** s_updateStationStatsHistory, for the signal strength; a count that wraps to zero would divide by zero. */
    method UpdateStationStatsHistory(signalStrength: int)
      requires NextCount(nrMeanSignalStrength) != 0
      modifies this
      ensures Value() == Sampled32(old(Value()), signalStrength)
      ensures old(Fits(Value(), signalStrength)) ==>
        && Value() == Sampled(old(Value()), signalStrength)
        && -1000 * SAMPLE_MAX <= meanSignalStrengthExpAccumulator <= 1000 * SAMPLE_MAX
    {
      if Fits(Value(), signalStrength) { FittingSampleIsExact(Value(), signalStrength); }
      if signalStrength < minSignalStrength {
        minSignalStrength := signalStrength;
      }
      if signalStrength > maxSignalStrength {
        maxSignalStrength := signalStrength;
      }
      nrMeanSignalStrength := NextCount(nrMeanSignalStrength);
      meanSignalStrengthLinearAccumulator := ToInt32(meanSignalStrengthLinearAccumulator + signalStrength);
      meanSignalStrength := ToInt32(CQuotient(meanSignalStrengthLinearAccumulator, ToInt32(nrMeanSignalStrength)));
      meanSignalStrengthExpAccumulator := FactorStep32(meanSignalStrengthExpAccumulator, signalStrength, FACTOR);
    }
  }

  // ---------- runs ----------

  function Run(samples: seq<int>): Stats {
    if samples == [] then INIT else Sampled(Run(samples[..|samples| - 1]), samples[|samples| - 1])
  }

  /** All sums of the samples so far fit 32 bits, as do the samples and their number. */
  ghost predicate AllFit(samples: seq<int>) {
    && |samples| <= INT32_MAX
    && (forall v :: v in samples ==> -SAMPLE_MAX <= v <= SAMPLE_MAX)
    && (forall i :: 0 <= i <= |samples| ==> IsInt32(Sum(samples[..i])))
  }

  /** While they do, each of the 32-bit updates is exact, so the stored history is that of unbounded fields. */
  lemma {:induction false} RunsFit(samples: seq<int>)
    requires AllFit(samples)
    ensures -1000 * SAMPLE_MAX <= Run(samples).exp <= 1000 * SAMPLE_MAX && Run(samples).linear == Sum(samples) &&
      Run(samples).n == |samples|
    ensures samples != [] ==>
      var h, v := Run(samples[..|samples| - 1]), samples[|samples| - 1];
      Fits(h, v) && Run(samples) == Sampled32(h, v)
  {
    if samples != [] {
      var m := |samples| - 1;
      var h, v := Run(samples[..m]), samples[m];
      assert forall i :: 0 <= i <= m ==> samples[..m][..i] == samples[..i];
      assert v in samples && forall x :: x in samples[..m] ==> x in samples;
      RunsFit(samples[..m]);
      assert samples[..|samples|] == samples && IsInt32(Sum(samples));
      FittingSampleIsExact(h, v);
      hide FactorStep, FactorStep32, CDiv, CQuotient, ToInt32;
    }
  }

  function Sum(samples: seq<int>): int {
    if samples == [] then 0 else Sum(samples[..|samples| - 1]) + samples[|samples| - 1]
  }

  /** The recorded extremes are those of the samples together with the initial values. */
  lemma {:induction false} ExtremesAreRecorded(samples: seq<int>)
    ensures
      var h := Run(samples);
      && h.n == |samples| && h.linear == Sum(samples)
      && (forall v :: v in samples ==> h.min <= v <= h.max)
      && h.min <= 0 && (h.min == 0 || h.min in samples)
      && h.max >= -200 && (h.max == -200 || h.max in samples)
  {
    if samples != [] {
      var m := |samples| - 1;
      ExtremesAreRecorded(samples[..m]);
      assert forall v :: v in samples <==> v in samples[..m] || v == samples[m];
    }
  }

  lemma {:induction false} SumBounds(samples: seq<int>, lo: int, hi: int)
    requires forall v :: v in samples ==> lo <= v <= hi
    ensures lo * |samples| <= Sum(samples) <= hi * |samples|
  {
    if samples != [] {
      var m := |samples| - 1;
      assert samples[m] in samples;
      forall v | v in samples[..m] ensures v in samples {}
      SumBounds(samples[..m], lo, hi);
      assert lo * |samples| == lo * m + lo && hi * |samples| == hi * m + hi;
    }
  }

  /** After any samples the mean is the truncated quotient of their sum, and recorded
      minimum, mean and recorded maximum are in order. */
  lemma MeanBetweenExtremes(samples: seq<int>)
    requires samples != []
    ensures Run(samples).mean == CDiv(Sum(samples), |samples|)
    ensures Run(samples).min <= Run(samples).mean <= Run(samples).max
  {
    ExtremesAreRecorded(samples);
    ExtremesAreRecorded(samples[..|samples| - 1]);
    SumBounds(samples, Run(samples).min, Run(samples).max);
    CDivBounds(Sum(samples), |samples|, Run(samples).min, Run(samples).max);
  }

  function Pow(b: nat, n: nat): nat { if n == 0 then 1 else b * Pow(b, n - 1) }

  function Repeated(v: int, n: nat): seq<int> { seq(n, _ => v) }

  /** Under a constant sample the moving average closes in on it by a twentieth each time. */
  lemma {:induction false} AverageConverges(samples: seq<int>, v: int, n: nat)
    ensures Pow(20, n) * Excess(Run(samples + Repeated(v, n)).exp, v) <= Pow(19, n) * Excess(Run(samples).exp, v)
  {
    hide Excess, FactorStep;
    if n == 0 {
      assert samples + Repeated(v, 0) == samples;
    } else {
      AverageConverges(samples, v, n - 1);
      var before, after := samples + Repeated(v, n - 1), samples + Repeated(v, n);
      assert after[..|after| - 1] == before && after[|after| - 1] == v;
      ExcessShrinks(Run(before).exp, v);
      ScaledStep(Pow(20, n - 1), Pow(19, n - 1), Excess(Run(samples).exp, v), Excess(Run(before).exp, v),
        Excess(Run(after).exp, v));
    }
  }

  lemma ScaledStep(p: nat, q: nat, e0: nat, e: nat, f: nat)
    requires p * e <= q * e0 && 20 * f <= 19 * e
    ensures (20 * p) * f <= (19 * q) * e0
  {
    MulMonotone(p, 20 * f, 19 * e);
    assert (20 * p) * f == p * (20 * f) && p * (19 * e) == 19 * (p * e) && (19 * q) * e0 == 19 * (q * e0);
  }

  /** The moving average never leaves 1000 times the recorded range, restarts included. */
  lemma {:induction false} AverageStaysInRange(samples: seq<int>)
    requires samples != []
    ensures 1000 * Run(samples).min <= Run(samples).exp <= 1000 * Run(samples).max
  {
    var m := |samples| - 1;
    var h, v := Run(samples[..m]), samples[m];
    ExtremesAreRecorded(samples);
    assert v in samples;
    if m > 0 {
      AverageStaysInRange(samples[..m]);
      StepStaysInRange(h.exp, v, FACTOR, Run(samples).min, Run(samples).max);
    } else {
      assert samples[..m] == [] && Run(samples).exp == v * 1000;
    }
  }
}
