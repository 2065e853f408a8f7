/** The sliding-window variance of the motion sensor and the detection of a body by it
    (common/body_detection.c:42-133, 235-305). */
module BodyDetection {
  import opened Arithmetic
  import opened Options
  import opened Ring

  // -------- the variance of a window

  function Sum(s: seq<int>): int {
    if s == [] then 0 else Sum(s[..|s| - 1]) + s[|s| - 1]
  }

  function SumOfSquares(s: seq<int>): int {
    if s == [] then 0 else SumOfSquares(s[..|s| - 1]) + s[|s| - 1] * s[|s| - 1]
  }

  function SumOfSquaredDistances(s: seq<int>, x: int): int {
    if s == [] then 0
    else SumOfSquaredDistances(s[..|s| - 1], x) + (s[|s| - 1] - x) * (s[|s| - 1] - x)
  }

  /** The square of the number of values times their variance: the squared distances of all pairs. */
  function ScaledVariance(s: seq<int>): int {
    if s == [] then 0 else ScaledVariance(s[..|s| - 1]) + SumOfSquaredDistances(s[..|s| - 1], s[|s| - 1])
  }

  lemma DistanceStep(k: int, sum: int, squares: int, x: int, y: int)
    ensures squares - 2 * x * sum + k * x * x + (y - x) * (y - x)
         == (squares + y * y) - 2 * x * (sum + y) + (k + 1) * x * x
    ensures (y - x) * (y - x) >= 0
  {
    assert (y - x) * (y - x) == y * y - 2 * x * y + x * x;
    assert (k + 1) * x * x == k * x * x + x * x;
    assert 2 * x * (sum + y) == 2 * x * sum + 2 * x * y;
  }

  lemma {:induction false} Distances(s: seq<int>, x: int)
    ensures SumOfSquaredDistances(s, x) == SumOfSquares(s) - 2 * x * Sum(s) + |s| * x * x
    ensures SumOfSquaredDistances(s, x) >= 0
  {
    if s != [] {
      var k := |s| - 1;
      Distances(s[..k], x);
      DistanceStep(k, Sum(s[..k]), SumOfSquares(s[..k]), x, s[k]);
    }
  }

  /** It is never negative, and it is what the number, the sum and the sum of squares give. */
  lemma {:induction false} VarianceBySums(s: seq<int>)
    ensures ScaledVariance(s) == |s| * SumOfSquares(s) - Sum(s) * Sum(s)
    ensures ScaledVariance(s) >= 0
  {
    if s != [] {
      var k, x := |s| - 1, s[|s| - 1];
      var t := s[..k];
      VarianceBySums(t);
      Distances(t, x);
      VarianceAppended(k, Sum(t), SumOfSquares(t), x);
    }
  }

  lemma VarianceAppended(k: int, sum: int, squares: int, x: int)
    ensures (k + 1) * (squares + x * x) - (sum + x) * (sum + x)
         == (k * squares - sum * sum) + (squares - 2 * x * sum + k * x * x)
  {
    assert (sum + x) * (sum + x) == sum * sum + 2 * x * sum + x * x;
    assert (k + 1) * (squares + x * x) == k * squares + k * x * x + squares + x * x;
  }

  lemma {:induction false} SumOfConcat(a: seq<int>, b: seq<int>)
    ensures Sum(a + b) == Sum(a) + Sum(b)
    ensures SumOfSquares(a + b) == SumOfSquares(a) + SumOfSquares(b)
  {
    if b == [] {
      assert a + b == a;
    } else {
      SumOfConcat(a, b[..|b| - 1]);
      assert (a + b)[..|a + b| - 1] == a + b[..|b| - 1];
    }
  }

  lemma SumOfOne(x: int)
    ensures Sum([x]) == x && SumOfSquares([x]) == x * x
  {
    assert [x][..0] == [];
  }

  /** Dropping the first value and appending one. */
  lemma SumShifted(s: seq<int>, t: seq<int>, x: int)
    requires s != [] && t == s[1..] + [x]
    ensures Sum(t) == Sum(s) - s[0] + x
    ensures SumOfSquares(t) == SumOfSquares(s) - s[0] * s[0] + x * x
  {
    var rest := s[1..];
    assert s == [s[0]] + rest;
    SumOfConcat([s[0]], rest);
    SumOfConcat(rest, [x]);
    SumOfOne(s[0]);
    SumOfOne(x);
  }

  /** What replacing `x0` by `x` adds to the scaled variance of `n` values with this sum. */
  function Gain(n: int, sum: int, x0: int, x: int): int {
    var diff := x - x0;
    diff * (n * (x + x0) - (sum + diff) - sum)
  }

  lemma VarianceOfReplaced(s: seq<int>, t: seq<int>, x0: int, x: int)
    requires |t| == |s| && Sum(t) == Sum(s) - x0 + x && SumOfSquares(t) == SumOfSquares(s) - x0 * x0 + x * x
    ensures ScaledVariance(t) == ScaledVariance(s) + Gain(|s|, Sum(s), x0, x)
  {
    VarianceBySums(s);
    VarianceBySums(t);
    VarianceStep(|s|, Sum(s), SumOfSquares(s), x0, x);
  }

  /** The step of `update_motion_data`: what the new value adds to the sum and the scaled variance. */
  lemma WindowStep(s: seq<int>, t: seq<int>, x: int)
    requires s != [] && t == s[1..] + [x]
    ensures Sum(t) == Sum(s) + (x - s[0])
    ensures ScaledVariance(t) == ScaledVariance(s) + Gain(|s|, Sum(s), s[0], x)
  {
    SumShifted(s, t, x);
    VarianceOfReplaced(s, t, s[0], x);
  }

  lemma VarianceStep(n: int, sum: int, squares: int, x0: int, x: int)
    ensures n * (squares - x0 * x0 + x * x) - (sum - x0 + x) * (sum - x0 + x)
         == n * squares - sum * sum + Gain(n, sum, x0, x)
  {
    var d := x - x0;
    assert d * (x + x0) == x * x - x0 * x0;
    assert n * (squares - x0 * x0 + x * x) == n * squares + n * (d * (x + x0));
    assert n * (d * (x + x0)) == d * (n * (x + x0));
    assert (sum + d) * (sum + d) == sum * sum + d * (sum + d) + d * sum;
    assert d * (n * (x + x0) - (sum + d) - sum) == d * (n * (x + x0)) - d * (sum + d) - d * sum;
  }

  // -------- the window

  /** The motion data of one axis. */
  class Motion {
    const history: array<int>
    var sum: int
    var n2Variance: int

    /** The first `n` slots are the window, `next` being written next, and `samples` all values
        since the last reset. */
    ghost predicate Valid(n: nat, next: nat, samples: seq<int>)
      reads this, history
    {
      && n <= history.Length
      && (n > 0 ==> Keeps(history[..n], next, samples))
      && (forall w {:trigger Sum(w)} :: n > 0 && w == LastOf(samples, n) ==>
            sum == Sum(w) && n2Variance == ScaledVariance(w))
    }

    constructor (maxWindow: nat)
      ensures fresh(history) && history.Length == maxWindow
    {
      history := new int[maxWindow];
      sum, n2Variance := 0, 0;
    }

    method Clear(n: nat)
      requires n <= history.Length
      modifies this, history
      ensures Valid(n, 0, [])
    {
      sum, n2Variance := 0, 0;
      for i := 0 to history.Length
        modifies history
        invariant forall k :: 0 <= k < i ==> history[k] == 0
      {
        history[i] := 0;
      }
      if n > 0 {
        assert history[..n] == Zeros(n);
        KeepsZeros(n, 0);
        VarianceOfZeros(n);
        assert LastOf([], n) == Zeros(n);
      }
    }

    method Update(n: nat, next: nat, x: int, ghost samples: seq<int>)
      requires Valid(n, next, samples) && next < history.Length
      modifies this, history
      ensures Valid(n, Following(next, n), samples + [x])
    {
      ghost var was := history[..n];
      var x0 := history[next];
      var sumDiff := x - x0;
      var newSum := sum + sumDiff;
      if n > 0 {
        assert was[next] == x0;
        OldestIsNext(was, next, samples);
        KeepsAppended(was, next, samples, x);
        LastOfAppended(samples, x, n);
        WindowStep(LastOf(samples, n), LastOf(samples + [x], n), x);
      }
      n2Variance := n2Variance + Gain(n, sum, x0, x);
      sum := newSum;
      history[next] := x;
      assert n > 0 ==> history[..n] == was[next := x];
    }
  }

  lemma {:induction false} SumOfZeros(n: nat)
    ensures Sum(Zeros(n)) == 0
  {
    if n > 0 {
      SumOfZeros(n - 1);
      assert Zeros(n)[..n - 1] == Zeros(n - 1);
    }
  }

  lemma {:induction false} SquaresOfZeros(n: nat)
    ensures SumOfSquares(Zeros(n)) == 0
  {
    if n > 0 {
      var zeros := Zeros(n);
      SquaresOfZeros(n - 1);
      assert zeros[..n - 1] == Zeros(n - 1) && zeros[n - 1] == 0;
      assert SumOfSquares(zeros) == SumOfSquares(zeros[..n - 1]) + 0 * 0;
    }
  }

  lemma VarianceOfZeros(n: nat)
    ensures Sum(Zeros(n)) == ScaledVariance(Zeros(n)) == 0
  {
    SumOfZeros(n);
    SquaresOfZeros(n);
    VarianceBySums(Zeros(n));
  }

  // -------- confidence

  const UINT64 := 0x1_0000_0000_0000_0000

  /** In unsigned arithmetic of 64 bits. */
  function Confidence(variance: nat, threshold: nat, delta: nat): int
    requires delta > 0 || variance != threshold
    requires 2 * delta < UINT64 && threshold < UINT64
  {
    if variance < (threshold - delta) % UINT64 then 0
    else if variance > (threshold + delta) % UINT64 then 100
    else if delta == 0 then 100
    else 100 * ((variance - threshold + delta) % UINT64) % UINT64 / (2 * delta)
  }

  /** The settings for which there is a confidence for every variance; with a band of no width there
      is a division by zero at the threshold. */
  predicate Usable(threshold: nat, delta: nat) {
    0 < delta && 2 * delta < UINT64 && threshold < UINT64
  }

  /** The formula in unbounded arithmetic: linear in the band around the threshold. */
  function Unwrapped(variance: nat, threshold: nat, delta: nat): int
    requires delta > 0
  {
    if variance < threshold - delta then 0
    else if variance > threshold + delta then 100
    else 100 * (variance - threshold + delta) / (2 * delta)
  }

  /** The middle of the band is 50. */
  lemma UnwrappedIs(variance: nat, threshold: nat, delta: nat)
    requires delta > 0
    ensures variance < threshold - delta ==> Unwrapped(variance, threshold, delta) == 0
    ensures variance > threshold + delta ==> Unwrapped(variance, threshold, delta) == 100
    ensures threshold - delta <= variance <= threshold + delta ==>
              var c, x := Unwrapped(variance, threshold, delta), variance - (threshold - delta);
              c * (2 * delta) <= 100 * x < (c + 1) * (2 * delta)
    ensures Unwrapped(threshold, threshold, delta) == 50
  {
    QuotientAndRemainder(100 * delta, 50, 2 * delta, 0);
  }

  lemma NoWrap(n: nat)
    requires n < UINT64
    ensures n % UINT64 == n
  {
  }

  lemma ConfidenceInBand(variance: nat, threshold: nat, delta: nat)
    requires 0 < delta <= threshold && threshold + delta < UINT64 && 200 * delta < UINT64
    ensures Confidence(variance, threshold, delta) == Unwrapped(variance, threshold, delta)
  {
    NoWrap(threshold - delta);
    NoWrap(threshold + delta);
    if threshold - delta <= variance <= threshold + delta {
      NoWrap(variance - threshold + delta);
      NoWrap(100 * (variance - threshold + delta));
    }
  }

  /** A band that is wider than the threshold makes the lower bound wrap around: then there is no
      confidence in any motion that is not close to the end of the number range. */
  lemma WideBandSeesNothing(variance: nat, threshold: nat, delta: nat)
    requires threshold < delta && 2 * delta < UINT64
    ensures Confidence(variance, threshold, delta) == if variance < UINT64 - (delta - threshold) then 0 else 100
  {
    assert (threshold - delta) % UINT64 == UINT64 - (delta - threshold);
    NoWrap(threshold + delta);
  }

  /** A band that reaches over the end of the number range leaves no variance inside it. */
  lemma HighBandIsEmpty(variance: nat, threshold: nat, delta: nat)
    requires Usable(threshold, delta) && threshold + delta >= UINT64
    ensures Confidence(variance, threshold, delta) == if variance < threshold - delta then 0 else 100
  {
    NoWrap(threshold - delta);
    assert (threshold + delta) % UINT64 == threshold + delta - UINT64;
  }

  /** At the upper end of a band so wide that the product wraps around the confidence is below 100. */
  lemma ProductWraps(threshold: nat, delta: nat)
    requires Usable(threshold, delta) && delta <= threshold && threshold + delta < UINT64 && 200 * delta >= UINT64
    ensures Confidence(threshold + delta, threshold, delta) < 100 == Unwrapped(threshold + delta, threshold, delta)
  {
    NoWrap(threshold - delta);
    NoWrap(threshold + delta);
    NoWrap(2 * delta);
    var part := 200 * delta % UINT64;
    assert part <= 200 * delta - UINT64 < 99 * (2 * delta);
    QuotientBelow(part, 99, 2 * delta);
    QuotientAndRemainder(200 * delta, 100, 2 * delta, 0);
  }

  lemma QuotientBelow(a: nat, q: nat, m: nat)
    requires m > 0 && a < q * m
    ensures a / m < q
  {
    var p := a / m;
    assert a == p * m + a % m;
    if p >= q {
      TimesMonotone(q, p, m);
    }
  }

  /** The confidence is the one meant for every variance exactly if the band is not wider than the threshold,
      ends inside the number range, and is not so wide that the product wraps around. */
  lemma UnwrappedExactly(threshold: nat, delta: nat)
    requires Usable(threshold, delta)
    ensures (forall v: nat :: v < UINT64 ==> Confidence(v, threshold, delta) == Unwrapped(v, threshold, delta))
       <==> delta <= threshold && threshold + delta < UINT64 && 200 * delta < UINT64
  {
    QuotientAndRemainder(100 * delta, 50, 2 * delta, 0);
    assert Unwrapped(threshold, threshold, delta) == 50;
    if threshold < delta {
      WideBandSeesNothing(threshold, threshold, delta);
    } else if threshold + delta >= UINT64 {
      HighBandIsEmpty(threshold, threshold, delta);
    } else if 200 * delta >= UINT64 {
      ProductWraps(threshold, delta);
    } else {
      forall v: nat | v < UINT64
        ensures Confidence(v, threshold, delta) == Unwrapped(v, threshold, delta)
      {
        ConfidenceInBand(v, threshold, delta);
      }
    }
  }

  lemma Percentage(part: nat, whole: nat)
    requires part <= 100 * whole && whole > 0
    ensures 0 <= part / whole <= 100
  {
    QuotientGrows(part, 100 * whole, whole);
    Multiple(100, whole);
  }

  lemma ConfidenceIsPercentage(variance: nat, threshold: nat, delta: nat)
    requires Usable(threshold, delta)
    ensures 0 <= Confidence(variance, threshold, delta) <= 100
  {
    if threshold < delta {
      WideBandSeesNothing(variance, threshold, delta);
    } else if threshold + delta >= UINT64 {
      HighBandIsEmpty(variance, threshold, delta);
    } else if threshold - delta <= variance <= threshold + delta {
      var part := variance - threshold + delta;
      NoWrap(part);
      if 200 * delta < UINT64 {
        NoWrap(100 * part);
      }
      Percentage(100 * part % UINT64, 2 * delta);
    } else {
      NoWrap(threshold - delta);
      NoWrap(threshold + delta);
    }
  }

  /** The settings for which more motion never lowers the confidence: the product in the formula does not wrap
      around, or no variance is in the band, or the band takes in all but two numbers. */
  predicate NeverFalls(threshold: nat, delta: nat) {
    threshold < delta || threshold + delta >= UINT64 || 200 * delta < UINT64 || 2 * delta == UINT64 - 2
  }

  lemma InsideBand(threshold: nat, delta: nat, x: nat)
    requires Usable(threshold, delta) && delta <= threshold && threshold + delta < UINT64 && x <= 2 * delta
    ensures Confidence(threshold - delta + x, threshold, delta) == 100 * x % UINT64 / (2 * delta)
  {
    NoWrap(threshold - delta);
    NoWrap(threshold + delta);
    NoWrap(x);
  }

  lemma RemainderIsEven(x: nat, q: nat, r: nat)
    requires 100 * x == UINT64 * q + r && r < UINT64
    ensures r < UINT64 - 2
  {
    assert r == 4 * (25 * x - 0x4000_0000_0000_0000 * q);
  }

  lemma ProductIsEven(x: nat)
    ensures 100 * x % UINT64 < UINT64 - 2
  {
    RemainderIsEven(x, 100 * x / UINT64, 100 * x % UINT64);
  }

  lemma WidestBand(v: nat, threshold: nat, delta: nat)
    requires delta <= threshold && threshold + delta < UINT64 && 2 * delta == UINT64 - 2
    ensures Confidence(v, threshold, delta) == if v <= threshold + delta then 0 else 100
  {
    NoWrap(threshold - delta);
    NoWrap(threshold + delta);
    if threshold - delta <= v <= threshold + delta {
      var x := v - threshold + delta;
      InsideBand(threshold, delta, x);
      ProductIsEven(x);
      QuotientBelow(100 * x % UINT64, 1, 2 * delta);
    }
  }

  /** More motion never lowers the confidence for these settings, wherever the band lies. */
  lemma ConfidenceIsMonotone(v: nat, w: nat, threshold: nat, delta: nat)
    requires Usable(threshold, delta) && NeverFalls(threshold, delta) && v <= w
    ensures Confidence(v, threshold, delta) <= Confidence(w, threshold, delta)
  {
    if threshold < delta {
      WideBandSeesNothing(v, threshold, delta);
      WideBandSeesNothing(w, threshold, delta);
    } else if threshold + delta >= UINT64 {
      HighBandIsEmpty(v, threshold, delta);
      HighBandIsEmpty(w, threshold, delta);
    } else if 2 * delta == UINT64 - 2 {
      WidestBand(v, threshold, delta);
      WidestBand(w, threshold, delta);
    } else {
      ConfidenceInBand(v, threshold, delta);
      ConfidenceInBand(w, threshold, delta);
      ConfidenceIsPercentage(v, threshold, delta);
      ConfidenceIsPercentage(w, threshold, delta);
      if threshold - delta <= v && w <= threshold + delta {
        QuotientGrows(100 * (v - threshold + delta), 100 * (w - threshold + delta), 2 * delta);
      }
    }
  }

  lemma QuotientAtLeastOne(a: nat, m: nat)
    requires 0 < m <= a
    ensures a / m >= 1
  {
    QuotientGrows(m, a, m);
    Multiple(1, m);
  }

  lemma FallsAt(threshold: nat, delta: nat, x: nat)
    requires Usable(threshold, delta) && delta <= threshold && threshold + delta < UINT64 && x < 2 * delta
    requires 100 * x % UINT64 >= 2 * delta > 100 * (x + 1) % UINT64
    ensures Confidence(threshold - delta + x, threshold, delta) > Confidence(threshold - delta + (x + 1), threshold, delta)
  {
    InsideBand(threshold, delta, x);
    InsideBand(threshold, delta, x + 1);
    QuotientAtLeastOne(100 * x % UINT64, 2 * delta);
    QuotientBelow(100 * (x + 1) % UINT64, 1, 2 * delta);
  }

  /** Places in the band where the product is just below a multiple of 2^64. */
  lemma ProductFalls(threshold: nat, delta: nat) returns (x: nat)
    requires Usable(threshold, delta) && !NeverFalls(threshold, delta)
    ensures threshold - delta + x + 1 < UINT64
    ensures Confidence(threshold - delta + x, threshold, delta) > Confidence(threshold - delta + (x + 1), threshold, delta)
  {
    x := if 2 * delta <= UINT64 - 16 then 184467440737095516 else 3504881374004814807;
    FallsAt(threshold, delta, x);
  }

  /** And for no others. */
  lemma MonotoneExactly(threshold: nat, delta: nat)
    requires Usable(threshold, delta)
    ensures (forall v: nat, w: nat :: v <= w < UINT64 ==> Confidence(v, threshold, delta) <= Confidence(w, threshold, delta))
       <==> NeverFalls(threshold, delta)
  {
    if NeverFalls(threshold, delta) {
      forall v: nat, w: nat | v <= w < UINT64
        ensures Confidence(v, threshold, delta) <= Confidence(w, threshold, delta)
      {
        ConfidenceIsMonotone(v, w, threshold, delta);
      }
    } else {
      var x := ProductFalls(threshold, delta);
      var v, w := threshold - delta + x, threshold - delta + (x + 1);
      assert Confidence(v, threshold, delta) > Confidence(w, threshold, delta);
    }
  }

  // -------- the settings

  const INT_LIMIT := 0x8000_0000
  const MOTION_SCALING_FACTOR := 0x8000
  const DIVISOR := 96040000

  /** The settings of a sensor; 0 stands for the default. */
  datatype Params = Params(varNoiseFactor: nat, varThreshold: nat, confidenceDelta: nat)

  function Setting(value: nat, byDefault: nat): nat {
    if value != 0 then value else byDefault
  }

  /** What a sensor has set, and the defaults for the rest. */
  function InForce(given: Option<Params>, byDefault: Params): Params {
    match given
    case None => byDefault
    case Some(p) => Params(Setting(p.varNoiseFactor, byDefault.varNoiseFactor), Setting(p.varThreshold, byDefault.varThreshold),
                           Setting(p.confidenceDelta, byDefault.confidenceDelta))
  }

  /** The square of the steps of the sensor per g. */
  function Multiplier(range: nat): (m: nat)
    requires range > 0
    ensures m <= 0x4000_0000
  {
    var data1g := MOTION_SCALING_FACTOR / range;
    TimesMonotone(data1g, MOTION_SCALING_FACTOR, data1g);
    TimesMonotone(data1g, MOTION_SCALING_FACTOR, MOTION_SCALING_FACTOR);
    data1g * data1g
  }

  /** From (mm/s^2)^2 to squared steps of the sensor, in 64 bits. */
  function Scaled(value: nat, range: nat): nat
    requires range > 0
  {
    value * Multiplier(range) % UINT64 / DIVISOR
  }

  /** The variance of the noise of the sensor, which is given in millionths of g. */
  function VarNoise(rmsNoise: nat, factor: nat): nat {
    rmsNoise * rmsNoise * factor * 9604 / 100 / 1_0000_0000
  }

  /** The settings in force, written out. */
  lemma InForceIs(given: Option<Params>, byDefault: Params)
    ensures var p := InForce(given, byDefault);
            && p.varNoiseFactor == (if given.Some? && given.value.varNoiseFactor != 0 then given.value.varNoiseFactor
                                    else byDefault.varNoiseFactor)
            && p.varThreshold == (if given.Some? && given.value.varThreshold != 0 then given.value.varThreshold
                                  else byDefault.varThreshold)
            && p.confidenceDelta == (if given.Some? && given.value.confidenceDelta != 0 then given.value.confidenceDelta
                                     else byDefault.confidenceDelta)
  {
  }

  /** The threshold before it is scaled. */
  function NoisyThreshold(p: Params, rmsNoise: nat): nat {
    p.varThreshold + VarNoise(rmsNoise, p.varNoiseFactor)
  }

  /** The threshold and the band of the confidence. */
  function SettingsFor(p: Params, rmsNoise: nat, range: nat): (nat, nat)
    requires range > 0
  {
    (Scaled(NoisyThreshold(p, rmsNoise), range), Scaled(p.confidenceDelta, range))
  }

  /** The settings fit an `int`, and the band has some width. */
  predicate Settled(p: Params, rmsNoise: nat, range: nat)
    requires range > 0
  {
    && NoisyThreshold(p, rmsNoise) < INT_LIMIT && p.confidenceDelta < INT_LIMIT
    && p.confidenceDelta * Multiplier(range) >= DIVISOR
  }

  lemma ScaledIs(value: nat, range: nat)
    requires range > 0 && value < INT_LIMIT
    ensures Scaled(value, range) == value * Multiplier(range) / DIVISOR < 0x1_0000_0000_0000
    ensures Scaled(value, range) > 0 <==> value * Multiplier(range) >= DIVISOR
  {
    var m, product := Multiplier(range), value * Multiplier(range);
    TimesMonotone(value, INT_LIMIT, m);
    assert product <= INT_LIMIT * m;
    NoWrap(product);
    if product >= DIVISOR {
      QuotientAtLeastOne(product, DIVISOR);
    }
  }

  /** Settings that fit an `int` never wrap around when they are scaled. They leave a band of some width exactly if
      its scaled product reaches the divisor, and then the confidence never falls with more motion. */
  lemma ScaledSettings(threshold: nat, delta: nat, range: nat)
    requires range > 0 && threshold < INT_LIMIT && delta < INT_LIMIT
    ensures var t, d := Scaled(threshold, range), Scaled(delta, range);
            && (Usable(t, d) <==> delta * Multiplier(range) >= DIVISOR)
            && t + d < UINT64 && 200 * d < UINT64 && NeverFalls(t, d)
            && (delta <= threshold ==> d <= t)
  {
    ScaledIs(threshold, range);
    ScaledIs(delta, range);
    if delta <= threshold {
      TimesMonotone(delta, threshold, Multiplier(range));
      QuotientGrows(delta * Multiplier(range), threshold * Multiplier(range), DIVISOR);
    }
  }

  /** So with a band not wider than the threshold, noise included, the confidence is always the one meant. */
  lemma ScaledConfidence(variance: nat, threshold: nat, delta: nat, range: nat)
    requires range > 0 && threshold < INT_LIMIT && delta <= threshold && delta * Multiplier(range) >= DIVISOR
    requires variance < UINT64
    ensures Scaled(delta, range) > 0
    ensures Usable(Scaled(threshold, range), Scaled(delta, range))
    ensures Confidence(variance, Scaled(threshold, range), Scaled(delta, range))
         == Unwrapped(variance, Scaled(threshold, range), Scaled(delta, range))
  {
    ScaledSettings(threshold, delta, range);
    ConfidenceInBand(variance, Scaled(threshold, range), Scaled(delta, range));
  }

  // -------- the detector

  /** The variance of the last `n` samples, that of both axes together. */
  function WindowVariance(xs: seq<int>, ys: seq<int>, n: nat): int
    requires 0 < n <= |xs| && n <= |ys|
  {
    (ScaledVariance(xs[|xs| - n..]) + ScaledVariance(ys[|ys| - n..])) / n / n
  }

  lemma Regrouped(q: nat, s: nat, r: nat, n: nat)
    ensures (q * n + s) * n + r == q * (n * n) + (s * n + r)
    ensures (q + 1) * (n * n) == q * (n * n) + n * n && (s + 1) * n == s * n + n
  {
  }

  lemma DividedTwice(a: nat, n: nat, p: nat, r: nat, q: nat, s: nat)
    requires a == p * n + r && p == q * n + s && r < n && s < n
    ensures q * (n * n) <= a < (q + 1) * (n * n)
  {
    Regrouped(q, s, r, n);
    TimesMonotone(s + 1, n, n);
  }

  lemma QuotientTwice(a: nat, n: nat)
    requires n > 0
    ensures a / n / n * (n * n) <= a < (a / n / n + 1) * (n * n)
  {
    var p := a / n;
    DividedTwice(a, n, p, a % n, p / n, p % n);
  }

  /** It is the sum of the variances of both axes, cut off: `n` times the sum of squares less the square of the sum of
      each, over the square of `n`. */
  lemma WindowVarianceIs(xs: seq<int>, ys: seq<int>, n: nat)
    requires 0 < n <= |xs| && n <= |ys|
    ensures var wx, wy, variance := xs[|xs| - n..], ys[|ys| - n..], WindowVariance(xs, ys, n);
            var both := (n * SumOfSquares(wx) - Sum(wx) * Sum(wx)) + (n * SumOfSquares(wy) - Sum(wy) * Sum(wy));
            0 <= variance * (n * n) <= both < (variance + 1) * (n * n)
  {
    var wx, wy := xs[|xs| - n..], ys[|ys| - n..];
    VarianceBySums(wx);
    VarianceBySums(wy);
    QuotientIsNat(ScaledVariance(wx) + ScaledVariance(wy), n);
    QuotientTwice(ScaledVariance(wx) + ScaledVariance(wy), n);
  }

  function WindowSizeFor(odr: nat, maxWindow: nat): (n: nat)
    ensures n <= maxWindow
  {
    if odr / 1000 > maxWindow then maxWindow else odr / 1000
  }

  /** The samples of one second at a rate in mHz, as far as there is room for them. */
  lemma WindowSizeIs(odr: nat, maxWindow: nat)
    ensures var n := WindowSizeFor(odr, maxWindow);
            n <= maxWindow && 1000 * n <= odr && (odr < 1000 * (n + 1) || n == maxWindow)
  {
  }

  lemma QuotientIsNat(a: nat, n: nat)
    requires n > 0
    ensures a / n >= 0 && a / n / n >= 0
  {
  }

  /** The last `k` values were below the limit. */
  ghost predicate Quiet(confidences: seq<int>, k: nat, limit: int) {
    k <= |confidences| && forall i :: |confidences| - k <= i < |confidences| ==> confidences[i] < limit
  }

  class Detector {
    const x: Motion
    const y: Motion
    const maxWindow: nat
    /** The confidence above which a body is detected, below which it may be gone, and the number of
        windows that must pass then. */
    const onBodyConfidence: int
    const offBodyConfidence: int
    const stationaryDuration: nat
    var windowSize: nat
    var historyIdx: nat
    var historyInitialized: bool
    var enabled: bool
    var onBody: bool
    var stationaryTimeframe: nat
    var threshold: nat
    var delta: nat
    /** All samples since the last reset, and the confidence of every evaluation. */
    ghost var xs: seq<int>
    ghost var ys: seq<int>
    ghost var confidences: seq<int>

    /** The windows hold the samples since the last reset. */
    ghost predicate WindowsValid()
      reads this`windowSize, this`historyIdx, this`historyInitialized, this`xs, this`ys, x, y, x.history, y.history
    {
      && x != y && x.history != y.history && 0 < maxWindow == x.history.Length == y.history.Length
      && windowSize <= maxWindow
      && historyIdx < (if windowSize == 0 then 1 else windowSize)
      && x.Valid(windowSize, historyIdx, xs) && y.Valid(windowSize, historyIdx, ys) && |xs| == |ys|
      && (historyInitialized ==> 0 < windowSize <= |xs| + 1 && 0 < |xs|)
      && (!historyInitialized && windowSize > 0 ==> historyIdx == |xs| && (|xs| == 0 || |xs| + 1 < windowSize))
    }

    /** The time without motion is the number of last evaluations without confidence. */
    ghost predicate StateValid()
      reads this`threshold, this`delta, this`onBody, this`stationaryTimeframe, this`confidences
    {
      Usable(threshold, delta) && (onBody ==> Quiet(confidences, stationaryTimeframe, offBodyConfidence))
    }

    ghost predicate Valid()
      reads this, x, y, x.history, y.history
    {
      WindowsValid() && StateValid()
    }

    constructor (maxWindow: nat, onBodyConfidence: int, offBodyConfidence: int, stationaryDuration: nat,
                 windowSize: nat, threshold: nat, delta: nat)
      requires 0 < maxWindow && windowSize <= maxWindow && Usable(threshold, delta)
      ensures Valid() && fresh(x) && fresh(y) && fresh(x.history) && fresh(y.history) && xs == []
    {
      x := new Motion(maxWindow);
      y := new Motion(maxWindow);
      this.maxWindow := maxWindow;
      this.onBodyConfidence, this.offBodyConfidence := onBodyConfidence, offBodyConfidence;
      this.stationaryDuration := stationaryDuration;
      this.windowSize, historyIdx, historyInitialized := windowSize, 0, false;
      enabled, onBody, stationaryTimeframe := false, false, 0;
      this.threshold, this.delta := threshold, delta;
      xs, ys, confidences := [], [], [];
      new;
      x.Clear(windowSize);
      y.Clear(windowSize);
    }

    method ChangeState(onBody: bool)
      modifies this`onBody, this`stationaryTimeframe
      ensures this.onBody == onBody && stationaryTimeframe == if onBody then 0 else old(stationaryTimeframe)
    {
      this.onBody := onBody;
      if onBody {
        stationaryTimeframe := 0;
      }
    }

    method SetEnable(enable: bool)
      requires Valid()
      modifies this`enabled, this`onBody, this`stationaryTimeframe
      ensures Valid() && enabled == enable && onBody && stationaryTimeframe == 0
    {
      enabled := enable;
      ChangeState(true);
    }

    /** The samples of one second, as far as there is room for them. */
    method DetermineWindowSize(odr: nat)
      modifies this`windowSize
      ensures windowSize == WindowSizeFor(odr, maxWindow)
    {
      windowSize := odr / 1000;
      if windowSize > maxWindow {
        windowSize := maxWindow;
      }
    }

    // Empty windows of the size for this data rate.
    method ClearWindows(odr: nat)
      requires WindowsValid()
      modifies this`windowSize, this`historyIdx, this`historyInitialized, this`xs, this`ys, x, y, x.history, y.history
      ensures WindowsValid() && xs == [] && !historyInitialized && windowSize == WindowSizeFor(odr, maxWindow)
    {
      DetermineWindowSize(odr);
      x.Clear(windowSize);
      y.Clear(windowSize);
      historyIdx, historyInitialized := 0, false;
      xs, ys := [], [];
    }

    method DetermineThresholdScale(range: nat, rmsNoise: nat, p: Params)
      requires range > 0
      modifies this`threshold, this`delta
      ensures threshold == Scaled(NoisyThreshold(p, rmsNoise), range) && delta == Scaled(p.confidenceDelta, range)
      ensures var square, noise := (32768 / range) * (32768 / range), rmsNoise * rmsNoise * p.varNoiseFactor * 9604 / 100 / 100000000;
              && threshold == (p.varThreshold + noise) * square % 0x1_0000_0000_0000_0000 / 96040000
              && delta == p.confidenceDelta * square % 0x1_0000_0000_0000_0000 / 96040000
    {
      var varNoise := VarNoise(rmsNoise, p.varNoiseFactor);
      threshold := (p.varThreshold + varNoise) * Multiplier(range) % UINT64 / DIVISOR;
      delta := p.confidenceDelta * Multiplier(range) % UINT64 / DIVISOR;
    }

    /** `odr` is the data rate of the sensor in mHz, and `range` its range in g. */
    method Reset(odr: nat, range: nat, rmsNoise: nat, given: Option<Params>, byDefault: Params)
      requires Valid() && (odr > 0 ==> range > 0 && Settled(InForce(given, byDefault), rmsNoise, range))
      modifies this, x, y, x.history, y.history
      ensures Valid() && onBody && stationaryTimeframe == 0
      ensures (threshold, delta) == if odr > 0 then SettingsFor(InForce(given, byDefault), rmsNoise, range)
                                    else old((threshold, delta))
      ensures odr == 0 ==> xs == old(xs) && ys == old(ys) && historyInitialized == old(historyInitialized)
      ensures odr > 0 ==> xs == [] && !historyInitialized && windowSize == WindowSizeFor(odr, maxWindow)
    {
      if onBody {
        stationaryTimeframe := 0;
      } else {
        ChangeState(true);
      }
      if odr == 0 {
        return;
      }
      var p := InForce(given, byDefault);
      ScaledSettings(NoisyThreshold(p, rmsNoise), p.confidenceDelta, range);
      ClearWindows(odr);
      DetermineThresholdScale(range, rmsNoise, p);
    }

    method UpdateMotionVariance(sampleX: int, sampleY: int)
      requires WindowsValid()
      modifies this`historyIdx, this`xs, this`ys, x, y, x.history, y.history
      ensures xs == old(xs) + [sampleX] && ys == old(ys) + [sampleY]
      ensures historyIdx == Following(old(historyIdx), windowSize)
      ensures x.Valid(windowSize, historyIdx, xs) && y.Valid(windowSize, historyIdx, ys)
    {
      x.Update(windowSize, historyIdx, sampleX, xs);
      y.Update(windowSize, historyIdx, sampleY, ys);
      historyIdx := if historyIdx + 1 >= windowSize then 0 else historyIdx + 1;
      xs, ys := xs + [sampleX], ys + [sampleY];
    }

    /** The variance of the last samples of both axes; both windows are full of samples by now. */
    method GetMotionVariance() returns (variance: nat)
      requires 0 < windowSize <= |xs| == |ys|
      requires x.Valid(windowSize, historyIdx, xs) && y.Valid(windowSize, historyIdx, ys)
      ensures variance == WindowVariance(xs, ys, windowSize)
    {
      VarianceBySums(LastOf(xs, windowSize));
      VarianceBySums(LastOf(ys, windowSize));
      QuotientIsNat(x.n2Variance + y.n2Variance, windowSize);
      variance := (x.n2Variance + y.n2Variance) / windowSize / windowSize;
    }

    /** What the states before and after an evaluation have to do with the confidences. */
    ghost predicate Justified(wasOnBody: bool, onBody: bool, confidences: seq<int>, n: nat) {
      && (!wasOnBody && onBody ==> confidences != [] && confidences[|confidences| - 1] > onBodyConfidence)
      && (wasOnBody && !onBody ==> Quiet(confidences, stationaryDuration * n, offBodyConfidence))
    }

    /** The next state and the time without motion. */
    function NextState(onBody: bool, timeframe: nat, confidence: int, n: nat): (bool, nat) {
      if onBody then
        var quiet := if confidence >= offBodyConfidence then 0 else timeframe + 1;
        (quiet < stationaryDuration * n, quiet)
      else if confidence > onBodyConfidence then (true, 0)
      else (false, timeframe)
    }

    /** The state behind a number of evaluations. */
    function StatesAfter(onBody: bool, timeframe: nat, confidences: seq<int>, n: nat): (bool, nat) {
      if confidences == [] then (onBody, timeframe)
      else
        var k := |confidences| - 1;
        var (before, quiet) := StatesAfter(onBody, timeframe, confidences[..k], n);
        NextState(before, quiet, confidences[k], n)
    }

    /** From motion on, a body is there for so many windows of evaluations without motion, and gone then. */
    lemma {:induction false} GoneAfterQuiet(confidences: seq<int>, n: nat)
      requires |confidences| <= stationaryDuration * n
      requires forall i :: 0 <= i < |confidences| ==> confidences[i] < offBodyConfidence
      ensures StatesAfter(true, 0, confidences, n)
           == (|confidences| == 0 || |confidences| < stationaryDuration * n, |confidences|)
      decreases |confidences|
    {
      if confidences != [] {
        GoneAfterQuiet(confidences[..|confidences| - 1], n);
      }
    }

    /** An evaluation with the last one of the confidences has led here. */
    ghost predicate Evaluated(wasOnBody: bool, wasTimeframe: nat, n: nat)
      reads this`onBody, this`stationaryTimeframe, this`confidences
    {
      && confidences != []
      && (onBody, stationaryTimeframe) == NextState(wasOnBody, wasTimeframe, confidences[|confidences| - 1], n)
      && Justified(wasOnBody, onBody, confidences, n)
    }

    method Evaluate(variance: nat)
      requires StateValid()
      modifies this`onBody, this`stationaryTimeframe, this`confidences
      ensures StateValid() && confidences == old(confidences) + [Confidence(variance, threshold, delta)]
      ensures Evaluated(old(onBody), old(stationaryTimeframe), windowSize)
      ensures var confidence := Confidence(variance, threshold, delta);
              if old(onBody) then
                && stationaryTimeframe == (if confidence >= offBodyConfidence then 0 else old(stationaryTimeframe) + 1)
                && (onBody <==> stationaryTimeframe < stationaryDuration * windowSize)
                && stationaryTimeframe <= |confidences|
                && (forall i :: |confidences| - stationaryTimeframe <= i < |confidences| ==> confidences[i] < offBodyConfidence)
              else
                && (onBody <==> confidence > onBodyConfidence)
                && stationaryTimeframe == if onBody then 0 else old(stationaryTimeframe)
    {
      var confidence := Confidence(variance, threshold, delta);
      confidences := confidences + [confidence];
      if onBody {
        stationaryTimeframe := stationaryTimeframe + 1;
        if confidence >= offBodyConfidence {
          stationaryTimeframe := 0;
        }
        if stationaryTimeframe >= stationaryDuration * windowSize {
          ChangeState(false);
        }
      } else if confidence > onBodyConfidence {
        ChangeState(true);
      }
    }

    /** Takes a sample; the variance is used only once the window holds that many samples. */
    method Sample(sampleX: int, sampleY: int) returns (ready: bool, variance: nat)
      requires WindowsValid()
      modifies this`historyIdx, this`historyInitialized, this`xs, this`ys, x, y, x.history, y.history
      ensures WindowsValid() && ready == old(historyInitialized)
      ensures xs == old(xs) + [sampleX] && ys == old(ys) + [sampleY]
      ensures ready ==> 0 < windowSize <= |xs| == |ys| && variance == WindowVariance(xs, ys, windowSize)
    {
      ready, variance := historyInitialized, 0;
      UpdateMotionVariance(sampleX, sampleY);
      if !historyInitialized {
        if historyIdx == windowSize - 1 {
          historyInitialized := true;
        }
        return;
      }
      variance := GetMotionVariance();
    }

    /** One sample of each axis; a body is taken to be gone only after so many evaluations without
        confidence in motion. */
    method BodyDetect(sampleX: int, sampleY: int) returns (evaluated: bool, variance: nat)
      requires Valid()
      modifies this, x, y, x.history, y.history
      ensures Valid() && unchanged(this`windowSize, this`threshold, this`delta, this`enabled)
      ensures evaluated == (enabled && old(historyInitialized))
      ensures enabled ==> xs == old(xs) + [sampleX] && ys == old(ys) + [sampleY]
      ensures evaluated ==> 0 < windowSize <= |xs| == |ys| && variance == WindowVariance(xs, ys, windowSize)
      ensures evaluated ==> confidences == old(confidences) + [Confidence(variance, threshold, delta)]
      ensures evaluated ==> Evaluated(old(onBody), old(stationaryTimeframe), windowSize)
      ensures !evaluated ==> unchanged(this`onBody, this`stationaryTimeframe, this`confidences)
    {
      evaluated, variance := false, 0;
      if !enabled {
        return;
      }
      evaluated, variance := Sample(sampleX, sampleY);
      assert StateValid();
      if evaluated {
        Evaluate(variance);
        assert WindowsValid();
      }
    }
  }
}
