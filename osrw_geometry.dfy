// AbstractOSRW: the lambda and dU/dL bin geometry chosen by the constructor,
// the sample-to-bin maps, and the step-count frequencies.
module OsrwGeometry {
  import opened JavaLang

  /** Statistics are cleared once a walker passes this lambda (when requested). */
  const LAMBDA_RESET_VALUE: real := 0.99
  const DEFAULT_BIAS_CUTOFF: int := 5
  const DEFAULT_BIAS_MAG: real := 0.05
  const DEFAULT_LAMBDA_BIN_WIDTH: real := 0.005
  const DEFAULT_FLAMBDA_BIN_WIDTH: real := 2.0
  const DEFAULT_COUNT_INTERVAL: int := 10
  const DEFAULT_PRINT_FREQUENCY: int := 100
  const DEFAULT_SAVE_FREQUENCY: int := 1000
  const MAX_LAMBDA_BIN_WIDTH: real := 0.1
  const INITIAL_FLAMBDA_BINS: int := 401

  function MinReal(a: real, b: real): real { if a <= b then a else b }

  /** The lambda axis: `lambdaBins` bins of width `dL`, the first centred on 0. */
  datatype LambdaAxis = LambdaAxis(lambdaBins: int, dL: real, dL_2: real, minLambda: real)

  /** The dU/dL axis: `FLambdaBins` bins of width `dFL` covering [minFLambda, maxFLambda). */
  datatype FLambdaAxis = FLambdaAxis(FLambdaBins: int, minFLambda: real, maxFLambda: real, dFL_2: real)

  lemma ReciprocalAtLeastTen(w: real)
    requires 0.0 < w <= MAX_LAMBDA_BIN_WIDTH
    ensures 1.0 / w >= 10.0
  {
    assert (1.0 / w) * w == 1.0;
  }

  /** Lambda bins of width dL whose centres run from 0 to 1. */
  predicate SpansUnit(dL: real, lambdaBins: int)
  {
    dL * (lambdaBins - 1) as real == 1.0
  }

  /** maxFLambda is the upper edge of the last of `bins` dU/dL bins of width
      dFL above minFLambda. */
  predicate UpperEdge(minFLambda: real, maxFLambda: real, bins: int, dFL: real)
  {
    maxFLambda == minFLambda + bins as real * dFL
  }

  /** Lowering the minimum by `off` bins while adding `off` bins keeps the
      upper edge where it was. */
  lemma UpperEdgeLowered(minFLambda: real, maxFLambda: real, bins: int, dFL: real, off: int)
    requires UpperEdge(minFLambda, maxFLambda, bins, dFL)
    ensures UpperEdge(minFLambda - off as real * dFL, maxFLambda, bins + off, dFL)
  {
    assert (bins + off) as real * dFL == bins as real * dFL + off as real * dFL;
  }

  /** The constructor's lambda axis for a requested bin width: the width is capped
      at 0.1, the bin count is the truncated reciprocal bumped to the next odd
      number, and the width is then recomputed so that the first bin is centred
      on lambda = 0 and the last on lambda = 1. */
  function LambdaAxisFor(requestedWidth: real): (a: LambdaAxis)
    requires requestedWidth > 0.0
    ensures a.lambdaBins >= 11 && a.lambdaBins % 2 == 1
    ensures a.dL > 0.0 && SpansUnit(a.dL, a.lambdaBins)
    ensures a.dL <= MAX_LAMBDA_BIN_WIDTH
    ensures a.dL_2 == a.dL / 2.0 && a.minLambda == -a.dL_2
    ensures var w := MinReal(requestedWidth, MAX_LAMBDA_BIN_WIDTH);
      1.0 / w < INT_MAX as real ==> (a.lambdaBins - 1) as real <= 1.0 / w < (a.lambdaBins + 1) as real
  {
    var w := MinReal(requestedWidth, MAX_LAMBDA_BIN_WIDTH);
    ReciprocalAtLeastTen(w);
    var n := DoubleToInt(1.0 / w);
    var bins := if n % 2 == 0 then n + 1 else n;
    var dL := 1.0 / (bins - 1) as real;
    LambdaAxisFacts(w, n, bins, dL);
    LambdaAxis(bins, dL, dL / 2.0, -(dL / 2.0))
  }

  /** The bin count is odd and at least 11, within one of 1/w, and the
      recomputed width spans [0, 1] in bins - 1 steps of at most 0.1. */
  lemma LambdaAxisFacts(w: real, n: int, bins: int, dL: real)
    requires 0.0 < w <= MAX_LAMBDA_BIN_WIDTH && n == DoubleToInt(1.0 / w)
    requires bins == (if n % 2 == 0 then n + 1 else n) && bins > 1 && dL == 1.0 / (bins - 1) as real
    ensures bins >= 11 && bins % 2 == 1
    ensures dL > 0.0 && SpansUnit(dL, bins) && dL <= MAX_LAMBDA_BIN_WIDTH
    ensures 1.0 / w < INT_MAX as real ==> (bins - 1) as real <= 1.0 / w < (bins + 1) as real
  {
    ReciprocalAtLeastTen(w);
    assert n >= 10;
    var m := (bins - 1) as real;
    assert m >= 10.0;
    assert dL * m == 1.0;
    assert dL <= MAX_LAMBDA_BIN_WIDTH by {
      if dL > MAX_LAMBDA_BIN_WIDTH { ScaleStrict(MAX_LAMBDA_BIN_WIDTH, dL, m); }
    }
  }

  /** The constructor's dU/dL axis: 401 bins placed symmetrically about 0, so that
      the central bin (index 200) is centred on dU/dL = 0. */
  function InitialFLambdaAxis(dFL: real): (a: FLambdaAxis)
    ensures a.FLambdaBins == INITIAL_FLAMBDA_BINS
    ensures UpperEdge(a.minFLambda, a.maxFLambda, a.FLambdaBins, dFL)
    ensures a.maxFLambda == -a.minFLambda
    ensures a.minFLambda + 200.0 * dFL + a.dFL_2 == 0.0
  {
    var minF := -(dFL * INITIAL_FLAMBDA_BINS as real) / 2.0;
    FLambdaAxis(INITIAL_FLAMBDA_BINS, minF, minF + INITIAL_FLAMBDA_BINS as real * dFL, dFL / 2.0)
  }

  lemma QuotientAtLeastOne(x: real, d: real)
    requires d > 0.0 && x >= d
    ensures x / d >= 1.0
  {
    assert (x / d) * d == x;
  }

  /** A step count derived from an interval in picoseconds and a time step in
      femtoseconds: the default unless the interval is at least one step, else the
      truncated number of steps in the interval (so never below 1). */
  function FrequencyFor(interval: real, dtFemtoseconds: real, default: int): (f: int)
    requires dtFemtoseconds > 0.0
    ensures interval < dtFemtoseconds * 0.001 ==> f == default
    ensures interval >= dtFemtoseconds * 0.001 ==> 1 <= f <= INT_MAX
    ensures interval >= dtFemtoseconds * 0.001 && interval / (dtFemtoseconds * 0.001) <= INT_MAX as real ==>
      f == (interval / (dtFemtoseconds * 0.001)).Floor
  {
    var dt := dtFemtoseconds * 0.001;
    if interval >= dt then
      QuotientAtLeastOne(interval, dt);
      DoubleToInt(interval / dt)
    else default
  }

  function PrintFrequency(printInterval: real, dtFemtoseconds: real): (f: int)
    requires dtFemtoseconds > 0.0
    ensures f >= 1
    ensures printInterval < dtFemtoseconds * 0.001 ==> f == DEFAULT_PRINT_FREQUENCY
    ensures printInterval >= dtFemtoseconds * 0.001 && printInterval / (dtFemtoseconds * 0.001) <= INT_MAX as real ==>
      f == (printInterval / (dtFemtoseconds * 0.001)).Floor
  {
    FrequencyFor(printInterval, dtFemtoseconds, DEFAULT_PRINT_FREQUENCY)
  }

  function SaveFrequency(saveInterval: real, dtFemtoseconds: real): (f: int)
    requires dtFemtoseconds > 0.0
    ensures f >= 1
    ensures saveInterval < dtFemtoseconds * 0.001 ==> f == DEFAULT_SAVE_FREQUENCY
    ensures saveInterval >= dtFemtoseconds * 0.001 && saveInterval / (dtFemtoseconds * 0.001) <= INT_MAX as real ==>
      f == (saveInterval / (dtFemtoseconds * 0.001)).Floor
  {
    FrequencyFor(saveInterval, dtFemtoseconds, DEFAULT_SAVE_FREQUENCY)
  }

  /** k = floor(x / d) places x in [k*d, (k+1)*d). */
  lemma FloorScaled(x: real, d: real)
    requires d > 0.0
    ensures ((x / d).Floor as real) * d <= x < ((x / d).Floor as real + 1.0) * d
  {
    var q := x / d;
    assert q * d == x;
    var k := q.Floor as real;
    assert k <= q < k + 1.0;
    ScaleMonotone(k, q, d);
    ScaleStrict(q, k + 1.0, d);
    assert x < (k + 1.0) * d;
  }

  lemma ScaleMonotone(a: real, b: real, d: real)
    requires d > 0.0 && a <= b
    ensures a * d <= b * d
  {
  }

  lemma ScaleStrict(a: real, b: real, d: real)
    requires d > 0.0 && a < b
    ensures a * d < b * d
  {
  }

  /** `binForLambda`: the lambda bin holding a sample, clamped into [0, lambdaBins).
      (The Java int cast saturates, which the clamp makes irrelevant.) */
  function BinForLambda(lambda: real, minLambda: real, dL: real, lambdaBins: int): (bin: int)
    requires dL > 0.0 && lambdaBins >= 1
    ensures 0 <= bin < lambdaBins
  {
    var raw := ((lambda - minLambda) / dL).Floor;
    if raw < 0 then 0 else if raw >= lambdaBins then lambdaBins - 1 else raw
  }

  /** The lambda bin's lower edge is at or below lambda unless it is the clamped
      first bin, and its upper edge lies above lambda unless it is the clamped
      last bin. */
  lemma BinForLambdaEdges(lambda: real, minLambda: real, dL: real, lambdaBins: int)
    requires dL > 0.0 && lambdaBins >= 1
    ensures var bin := BinForLambda(lambda, minLambda, dL, lambdaBins);
      (bin > 0 ==> minLambda + bin as real * dL <= lambda) &&
      (bin < lambdaBins - 1 ==> lambda < minLambda + (bin + 1) as real * dL)
  {
    var raw := ((lambda - minLambda) / dL).Floor;
    FloorScaled(lambda - minLambda, dL);
    var bin := BinForLambda(lambda, minLambda, dL, lambdaBins);
    if bin > 0 && raw >= lambdaBins { ScaleMonotone(bin as real, raw as real, dL); }
    if bin < lambdaBins - 1 && raw < 0 { ScaleMonotone(raw as real + 1.0, (bin + 1) as real, dL); }
  }

  /** `binForFLambda`: the dU/dL bin holding a sample; a sample exactly on the upper
      edge of the axis goes into the last bin. A sample inside
      [minFLambda, minFLambda + FLambdaBins*dFL] always gets a bin of the axis.
      Outside it the floor is returned unbounded, where Java's int cast would
      saturate; callers grow the axis first, so that case is never used. */
  function BinForFLambda(dEdLambda: real, minFLambda: real, dFL: real, FLambdaBins: int): (bin: int)
    requires dFL > 0.0 && 1 <= FLambdaBins
    ensures minFLambda <= dEdLambda <= minFLambda + FLambdaBins as real * dFL ==>
      0 <= bin < FLambdaBins
  {
    var raw := ((dEdLambda - minFLambda) / dFL).Floor;
    if minFLambda <= dEdLambda <= minFLambda + FLambdaBins as real * dFL then
      FloorInRange(dEdLambda - minFLambda, dFL, FLambdaBins);
      if raw == FLambdaBins then FLambdaBins - 1 else raw
    else if raw == FLambdaBins then FLambdaBins - 1 else raw
  }

  /** Inside the axis, the dU/dL bin's lower edge is at or below the sample
      and its upper edge lies above it unless the sample sits on the axis'
      upper edge. */
  lemma BinForFLambdaEdges(dEdLambda: real, minFLambda: real, dFL: real, FLambdaBins: int)
    requires dFL > 0.0 && 1 <= FLambdaBins
    requires minFLambda <= dEdLambda <= minFLambda + FLambdaBins as real * dFL
    ensures var bin := BinForFLambda(dEdLambda, minFLambda, dFL, FLambdaBins);
      minFLambda + bin as real * dFL <= dEdLambda &&
      (dEdLambda < minFLambda + (bin + 1) as real * dFL || bin == FLambdaBins - 1)
  {
    FloorInAxis(dEdLambda - minFLambda, dFL, FLambdaBins);
  }

  /** The range half of FloorInAxis alone, so that the bin function's body
      carries no products into its callers. */
  lemma FloorInRange(x: real, d: real, n: int)
    requires d > 0.0 && 0.0 <= x <= n as real * d
    ensures 0 <= (x / d).Floor <= n
  {
    FloorInAxis(x, d, n);
  }

  /** An offset x inside an axis of n bins of width d has a floor bin in 0..n
      whose lower edge is at or below x; at most n only when x is the axis end. */
  lemma FloorInAxis(x: real, d: real, n: int)
    requires d > 0.0 && 0.0 <= x <= n as real * d
    ensures var k := (x / d).Floor;
      0 <= k <= n && k as real * d <= x && x < (k + 1) as real * d &&
      (k == n ==> (n - 1) as real * d <= x)
  {
    var k := (x / d).Floor;
    FloorScaled(x, d);
    if k < 0 { ScaleMonotone(k as real + 1.0, 0.0, d); }
    if k > n { ScaleMonotone(n as real + 1.0, k as real, d); }
    if k == n { ScaleMonotone((n - 1) as real, n as real, d); }
  }

}
