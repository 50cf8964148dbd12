// How TransitionTemperedOSRW folds walkers' counts into its recursion kernel:
// the dU/dL axis first grows, in 100-bin steps, until it covers the count,
// then the count's weight lands in exactly one cell. A weight below 1 latches
// tempering on, and a count past lambda 0.99 clears the kernel once when a
// statistics reset is pending. These are the value-level specifications the
// walker class is proved against.
module OsrwMerge {
  import opened JavaLang
  import opened OsrwGeometry
  import opened OsrwKernel

  /** One walker's count as exchanged between walkers: lambda, dU/dL and the
      walker's tempering weight. */
  datatype Count = Count(lambda: real, dUdL: real, weight: real)

  /** What the receive thread takes off the wire: a count, or the message of
      three NaNs that tells it to stop. */
  datatype Message = Terminate | Received(count: Count)

  /** The part of a walker that merging reads and writes. */
  datatype Walker = Walker(g: Geometry, K: Kernel, tempering: bool, resetStatistics: bool)

  /** The upper end of the dU/dL axis. */
  function MaxFLambda(g: Geometry): real
  {
    g.minFLambda + g.FLambdaBins as real * g.dFL
  }

  predicate Covers(g: Geometry, x: real)
  {
    g.minFLambda <= x <= MaxFLambda(g)
  }

  // ------------------------------------------------ checkRecursionKernelSize

  lemma BelowQuotient(a: real, y: real, d: real)
    requires d > 0.0 && a * d < y
    ensures a < y / d
  {
    var q := y / d;
    assert q * d == y;
    if a >= q { ScaleMonotone(q, a, d); }
  }

  /** The bin count the upward growth loop settles on, starting from `bins`:
      add 100 bins at a time until the axis reaches x. */
  function UpperBins(x: real, minFLambda: real, dFL: real, bins: int): (r: int)
    requires dFL > 0.0
    decreases ((x - minFLambda) / dFL).Floor - bins
    ensures r >= bins
  {
    if minFLambda + bins as real * dFL < x then
      BelowQuotient(bins as real, x - minFLambda, dFL);
      UpperBins(x, minFLambda, dFL, bins + 100)
    else bins
  }

  /** The upward loop stops at the first multiple of 100 bins above `bins`
      whose upper edge reaches x. */
  lemma {:induction false} UpperBinsFacts(x: real, minFLambda: real, dFL: real, bins: int)
    requires dFL > 0.0
    decreases ((x - minFLambda) / dFL).Floor - bins
    ensures var r := UpperBins(x, minFLambda, dFL, bins);
      (r - bins) % 100 == 0 &&
      x <= minFLambda + r as real * dFL &&
      (r > bins ==> minFLambda + (r - 100) as real * dFL < x)
  {
    if minFLambda + bins as real * dFL < x {
      BelowQuotient(bins as real, x - minFLambda, dFL);
      UpperBinsFacts(x, minFLambda, dFL, bins + 100);
    }
  }

  /** The offset the downward growth loop settles on, starting from `offset`:
      add 100 bins at a time until the lowered axis reaches x. */
  function LowerOffset(x: real, minFLambda: real, dFL: real, offset: int): (r: int)
    requires dFL > 0.0
    decreases ((minFLambda - x) / dFL).Floor - offset
    ensures r >= offset
  {
    if x < minFLambda - offset as real * dFL then
      BelowQuotient(offset as real, minFLambda - x, dFL);
      LowerOffset(x, minFLambda, dFL, offset + 100)
    else offset
  }

  /** The downward loop stops at the first multiple of 100 bins beyond
      `offset` whose lowered minimum reaches x. */
  lemma {:induction false} LowerOffsetFacts(x: real, minFLambda: real, dFL: real, offset: int)
    requires dFL > 0.0
    decreases ((minFLambda - x) / dFL).Floor - offset
    ensures var r := LowerOffset(x, minFLambda, dFL, offset);
      (r - offset) % 100 == 0 &&
      minFLambda - r as real * dFL <= x &&
      (r > offset ==> x < minFLambda - (r - 100) as real * dFL)
  {
    if x < minFLambda - offset as real * dFL {
      BelowQuotient(offset as real, minFLambda - x, dFL);
      LowerOffsetFacts(x, minFLambda, dFL, offset + 100);
    }
  }

  /** How many empty bins checkRecursionKernelSize adds below and above. */
  datatype Growth = Growth(below: nat, above: nat)

  function GrowthFor(g: Geometry, x: real): Growth
    requires g.dFL > 0.0
  {
    if x > MaxFLambda(g) then
      var r := UpperBins(x, g.minFLambda, g.dFL, g.FLambdaBins);
      Growth(0, r - g.FLambdaBins)
    else if x < g.minFLambda then Growth(LowerOffset(x, g.minFLambda, g.dFL, 100), 0)
    else Growth(0, 0)
  }

  /** What checkRecursionKernelSize(x) does to the axis and the kernel. */
  function Resize(w: Walker, x: real): (r: Walker)
    requires Fits(w.g, w.K)
    ensures Fits(r.g, r.K) && Covers(r.g, x)
  {
    var gr := GrowthFor(w.g, x);
    GrowthCovers(w.g, x);
    EmbedFits(w.g, w.K, gr.below, gr.above);
    w.(g := Grown(w.g, gr.below, gr.above), K := Embed(w.K, gr.below, gr.above))
  }

  /** The growth is nothing exactly when x is already on the axis. Above the
      axis, the count grows by the fewest positive multiples of 100 that reach x
      and the minimum stays; below it, the minimum drops by the fewest positive
      multiples of 100 bins that reach x and the maximum stays. */
  lemma GrowthForFacts(g: Geometry, x: real)
    requires g.dFL > 0.0 && g.FLambdaBins >= 0
    ensures var gr := GrowthFor(g, x); var g' := Grown(g, gr.below, gr.above);
      (gr == Growth(0, 0) <==> Covers(g, x)) &&
      Covers(g', x) &&
      gr.below % 100 == 0 && gr.above % 100 == 0 &&
      (x > MaxFLambda(g) ==>
         gr.below == 0 && gr.above >= 100 && g'.minFLambda == g.minFLambda &&
         MaxFLambda(g') - 100.0 * g.dFL < x) &&
      (x < g.minFLambda ==>
         gr.above == 0 && gr.below >= 100 && MaxFLambda(g') == MaxFLambda(g) &&
         x < g'.minFLambda + 100.0 * g.dFL)
  {
    assert MaxFLambda(g) >= g.minFLambda by { ScaleMonotone(0.0, g.FLambdaBins as real, g.dFL); }
    if x > MaxFLambda(g) {
      GrowthAboveFacts(g, x);
    } else if x < g.minFLambda {
      GrowthBelowFacts(g, x);
    }
  }

  /** The upward half of GrowthForFacts. */
  lemma GrowthAboveFacts(g: Geometry, x: real)
    requires g.dFL > 0.0 && g.FLambdaBins >= 0 && x > MaxFLambda(g)
    ensures var gr := GrowthFor(g, x); var g' := Grown(g, gr.below, gr.above);
      Covers(g', x) && gr.below == 0 && gr.above >= 100 && gr.above % 100 == 0 &&
      g'.minFLambda == g.minFLambda && MaxFLambda(g') - 100.0 * g.dFL < x
  {
    var d := g.dFL;
    var r := UpperBins(x, g.minFLambda, d, g.FLambdaBins);
    UpperBinsFacts(x, g.minFLambda, d, g.FLambdaBins);
    var g' := Grown(g, 0, r - g.FLambdaBins);
    assert r > g.FLambdaBins;
    assert MaxFLambda(g') == g.minFLambda + r as real * d;
    assert (r - 100) as real * d == r as real * d - 100.0 * d;
  }

  /** The downward half of GrowthForFacts. */
  lemma GrowthBelowFacts(g: Geometry, x: real)
    requires g.dFL > 0.0 && g.FLambdaBins >= 0 && x < g.minFLambda
    ensures var gr := GrowthFor(g, x); var g' := Grown(g, gr.below, gr.above);
      Covers(g', x) && gr.above == 0 && gr.below >= 100 && gr.below % 100 == 0 &&
      MaxFLambda(g') == MaxFLambda(g) && x < g'.minFLambda + 100.0 * g.dFL
  {
    var d := g.dFL;
    assert MaxFLambda(g) >= g.minFLambda by { ScaleMonotone(0.0, g.FLambdaBins as real, d); }
    var off := LowerOffset(x, g.minFLambda, d, 100);
    LowerOffsetFacts(x, g.minFLambda, d, 100);
    var g' := Grown(g, off, 0);
    assert GrowthFor(g, x) == Growth(off, 0);
    assert (g.FLambdaBins + off) as real * d == g.FLambdaBins as real * d + off as real * d;
    assert (off - 100) as real * d == off as real * d - 100.0 * d;
    assert MaxFLambda(g') == MaxFLambda(g);
    assert g'.minFLambda <= x;
  }

  /** After the growth the axis covers x. */
  lemma GrowthCovers(g: Geometry, x: real)
    requires g.dFL > 0.0 && g.FLambdaBins >= 0
    ensures var gr := GrowthFor(g, x); Covers(Grown(g, gr.below, gr.above), x)
  {
    GrowthForFacts(g, x);
  }

  /** Growing never loses any part of the axis. */
  lemma ResizeExtends(g: Geometry, x: real, y: real)
    requires g.dFL > 0.0 && Covers(g, y)
    ensures var gr := GrowthFor(g, x); Covers(Grown(g, gr.below, gr.above), y)
  {
    var gr := GrowthFor(g, x);
    var g' := Grown(g, gr.below, gr.above);
    var d := g.dFL;
    ScaleMonotone(0.0, gr.below as real, d);
    assert (g.FLambdaBins + gr.below + gr.above) as real * d
        == g.FLambdaBins as real * d + gr.below as real * d + gr.above as real * d;
    ScaleMonotone(0.0, gr.above as real, d);
  }

  /** Above the axis the growth is the fewest 100-bin steps on top that reach
      x, and nothing below. */
  lemma GrowthAbove(g: Geometry, x: real)
    requires g.dFL > 0.0 && x > MaxFLambda(g)
    ensures GrowthFor(g, x) == Growth(0, UpperBins(x, g.minFLambda, g.dFL, g.FLambdaBins) - g.FLambdaBins)
  {
  }

  /** Below the axis the growth is the fewest 100-bin steps underneath that
      reach x, and nothing on top. */
  lemma GrowthBelow(g: Geometry, x: real)
    requires g.dFL > 0.0 && g.FLambdaBins >= 0 && x < g.minFLambda
    ensures GrowthFor(g, x) == Growth(LowerOffset(x, g.minFLambda, g.dFL, 100), 0)
  {
    GrowthForFacts(g, x);
  }

  /** A value already on the axis leaves walker, axis and kernel as they are. */
  lemma ResizeCovered(w: Walker, x: real)
    requires Fits(w.g, w.K) && Covers(w.g, x)
    ensures Resize(w, x) == w
  {
    GrowthForFacts(w.g, x);
    forall i | 0 <= i < |w.K| ensures Embed(w.K, 0, 0)[i] == w.K[i] {
      assert Zeros(0) + w.K[i] + Zeros(0) == w.K[i];
    }
  }

  /** Growing the axis changes no lambda bin's statistics, so neither the free
      energy nor the minimum bias that updateFLambda computes. */
  lemma ResizeKeepsStats(w: Walker, x: real, Exp: real -> real, offsets: seq<real>, beta: real)
    requires Fits(w.g, w.K) && |offsets| == w.g.lambdaBins
    ensures BinStats(Resize(w, x).g, Resize(w, x).K, Exp, offsets, beta) == BinStats(w.g, w.K, Exp, offsets, beta)
    ensures FreeEnergy(Resize(w, x).g, Resize(w, x).K, Exp, offsets, beta) == FreeEnergy(w.g, w.K, Exp, offsets, beta)
    ensures MinBias(Resize(w, x).g, Resize(w, x).K, Exp, offsets, beta) == MinBias(w.g, w.K, Exp, offsets, beta)
  {
    var gr := GrowthFor(w.g, x);
    UpdateFLambdaEmbed(w.g, w.K, Exp, gr.below, gr.above, offsets, beta);
  }

  // ---------------------------------------------------------------- merging

  /** One count added to a walker whose axis already covers it: the tempering
      latch, the one-time statistics reset, and the weight added to its cell. */
  function AddCount(w: Walker, c: Count): Walker
    requires Fits(w.g, w.K) && Covers(w.g, c.dUdL)
  {
    var cleared := w.resetStatistics && c.lambda > LAMBDA_RESET_VALUE;
    var base := if cleared then ZeroKernel(w.g.lambdaBins, w.g.FLambdaBins) else w.K;
    var l := BinForLambda(c.lambda, w.g.minLambda, w.g.dL, w.g.lambdaBins);
    var f := BinForFLambda(c.dUdL, w.g.minFLambda, w.g.dFL, w.g.FLambdaBins);
    Walker(w.g, AddWeight(base, l, f, c.weight), w.tempering || c.weight < 1.0, w.resetStatistics && !cleared)
  }

  /** AddCount taken apart: a walker with the same axes, the weight added to
      the count's cell of the (possibly cleared) kernel, and the latch and
      reset flags updated is the walker AddCount returns. */
  lemma AddCountIs(w: Walker, c: Count, cleared: bool, base: Kernel, r: Walker)
    requires Fits(w.g, w.K) && Covers(w.g, c.dUdL)
    requires cleared == (w.resetStatistics && c.lambda > LAMBDA_RESET_VALUE)
    requires base == if cleared then ZeroKernel(w.g.lambdaBins, w.g.FLambdaBins) else w.K
    requires r.g == w.g && r.tempering == (w.tempering || c.weight < 1.0)
    requires r.resetStatistics == (w.resetStatistics && !cleared)
    requires r.K == AddWeight(base, BinForLambda(c.lambda, w.g.minLambda, w.g.dL, w.g.lambdaBins),
      BinForFLambda(c.dUdL, w.g.minFLambda, w.g.dFL, w.g.FLambdaBins), c.weight)
    ensures AddCount(w, c) == r
  {
  }

  /** One pass of the receive thread's loop for a count. */
  function MergeStep(w: Walker, c: Count): (r: Walker)
    requires Fits(w.g, w.K)
    ensures Fits(r.g, r.K) && Covers(r.g, c.dUdL)
  {
    AddCount(Resize(w, c.dUdL), c)
  }

  /** The receive thread's loop over the messages it takes, up to the first
      termination message. */
  function ReceiveAll(w: Walker, msgs: seq<Message>): (r: Walker)
    requires Fits(w.g, w.K)
    ensures Fits(r.g, r.K)
    decreases |msgs|, 0
  {
    if |msgs| == 0 then w
    else match msgs[0]
      case Terminate => w
      case Received(c) => ReceiveCount(w, c, msgs[1..])
  }

  /** The receive loop after it takes the count c: merge it, then go on with
      the remaining messages. */
  function ReceiveCount(w: Walker, c: Count, rest: seq<Message>): (r: Walker)
    requires Fits(w.g, w.K)
    ensures Fits(r.g, r.K)
    decreases |rest|, 1
  {
    ReceiveAll(MergeStep(w, c), rest)
  }

  /** A merge step never turns tempering off, and keeps the lambda bins. */
  lemma MergeStepLatches(w: Walker, c: Count)
    requires Fits(w.g, w.K)
    ensures w.tempering ==> MergeStep(w, c).tempering
    ensures MergeStep(w, c).g.lambdaBins == w.g.lambdaBins
  {
  }

  /** The number of messages the receive thread handles before it stops. */
  function Handled(msgs: seq<Message>): (n: nat)
    ensures n <= |msgs|
    ensures forall i :: 0 <= i < n ==> msgs[i].Received?
    ensures n < |msgs| ==> msgs[n] == Terminate
  {
    if |msgs| == 0 || msgs[0] == Terminate then 0 else 1 + Handled(msgs[1..])
  }

  /** The sum of the weights of counts msgs[i..n]. */
  function WeightSum(msgs: seq<Message>, n: nat): real
    requires n <= |msgs| && forall i :: 0 <= i < n ==> msgs[i].Received?
  {
    if n == 0 then 0.0 else WeightSum(msgs, n - 1) + msgs[n - 1].count.weight
  }

  /** Growing the axis keeps the kernel's total. */
  lemma ResizeTotal(w: Walker, x: real)
    requires Fits(w.g, w.K)
    ensures Fits(Resize(w, x).g, Resize(w, x).K) && Covers(Resize(w, x).g, x)
    ensures Total(Resize(w, x).K) == Total(w.K)
  {
    GrowthForFacts(w.g, x);
    var gr := GrowthFor(w.g, x);
    EmbedFits(w.g, w.K, gr.below, gr.above);
    TotalEmbed(w.K, gr.below, gr.above);
  }

  /** Adding a count adds exactly its weight, on top of the old total or of an
      empty kernel when the pending reset fires. */
  lemma AddCountTotal(w: Walker, c: Count)
    requires Fits(w.g, w.K) && Covers(w.g, c.dUdL)
    ensures Total(AddCount(w, c).K) ==
      (if w.resetStatistics && c.lambda > LAMBDA_RESET_VALUE then 0.0 else Total(w.K)) + c.weight
  {
    var l := BinForLambda(c.lambda, w.g.minLambda, w.g.dL, w.g.lambdaBins);
    var f := BinForFLambda(c.dUdL, w.g.minFLambda, w.g.dFL, w.g.FLambdaBins);
    if w.resetStatistics && c.lambda > LAMBDA_RESET_VALUE {
      var Z := ZeroKernel(w.g.lambdaBins, w.g.FLambdaBins);
      TotalZero(w.g.lambdaBins, w.g.FLambdaBins);
      TotalAddWeight(Z, l, f, c.weight);
    } else {
      TotalAddWeight(w.K, l, f, c.weight);
    }
  }

  /** One merge adds exactly the count's weight to the kernel's total, on top
      of the old total or of an empty kernel when the pending reset fires; the
      latch and the pending reset move as the receive loop moves them. */
  lemma MergeStepTotal(w: Walker, c: Count)
    requires Fits(w.g, w.K)
    ensures var r := MergeStep(w, c);
      Total(r.K) == (if w.resetStatistics && c.lambda > LAMBDA_RESET_VALUE then 0.0 else Total(w.K)) + c.weight &&
      r.tempering == (w.tempering || c.weight < 1.0) &&
      r.resetStatistics == (w.resetStatistics && c.lambda <= LAMBDA_RESET_VALUE)
  {
    ResizeTotal(w, c.dUdL);
    AddCountTotal(Resize(w, c.dUdL), c);
  }

  lemma {:induction false} TotalZero(rows: nat, cols: nat)
    ensures Total(ZeroKernel(rows, cols)) == 0.0
  {
    if rows > 0 {
      assert ZeroKernel(rows, cols)[..rows - 1] == ZeroKernel(rows - 1, cols);
      TotalZero(rows - 1, cols);
      RowSumZeros(cols);
    }
  }

  /** Tempering is a one-way latch: after the receive loop it is on exactly
      when it was on before or some handled count carried a weight below 1. */
  lemma {:induction false} ReceiveAllTempering(w: Walker, msgs: seq<Message>)
    requires Fits(w.g, w.K)
    ensures ReceiveAll(w, msgs).tempering <==>
      w.tempering || exists i :: 0 <= i < Handled(msgs) && msgs[i].count.weight < 1.0
    decreases |msgs|
  {
    if |msgs| > 0 && msgs[0].Received? {
      ReceiveAllTempering(MergeStep(w, msgs[0].count), msgs[1..]);
      LightHandledShift(msgs);
    }
  }

  /** A light count among the handled ones is the first message's or one
      handled after it. */
  lemma LightHandledShift(msgs: seq<Message>)
    requires |msgs| > 0 && msgs[0].Received?
    ensures (exists i :: 0 <= i < Handled(msgs) && msgs[i].count.weight < 1.0) <==>
      msgs[0].count.weight < 1.0 || exists i :: 0 <= i < Handled(msgs[1..]) && msgs[1..][i].count.weight < 1.0
  {
    assert Handled(msgs) == 1 + Handled(msgs[1..]);
    assert forall i :: 0 <= i < Handled(msgs[1..]) ==> msgs[1..][i] == msgs[i + 1];
    if exists i :: 0 <= i < Handled(msgs) && msgs[i].count.weight < 1.0 {
      var i :| 0 <= i < Handled(msgs) && msgs[i].count.weight < 1.0;
      if i > 0 { assert msgs[1..][i - 1] == msgs[i]; }
    }
  }

  /** With no reset pending, the receive loop never clears the kernel: its
      total grows by exactly the handled counts' weights, and no reset becomes
      pending. */
  lemma {:induction false} ReceiveAllTotal(w: Walker, msgs: seq<Message>)
    requires Fits(w.g, w.K) && !w.resetStatistics
    ensures !ReceiveAll(w, msgs).resetStatistics
    ensures Total(ReceiveAll(w, msgs).K) == Total(w.K) + WeightSum(msgs, Handled(msgs))
    decreases |msgs|
  {
    if !(|msgs| > 0 && msgs[0].Received?) {
      ReceiveAllStops(w, msgs);
    } else {
      var w' := ReceiveFirst(w, msgs);
      ReceiveAllTotal(w', msgs[1..]);
      HandledShift(msgs);
    }
  }

  /** A count in front is handled, and its weight heads the handled sum. */
  lemma HandledShift(msgs: seq<Message>)
    requires |msgs| > 0 && msgs[0].Received?
    ensures Handled(msgs) == 1 + Handled(msgs[1..])
    ensures WeightSum(msgs, Handled(msgs)) == msgs[0].count.weight + WeightSum(msgs[1..], Handled(msgs[1..]))
  {
    WeightSumShift(msgs, Handled(msgs));
  }

  /** With no count in front, the receive loop stops at once. */
  lemma ReceiveAllStops(w: Walker, msgs: seq<Message>)
    requires Fits(w.g, w.K) && !(|msgs| > 0 && msgs[0].Received?)
    ensures Handled(msgs) == 0 && ReceiveAll(w, msgs) == w
  {
  }

  /** The receive loop at message i, a count: merge it and go on from i + 1. */
  lemma ReceiveAllStep(w: Walker, msgs: seq<Message>, i: int)
    requires Fits(w.g, w.K) && 0 <= i < |msgs| && msgs[i].Received?
    ensures ReceiveAll(w, msgs[i..]) == ReceiveAll(MergeStep(w, msgs[i].count), msgs[i + 1..])
  {
    assert msgs[i..][1..] == msgs[i + 1..];
  }

  /** The walker after the first of several messages, a count, with no reset
      pending: its total has grown by the count's weight. */
  lemma ReceiveFirst(w: Walker, msgs: seq<Message>) returns (w': Walker)
    requires Fits(w.g, w.K) && !w.resetStatistics && |msgs| > 0 && msgs[0].Received?
    ensures Fits(w'.g, w'.K) && !w'.resetStatistics
    ensures ReceiveAll(w, msgs) == ReceiveAll(w', msgs[1..])
    ensures Total(w'.K) == Total(w.K) + msgs[0].count.weight
  {
    w' := MergeStep(w, msgs[0].count);
    MergeStepTotal(w, msgs[0].count);
  }

  lemma {:induction false} WeightSumShift(msgs: seq<Message>, n: nat)
    requires 1 <= n <= |msgs| && forall i :: 0 <= i < n ==> msgs[i].Received?
    ensures WeightSum(msgs, n) == msgs[0].count.weight + WeightSum(msgs[1..], n - 1)
  {
    if n > 1 {
      WeightSumShift(msgs, n - 1);
      assert msgs[1..][n - 2] == msgs[n - 1];
    }
  }

  // ------------------------------------------------------ synchronousSend

  /** The running minimum and maximum of the dU/dL values of counts[i..]. */
  function MinFrom(acc: real, counts: seq<Count>): (m: real)
    ensures m <= acc && forall i :: 0 <= i < |counts| ==> m <= counts[i].dUdL
    ensures m == acc || exists i :: 0 <= i < |counts| && m == counts[i].dUdL
    decreases |counts|
  {
    if |counts| == 0 then acc
    else MinFrom(if counts[0].dUdL < acc then counts[0].dUdL else acc, counts[1..])
  }

  function MaxFrom(acc: real, counts: seq<Count>): (m: real)
    ensures m >= acc && forall i :: 0 <= i < |counts| ==> m >= counts[i].dUdL
    ensures m == acc || exists i :: 0 <= i < |counts| && m == counts[i].dUdL
    decreases |counts|
  {
    if |counts| == 0 then acc
    else MaxFrom(if counts[0].dUdL > acc then counts[0].dUdL else acc, counts[1..])
  }

  /** The dU/dL range the gathered counts need, with the maximum started from
      the most negative double. */
  function RequiredRange(counts: seq<Count>): (real, real)
  {
    (MinFrom(DOUBLE_MAX_VALUE, counts), MaxFrom(-DOUBLE_MAX_VALUE, counts))
  }

  /** The same range as written in synchronousSend, with the maximum started
      from Double.MIN_VALUE, the smallest positive double. */
  function AsWrittenRequiredRange(counts: seq<Count>): (real, real)
  {
    (MinFrom(DOUBLE_MAX_VALUE, counts), MaxFrom(DOUBLE_MIN_VALUE, counts))
  }

  /** Every double is at least -Double.MAX_VALUE. */
  predicate Doubles(counts: seq<Count>)
  {
    forall i :: 0 <= i < |counts| ==> -DOUBLE_MAX_VALUE <= counts[i].dUdL <= DOUBLE_MAX_VALUE
  }

  /** For counts that are doubles, the required range is exactly the smallest
      and the largest gathered dU/dL value. */
  lemma RequiredRangeIsExact(counts: seq<Count>)
    requires |counts| >= 1 && Doubles(counts)
    ensures var (lo, hi) := RequiredRange(counts);
      (exists i :: 0 <= i < |counts| && lo == counts[i].dUdL) &&
      (exists i :: 0 <= i < |counts| && hi == counts[i].dUdL) &&
      forall i :: 0 <= i < |counts| ==> lo <= counts[i].dUdL <= hi
  {
    var (lo, hi) := RequiredRange(counts);
    if lo == DOUBLE_MAX_VALUE { assert lo <= counts[0].dUdL; }
    if hi == -DOUBLE_MAX_VALUE { assert hi >= counts[0].dUdL; }
  }

  /** Every gathered count lies in its required range. */
  lemma RequiredRangeBounds(counts: seq<Count>)
    ensures forall i :: 0 <= i < |counts| ==> RequiredRange(counts).0 <= counts[i].dUdL <= RequiredRange(counts).1
  {
  }

  /** Both merges of synchronousSend's counts: the axis first grows to cover
      the smallest and then the largest required value; then every count is
      added in order without further size checks. */
  function SyncMerge(w: Walker, counts: seq<Count>, range: (real, real)): (r: Walker)
    requires Fits(w.g, w.K)
    requires forall i :: 0 <= i < |counts| ==> range.0 <= counts[i].dUdL <= range.1
    ensures Fits(r.g, r.K)
  {
    var w1 := Resize(w, range.0);
    ResizeExtends(w1.g, range.1, range.0);
    AddAll(Resize(w1, range.1), counts)
  }

  /** After synchronousSend's two size checks the axis covers every gathered
      count, and the merge is the counts added in order to the grown walker. */
  lemma SyncCovers(w: Walker, counts: seq<Count>, range: (real, real))
    requires Fits(w.g, w.K)
    requires forall i :: 0 <= i < |counts| ==> range.0 <= counts[i].dUdL <= range.1
    ensures var w2 := Resize(Resize(w, range.0), range.1);
      (forall i :: 0 <= i < |counts| ==> Covers(w2.g, counts[i].dUdL)) &&
      SyncMerge(w, counts, range) == AddAll(w2, counts)
  {
    var w1 := Resize(w, range.0);
    ResizeExtends(w1.g, range.1, range.0);
  }

  /** Counts added in order to a walker whose axis covers all of them. */
  function AddAll(w: Walker, counts: seq<Count>): (r: Walker)
    requires Fits(w.g, w.K) && forall i :: 0 <= i < |counts| ==> Covers(w.g, counts[i].dUdL)
    ensures Fits(r.g, r.K) && r.g == w.g
    decreases |counts|
  {
    if |counts| == 0 then w
    else AddAll(AddCount(w, counts[0]), counts[1..])
  }

  /** With its most-negative start the required range adds no bins when every
      gathered count already lies on the axis; the range as written grows the
      axis by 100 bins for a walker whose axis ends at 0 and a single count at
      -1, because Double.MIN_VALUE is positive. */
  lemma AsWrittenRequiredRangeOvergrows()
    ensures var g := Geometry(11, 0.1, -0.05, 5, -10.0, 2.0, 5, 0.05);
      var counts := [Count(0.5, -1.0, 1.0)];
      Covers(g, -1.0) &&
      GrowthFor(g, AsWrittenRequiredRange(counts).1) == Growth(0, 100) &&
      GrowthFor(g, RequiredRange(counts).1) == Growth(0, 0)
  {
    var g := Geometry(11, 0.1, -0.05, 5, -10.0, 2.0, 5, 0.05);
    var counts := [Count(0.5, -1.0, 1.0)];
    assert MaxFrom(DOUBLE_MIN_VALUE, counts) == DOUBLE_MIN_VALUE;
    assert UpperBins(DOUBLE_MIN_VALUE, -10.0, 2.0, 5) == UpperBins(DOUBLE_MIN_VALUE, -10.0, 2.0, 105);
    assert MaxFrom(-DOUBLE_MAX_VALUE, counts) == -1.0;
  }
}
