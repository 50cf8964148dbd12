// TransitionTemperedOSRW as an object: its recursion kernel is a 2-D array
// indexed [lambda bin, dU/dL bin] that grows in place, its axis fields move
// with it, and every operation is proved against the value-level
// specifications of OsrwMerge, OsrwKernel and OsrwRestart.
module TransitionTempered {
  import opened Wrappers
  import opened JavaLang
  import opened OsrwGeometry
  import opened OsrwKernel
  import opened OsrwMerge
  import opened OsrwRestart

  /** Two kernels with the same shape and the same cells are equal. */
  lemma KernelExt(A: Kernel, B: Kernel)
    requires |A| == |B| && forall i :: 0 <= i < |A| ==> |A[i]| == |B[i]|
    requires forall i, j :: 0 <= i < |A| && 0 <= j < |A[i]| ==> A[i][j] == B[i][j]
    ensures A == B
  {
    forall i | 0 <= i < |A| ensures A[i] == B[i] {
      assert |A[i]| == |B[i]|;
    }
  }

  /** A cell of an embedded kernel: the old cell shifted by `off`, or 0. */
  lemma EmbedCell(K: Kernel, off: nat, extra: nat, i: int, j: int)
    requires 0 <= i < |K| && 0 <= j < off + |K[i]| + extra
    ensures Embed(K, off, extra)[i][j] == if off <= j < off + |K[i]| then K[i][j - off] else 0.0
  {
    var row := Zeros(off) + K[i] + Zeros(extra);
    assert Embed(K, off, extra)[i] == row;
    if j < off {
      assert row[j] == Zeros(off)[j];
    } else if j < off + |K[i]| {
      assert row[j] == K[i][j - off];
    } else {
      assert row[j] == Zeros(extra)[j - off - |K[i]|];
    }
  }

  /** The row copies of checkRecursionKernelSize: a fresh table `extra` columns
      wider to the right and `off` wider to the left, holding every old cell
      `off` columns further on and 0 elsewhere. */
  method EmbedRows(src: array2<real>, ghost S: Kernel, off: nat, extra: nat) returns (dst: array2<real>)
    requires Shaped(S, src.Length0, src.Length1)
    requires forall i, j :: 0 <= i < src.Length0 && 0 <= j < src.Length1 ==> src[i, j] == S[i][j]
    ensures fresh(dst)
    ensures dst.Length0 == src.Length0 && dst.Length1 == src.Length1 + off + extra
    ensures Table(dst) == Embed(S, off, extra)
  {
    var rows, cols := src.Length0, src.Length1;
    dst := new real[rows, cols + off + extra]((i, j) => 0.0);
    var i := 0;
    while i < rows
      invariant 0 <= i <= rows
      invariant forall r, c :: 0 <= r < rows && 0 <= c < dst.Length1 ==>
        dst[r, c] == if r < i && off <= c < off + cols then S[r][c - off] else 0.0
    {
      var j := 0;
      while j < cols
        invariant 0 <= j <= cols
        invariant forall r, c :: 0 <= r < rows && 0 <= c < dst.Length1 ==>
          dst[r, c] == if (r < i || (r == i && c < off + j)) && off <= c < off + cols then S[r][c - off] else 0.0
      {
        dst[i, off + j] := src[i, j];
        j := j + 1;
      }
      i := i + 1;
    }
    forall r, c | 0 <= r < rows && 0 <= c < dst.Length1
      ensures Table(dst)[r][c] == Embed(S, off, extra)[r][c]
    {
      EmbedCell(S, off, extra, r, c);
    }
    KernelExt(Table(dst), Embed(S, off, extra));
  }

  /** The first n cells of row i of a 2-D array. */
  function RowPrefix(A: array2<real>, i: int, n: int): (r: seq<real>)
    reads A
    requires 0 <= i < A.Length0 && 0 <= n <= A.Length1
    ensures |r| == n && forall j :: 0 <= j < n ==> r[j] == A[i, j]
  {
    if n == 0 then [] else RowPrefix(A, i, n - 1) + [A[i, n - 1]]
  }

  /** The first n rows of a 2-D array. */
  function RowsPrefix(A: array2<real>, n: int): (K: Kernel)
    reads A
    requires 0 <= n <= A.Length0
    ensures Shaped(K, n, A.Length1)
    ensures forall i, j {:trigger K[i][j]} :: 0 <= i < n && 0 <= j < A.Length1 ==> K[i][j] == A[i, j]
  {
    if n == 0 then [] else RowsPrefix(A, n - 1) + [RowPrefix(A, n - 1, A.Length1)]
  }

  /** The cells of a 2-D array as a table of rows. */
  function Table(A: array2<real>): (K: Kernel)
    reads A
    ensures Shaped(K, A.Length0, A.Length1)
    ensures forall i, j {:trigger K[i][j]} :: 0 <= i < A.Length0 && 0 <= j < A.Length1 ==> K[i][j] == A[i, j]
  {
    RowsPrefix(A, A.Length0)
  }

  /** `new double[rows][cols]`: a fresh table of zeros. */
  method NewZeroTable(rows: nat, cols: nat) returns (A: array2<real>)
    ensures fresh(A) && A.Length0 == rows && A.Length1 == cols
    ensures Table(A) == ZeroKernel(rows, cols)
  {
    A := new real[rows, cols]((i, j) => 0.0);
    assert forall i, j :: 0 <= i < rows && 0 <= j < cols ==> A[i, j] == 0.0;
    KernelExt(Table(A), ZeroKernel(rows, cols));
  }

  /** temperOffset from the ttosrw-temperOffset property: 1 when the property
      does not parse as a double, and never below 0. */
  function TemperOffsetFor(parsed: Option<real>): (t: real)
    ensures t >= 0.0
    ensures parsed.None? ==> t == 1.0
    ensures parsed.Some? ==> t == if parsed.value < 0.0 then 0.0 else parsed.value
  {
    var t := if parsed.Some? then parsed.value else 1.0;
    if t < 0.0 then 0.0 else t
  }

  /** The integration type from the ttosrw-integrationType property: its upper
      case form when that names a type, and SIMPSONS otherwise. */
  function IntegrationTypeFor(property: string, typeNames: seq<string>): (t: string)
    ensures t in typeNames || t == "SIMPSONS"
    ensures ToUpper(property) in typeNames ==> t == ToUpper(property)
    ensures ToUpper(property) !in typeNames ==> t == "SIMPSONS"
  {
    if ToUpper(property) in typeNames then ToUpper(property) else "SIMPSONS"
  }

  /** updateFLambda's inner loop over the populated dU/dL bins ll..ul of a
      lambda bin whose kernel values are `row`: the running ensemble and
      partition sums and the largest kernel value (from 0). */
  method AccumulateBins(g: Geometry, row: seq<real>, Exp: real -> real, offset: real, beta: real, ll: int, ul: int)
      returns (ensemble: real, partition: real, maxBias: real)
    requires 0 <= ll < |row| && ul < |row|
    ensures ensemble == EnsembleSum(g, row, Exp, offset, beta, ll, ul)
    ensures partition == PartitionSum(row, Exp, offset, beta, ll, ul)
    ensures maxBias == MaxBiasFrom(row, 0.0, ll, ul)
  {
    ensemble, partition, maxBias := 0.0, 0.0, 0.0;
    var j := ll;
    while j <= ul
      invariant ll <= j <= if ll <= ul then ul + 1 else ll
      invariant ensemble == EnsembleSum(g, row, Exp, offset, beta, ll, j - 1)
      invariant partition == PartitionSum(row, Exp, offset, beta, ll, j - 1)
      invariant MaxBiasFrom(row, maxBias, j, ul) == MaxBiasFrom(row, 0.0, ll, ul)
      decreases ul - j
    {
      var currentFLambda := g.minFLambda + j as real * g.dFL + g.dFL / 2.0;
      var kernel := row[j];
      if kernel > maxBias {
        maxBias := kernel;
      }
      var weight := BoltzmannWeight(Exp, kernel, offset, beta);
      assert currentFLambda == Center(g, j);
      ensemble := ensemble + currentFLambda * weight;
      partition := partition + weight;
      j := j + 1;
    }
  }

  /** The part of updateFLambda's loop that writes: F(lambda) of every bin
      into FLambda, the running free energy (the first and last bins count
      half) and the running minimum bias. */
  method FoldStats(stats: seq<BinStat>, dL: real, dL_2: real, FLambda: array<real>) returns (freeEnergy: real, minFL: real)
    requires FLambda.Length == |stats| && dL_2 == dL / 2.0
    modifies FLambda
    ensures freeEnergy == FreeEnergyUpTo(stats, dL, |stats|)
    ensures minFL == MinBiasFrom(stats, DOUBLE_MAX_VALUE, 0)
    ensures forall iL :: 0 <= iL < |stats| ==> FLambda[iL] == stats[iL].FLambda()
  {
    freeEnergy := 0.0;
    minFL := DOUBLE_MAX_VALUE;
    var iL := 0;
    while iL < |stats|
      invariant 0 <= iL <= |stats|
      invariant freeEnergy == FreeEnergyUpTo(stats, dL, iL)
      invariant MinBiasFrom(stats, minFL, iL) == MinBiasFrom(stats, DOUBLE_MAX_VALUE, 0)
      invariant forall k :: 0 <= k < iL ==> FLambda[k] == stats[k].FLambda()
    {
      var s := stats[iL];
      FLambda[iL] := s.FLambda();
      if !s.populated {
        minFL := 0.0;
      } else if minFL > s.maxBias {
        minFL := s.maxBias;
      }
      // The first and last lambda bins are half size.
      var delta := dL;
      if iL == 0 || iL == |stats| - 1 {
        delta := dL_2;
      }
      FreeEnergyUpToStep(stats, dL, iL, s.FLambda(), delta);
      freeEnergy := freeEnergy + s.FLambda() * delta;
      iL := iL + 1;
    }
  }

  /** The upward growth loop of checkRecursionKernelSize: 100 more bins at a
      time until the axis from minFLambda reaches x. */
  method GrowUpperBins(x: real, minFLambda: real, dFL: real, bins: int) returns (newBins: int)
    requires dFL > 0.0
    ensures newBins == UpperBins(x, minFLambda, dFL, bins)
  {
    newBins := bins;
    while minFLambda + newBins as real * dFL < x
      invariant UpperBins(x, minFLambda, dFL, newBins) == UpperBins(x, minFLambda, dFL, bins)
      decreases ((x - minFLambda) / dFL).Floor - newBins
    {
      BelowQuotient(newBins as real, x - minFLambda, dFL);
      newBins := newBins + 100;
    }
  }

  /** The downward growth loop: an offset of 100 bins more at a time until the
      lowered minimum reaches x. */
  method GrowLowerOffset(x: real, minFLambda: real, dFL: real) returns (offset: int)
    requires dFL > 0.0
    ensures offset == LowerOffset(x, minFLambda, dFL, 100)
  {
    offset := 100;
    while x < minFLambda - offset as real * dFL
      invariant LowerOffset(x, minFLambda, dFL, offset) == LowerOffset(x, minFLambda, dFL, 100)
      decreases ((minFLambda - x) / dFL).Floor - offset
    {
      BelowQuotient(offset as real, minFLambda - x, dFL);
      offset := offset + 100;
    }
  }

  /** `recursionKernel[l][f] += w` on a table whose cell exists. */
  method AddToCell(A: array2<real>, ghost K: Kernel, l: int, f: int, w: real)
    requires 0 <= l < A.Length0 && 0 <= f < A.Length1 && Table(A) == K
    modifies A
    ensures Table(A) == AddWeight(K, l, f, w)
  {
    A[l, f] := A[l, f] + w;
    KernelExt(Table(A), AddWeight(K, l, f, w));
  }

  /** A fresh rows-by-cols table holding the cells of K. */
  method TableOf(K: Kernel, rows: nat, cols: nat) returns (A: array2<real>)
    requires Shaped(K, rows, cols)
    ensures fresh(A) && A.Length0 == rows && A.Length1 == cols
    ensures Table(A) == K
  {
    A := new real[rows, cols]((i, j) => 0.0);
    var i := 0;
    while i < rows
      invariant 0 <= i <= rows
      invariant forall r, c :: 0 <= r < i && 0 <= c < cols ==> A[r, c] == K[r][c]
    {
      var j := 0;
      while j < cols
        invariant 0 <= j <= cols
        invariant forall r, c :: (0 <= r < i && 0 <= c < cols) || (r == i && 0 <= c < j) ==> A[r, c] == K[r][c]
      {
        A[i, j] := K[i][j];
        j := j + 1;
      }
      i := i + 1;
    }
    KernelExt(Table(A), K);
  }

  /** synchronousSend's scan of the gathered counts for the smallest and the
      largest dU/dL, corrected: the source starts the largest at
      Double.MIN_VALUE, the smallest positive double (AsWrittenRequiredRange),
      this scan at the most negative double. */
  method RequiredRangeOf(counts: seq<Count>) returns (minRequired: real, maxRequired: real)
    ensures (minRequired, maxRequired) == RequiredRange(counts)
  {
    minRequired, maxRequired := DOUBLE_MAX_VALUE, -DOUBLE_MAX_VALUE;
    var i := 0;
    while i < |counts|
      invariant 0 <= i <= |counts|
      invariant MinFrom(minRequired, counts[i..]) == MinFrom(DOUBLE_MAX_VALUE, counts)
      invariant MaxFrom(maxRequired, counts[i..]) == MaxFrom(-DOUBLE_MAX_VALUE, counts)
    {
      assert counts[i..][1..] == counts[i + 1..];
      if counts[i].dUdL < minRequired {
        minRequired := counts[i].dUdL;
      }
      if counts[i].dUdL > maxRequired {
        maxRequired := counts[i].dUdL;
      }
      i := i + 1;
    }
  }

  class TransitionTemperedOSRW {
    var lambdaBins: int
    var dL: real
    var dL_2: real
    var minLambda: real
    var FLambdaBins: int
    var minFLambda: real
    var maxFLambda: real
    var dFL: real
    var dFL_2: real
    var biasCutoff: int
    var biasMag: real
    var countInterval: int
    var printFrequency: int
    var saveFrequency: int
    var temperature: real
    var thetaMass: real
    var thetaFriction: real
    var recursionKernel: array2<real>
    var kernelOffset: array<real>
    var FLambda: array<real>
    var tempering: bool
    var resetStatistics: bool
    var temperingFactor: real
    var deltaT: real
    var temperingWeight: real
    var temperOffset: real
    var integrationType: string
    var propagateLambda: bool
    var lambda: real
    var halfThetaVelocity: real
    var energyCount: int
    /** Thermostat.R, the gas constant. */
    const R: real
    /** FastMath.exp, which this model does not define. */
    const Exp: real -> real

    /** The class invariant: the bin widths and counts are positive and agree
        with the arrays' sizes. */
    ghost predicate Valid()
      reads this
    {
      lambdaBins >= 2 && dL > 0.0 && dL_2 == dL / 2.0 && minLambda == -dL_2 &&
      FLambdaBins >= 1 && dFL > 0.0 && dFL_2 == dFL / 2.0 &&
      biasCutoff < lambdaBins && countInterval > 0 &&
      temperature > 0.0 && R > 0.0 && deltaT > 0.0 &&
      recursionKernel.Length0 == lambdaBins && recursionKernel.Length1 == FLambdaBins &&
      kernelOffset.Length == lambdaBins && FLambda.Length == lambdaBins && kernelOffset != FLambda
    }

    /** The rest of the class invariant: the lambda bins span [0, 1] and
        maxFLambda is the upper edge of the last dU/dL bin. */
    ghost predicate AxesAgree()
      reads this`lambdaBins, this`dL, this`minFLambda, this`maxFLambda, this`FLambdaBins, this`dFL
    {
      SpansUnit(dL, lambdaBins) && UpperEdge(minFLambda, maxFLambda, FLambdaBins, dFL)
    }

    /** The kernel's cells as a table of rows. */
    function Kern(): (K: Kernel)
      reads this`recursionKernel, recursionKernel
    {
      Table(recursionKernel)
    }

    function Geom(): Geometry
      reads this`lambdaBins, this`dL, this`minLambda, this`FLambdaBins, this`minFLambda, this`dFL, this`biasCutoff, this`biasMag
    {
      Geometry(lambdaBins, dL, minLambda, FLambdaBins, minFLambda, dFL, biasCutoff, biasMag)
    }

    /** The part of the walker that merging reads and writes. */
    function State(): Walker
      reads this`lambdaBins, this`dL, this`minLambda, this`FLambdaBins, this`minFLambda, this`dFL, this`biasCutoff, this`biasMag
      reads this`recursionKernel, recursionKernel, this`tempering, this`resetStatistics
    {
      Walker(Geom(), Kern(), tempering, resetStatistics)
    }

    function Beta(): real
      reads this`temperature
      requires R > 0.0 && temperature > 0.0
    {
      1.0 / (R * temperature)
    }

    /** updateFLambda's statistics of the current kernel. */
    ghost function Stats(): seq<BinStat>
      reads this`lambdaBins, this`dL, this`minLambda, this`FLambdaBins, this`minFLambda, this`dFL, this`biasCutoff, this`biasMag, this`temperature
      reads this`recursionKernel, recursionKernel, this`kernelOffset, kernelOffset
      requires Fits(Geom(), Kern()) && kernelOffset.Length == lambdaBins && R > 0.0 && temperature > 0.0
    {
      BinStats(Geom(), Kern(), Exp, kernelOffset[..], Beta())
    }

    /** The tempering weight updateFLambda sets from the statistics. */
    ghost function TemperingWeightFor(stats: seq<BinStat>): real
      reads this`temperOffset, this`deltaT
      requires deltaT > 0.0
    {
      Exp(TemperEnergy(MinBiasFrom(stats, DOUBLE_MAX_VALUE, 0), temperOffset) / deltaT)
    }

    /** FLambda holds F(lambda) of each bin's statistics, and the tempering
        weight is the one updateFLambda sets from them when temper holds, prior
        otherwise. */
    ghost predicate FLambdaOf(stats: seq<BinStat>, temper: bool, prior: real)
      reads this`FLambda, FLambda, this`temperingWeight, this`temperOffset, this`deltaT
      requires deltaT > 0.0
    {
      FLambda.Length == |stats| &&
      (forall iL :: 0 <= iL < |stats| ==> FLambda[iL] == stats[iL].FLambda()) &&
      temperingWeight == if temper then TemperingWeightFor(stats) else prior
    }

    /** FLambda and the tempering weight as updateFLambda leaves them for the
        walker v, with prior the weight it finds. */
    ghost predicate Refreshed(v: Walker, prior: real)
      reads this`FLambda, FLambda, this`kernelOffset, kernelOffset, this`temperature
      reads this`temperingWeight, this`temperOffset, this`deltaT
      requires Fits(v.g, v.K) && kernelOffset.Length == v.g.lambdaBins
      requires R > 0.0 && temperature > 0.0 && deltaT > 0.0
    {
      FLambdaOf(BinStats(v.g, v.K, Exp, kernelOffset[..], Beta()), v.tempering, prior)
    }

    /** updateFLambda on a resized walker leaves what it leaves on the walker
        before the resize; a weight that only tempering would change carries
        over from any prior it agrees with when not tempering. */
    lemma RefreshedResize(w: Walker, x: real, p: real, q: real)
      requires Valid() && Fits(w.g, w.K) && w.g.lambdaBins == lambdaBins
      requires Refreshed(Resize(w, x), p) && (!w.tempering ==> p == q)
      ensures Refreshed(w, q)
    {
      ResizeKeepsStats(w, x, Exp, kernelOffset[..], Beta());
    }

    /** The smallest dU/dL bin of lambda bin iL holding a count, or -1. */
    method FirstCountedBin(iL: int) returns (ll: int)
      requires Valid() && 0 <= iL < lambdaBins
      ensures ll == FirstPositive(Kern()[iL])
    {
      ghost var row := Kern()[iL];
      ll := -1;
      var j := 0;
      while j < FLambdaBins && ll == -1
        invariant 0 <= j <= FLambdaBins
        invariant ll == -1 ==> FirstPositiveFrom(row, j) == FirstPositive(row)
        invariant ll != -1 ==> ll == FirstPositive(row)
      {
        assert row[j] == recursionKernel[iL, j];
        if recursionKernel[iL, j] > 0.0 {
          ll := j;
        }
        j := j + 1;
      }
    }

    /** The largest dU/dL bin of lambda bin iL holding a count, or -1. */
    method LastCountedBin(iL: int) returns (ul: int)
      requires Valid() && 0 <= iL < lambdaBins
      ensures ul == LastPositive(Kern()[iL])
    {
      ghost var row := Kern()[iL];
      ul := -1;
      var j := FLambdaBins - 1;
      while j >= 0 && ul == -1
        invariant -1 <= j < FLambdaBins
        invariant ul == -1 ==> LastPositiveBelow(row, j + 1) == LastPositive(row)
        invariant ul != -1 ==> ul == LastPositive(row)
      {
        assert row[j] == recursionKernel[iL, j];
        if recursionKernel[iL, j] > 0.0 {
          ul := j;
        }
        j := j - 1;
      }
    }

    /** The kernel value at the centre of every dU/dL bin of lambda bin iL. */
    method KernelRowValues(iL: int) returns (row: seq<real>)
      requires Valid() && 0 <= iL < lambdaBins
      ensures row == KernelRow(Geom(), Kern(), Exp, iL)
    {
      StateFits();
      ghost var expected := KernelRow(Geom(), Kern(), Exp, iL);
      row := [];
      var j := 0;
      while j < FLambdaBins
        invariant 0 <= j <= FLambdaBins && |row| == j
        invariant forall k :: 0 <= k < j ==> row[k] == expected[k]
      {
        row := row + [EvaluateKernel(Geom(), Kern(), Exp, iL, j)];
        j := j + 1;
      }
    }

    /** The per-lambda-bin pass of updateFLambda: the first and last dU/dL bins
        holding a count, then the Boltzmann-weighted average of the bin centres
        over that range and the largest kernel value in it. */
    method BinStatOf(iL: int) returns (s: BinStat)
      requires Valid() && 0 <= iL < lambdaBins
      ensures s == BinStatAt(Geom(), Kern(), Exp, kernelOffset[iL], Beta(), iL)
    {
      var llFL := FirstCountedBin(iL);
      var ulFL := LastCountedBin(iL);
      if llFL == -1 || ulFL == -1 {
        return BinStat(false, 0.0, 0.0, 0.0);
      }
      var row := KernelRowValues(iL);
      var ensemble, partition, maxBias := AccumulateBins(Geom(), row, Exp, kernelOffset[iL], Beta(), llFL, ulFL);
      s := BinStat(true, ensemble, partition, maxBias);
    }

    /** The statistics of every lambda bin, in order: the part of
        updateFLambda's loop that reads the kernel. */
    method CollectStats() returns (stats: seq<BinStat>)
      requires Valid()
      ensures stats == Stats()
    {
      StateFits();
      stats := [];
      var iL := 0;
      while iL < lambdaBins
        invariant 0 <= iL <= lambdaBins && |stats| == iL
        invariant forall k :: 0 <= k < iL ==> stats[k] == Stats()[k]
      {
        var s := BinStatOf(iL);
        stats := stats + [s];
        iL := iL + 1;
      }
    }

    /** updateFLambda: F(lambda) of every lambda bin into FLambda, the free
        energy, and, while tempering, the tempering weight from the minimum
        bias. */
    method UpdateFLambda() returns (freeEnergy: real)
      requires Valid()
      modifies this`temperingWeight, FLambda
      ensures Valid() && State() == old(State())
      ensures freeEnergy == FreeEnergy(Geom(), Kern(), Exp, kernelOffset[..], Beta())
      ensures forall iL :: 0 <= iL < lambdaBins ==> FLambda[iL] == Stats()[iL].FLambda()
      ensures temperingWeight == if tempering then TemperingWeightFor(Stats()) else old(temperingWeight)
    {
      var stats := CollectStats();
      var minFL;
      freeEnergy, minFL := FoldStats(stats, dL, dL_2, FLambda);
      Temper(minFL);
    }

    /** While tempering, the tempering weight from the minimum bias minFL. */
    method Temper(minFL: real)
      requires deltaT > 0.0
      modifies this`temperingWeight
      ensures temperingWeight == if tempering then Exp(TemperEnergy(minFL, temperOffset) / deltaT) else old(temperingWeight)
    {
      if tempering {
        var temperEnergy := if minFL > temperOffset then temperOffset - minFL else 0.0;
        temperingWeight := Exp(temperEnergy / deltaT);
      }
    }

    lemma StateFits()
      requires Valid()
      ensures Fits(State().g, State().K) && Fits(Geom(), Kern())
    {
    }

    /** The constructor without restart files: the lambda axis from the
        requested width, 401 dU/dL bins centred on 0, an empty kernel, tempering
        on and the parsed system properties. */
    constructor(requestedDL: real, requestedDFL: real, biasCutoff: int, biasMag: real,
                temperature: real, dtFemtoseconds: real, printInterval: real, saveInterval: real,
                R: real, Exp: real -> real, temperOffsetProperty: Option<real>,
                integrationProperty: string, integrationTypeNames: seq<string>)
      requires requestedDL > 0.0 && requestedDFL > 0.0 && temperature > 0.0 && R > 0.0 && dtFemtoseconds > 0.0
      requires biasCutoff < LambdaAxisFor(requestedDL).lambdaBins
      ensures Valid() && AxesAgree() && fresh(recursionKernel) && fresh(kernelOffset) && fresh(FLambda)
      ensures var la := LambdaAxisFor(requestedDL); var fa := InitialFLambdaAxis(requestedDFL);
        lambdaBins == la.lambdaBins && dL == la.dL && dL_2 == la.dL_2 && minLambda == la.minLambda &&
        FLambdaBins == fa.FLambdaBins && minFLambda == fa.minFLambda && maxFLambda == fa.maxFLambda &&
        dFL == requestedDFL && dFL_2 == fa.dFL_2
      ensures Kern() == ZeroKernel(lambdaBins, FLambdaBins)
      ensures forall i :: 0 <= i < lambdaBins ==> kernelOffset[i] == 0.0
      ensures tempering && !resetStatistics && temperingWeight == 1.0
      ensures temperingFactor == 8.0 && deltaT == temperingFactor * R * temperature
      ensures countInterval == DEFAULT_COUNT_INTERVAL && energyCount == -1 && propagateLambda
      ensures printFrequency == PrintFrequency(printInterval, dtFemtoseconds)
      ensures saveFrequency == SaveFrequency(saveInterval, dtFemtoseconds)
      ensures temperOffset == TemperOffsetFor(temperOffsetProperty)
      ensures integrationType == IntegrationTypeFor(integrationProperty, integrationTypeNames)
      ensures this.biasCutoff == biasCutoff && this.biasMag == biasMag && this.temperature == temperature
      ensures this.R == R && this.Exp == Exp
    {
      var la := LambdaAxisFor(requestedDL);
      var fa := InitialFLambdaAxis(requestedDFL);
      var table := NewZeroTable(la.lambdaBins, fa.FLambdaBins);
      this.R := R;
      this.Exp := Exp;
      this.temperature := temperature;
      this.biasCutoff := biasCutoff;
      this.biasMag := biasMag;
      lambdaBins := la.lambdaBins;
      dL := la.dL;
      dL_2 := la.dL_2;
      minLambda := la.minLambda;
      FLambdaBins := fa.FLambdaBins;
      minFLambda := fa.minFLambda;
      maxFLambda := fa.maxFLambda;
      dFL := requestedDFL;
      dFL_2 := fa.dFL_2;
      countInterval := DEFAULT_COUNT_INTERVAL;
      printFrequency := PrintFrequency(printInterval, dtFemtoseconds);
      saveFrequency := SaveFrequency(saveInterval, dtFemtoseconds);
      thetaMass := 1.0e-18;
      thetaFriction := 1.0e-19;
      energyCount := -1;
      propagateLambda := true;
      lambda := 0.0;
      halfThetaVelocity := 0.0;
      tempering := true;
      resetStatistics := false;
      temperingFactor := 8.0;
      temperingWeight := 1.0;
      ScaleStrict(0.0, temperature, R);
      ScaleStrict(0.0, 8.0, R);
      ScaleStrict(0.0, temperature, 8.0 * R);
      deltaT := 8.0 * R * temperature;
      recursionKernel := table;
      kernelOffset := new real[la.lambdaBins](i => 0.0);
      FLambda := new real[la.lambdaBins](i => 0.0);
      temperOffset := TemperOffsetFor(temperOffsetProperty);
      integrationType := IntegrationTypeFor(integrationProperty, integrationTypeNames);
      new;
    }

    /** setCountInterval: only a positive interval is taken. */
    method SetCountInterval(countInterval: int)
      requires Valid()
      modifies this`countInterval
      ensures Valid() && State() == old(State())
      ensures this.countInterval == if countInterval > 0 then countInterval else old(this.countInterval)
    {
      if countInterval > 0 {
        this.countInterval := countInterval;
      }
    }

    /** setTemperingParameter: deltaT is the factor times RT, or the largest
        double when the factor is not positive. */
    method SetTemperingParameter(temper: real)
      requires Valid()
      modifies this`temperingFactor, this`deltaT
      ensures Valid() && State() == old(State())
      ensures temperingFactor == temper
      ensures deltaT == if temper > 0.0 then temper * R * temperature else DOUBLE_MAX_VALUE
    {
      temperingFactor := temper;
      if temperingFactor > 0.0 {
        ScaleStrict(0.0, temperingFactor, R);
        ScaleStrict(0.0, temperature, temperingFactor * R);
        deltaT := temperingFactor * R * temperature;
      } else {
        deltaT := DOUBLE_MAX_VALUE;
      }
    }

    /** checkRecursionKernelSize(x): when x lies above the dU/dL axis, adds 100
        bins at a time on top until it does not; when it lies below, lowers the
        minimum by 100 bins at a time until it does not. Either growing branch
        first runs updateFLambda(false), which refills FLambda and, while
        tempering, the tempering weight. Each row then moves into a fresh, wider
        kernel; by ResizeKeepsStats, updateFLambda's statistics are unchanged. */
    method CheckRecursionKernelSize(x: real)
      requires Valid() && AxesAgree()
      modifies this`recursionKernel, this`FLambdaBins, this`minFLambda, this`maxFLambda
      modifies this`temperingWeight, FLambda
      ensures Valid() && AxesAgree()
      ensures State() == Resize(old(State()), x)
      ensures recursionKernel == old(recursionKernel) || fresh(recursionKernel)
      ensures if Covers(old(State()).g, x) then unchanged(FLambda) && temperingWeight == old(temperingWeight)
        else Refreshed(old(State()), old(temperingWeight))
    {
      ghost var w := State();
      StateFits();
      assert MaxFLambda(w.g) == maxFLambda;
      if minFLambda <= x <= maxFLambda {
        ResizeCovered(w, x);
      } else {
        Refresh();
        Grow(x);
      }
    }

    /** The two growing branches of checkRecursionKernelSize after their
        updateFLambda(false), for an x off the axis: it widens up or down. */
    method Grow(x: real)
      requires Valid() && AxesAgree() && !(minFLambda <= x <= maxFLambda)
      modifies this`recursionKernel, this`FLambdaBins, this`minFLambda, this`maxFLambda
      ensures Valid() && AxesAgree()
      ensures State() == Resize(old(State()), x) && fresh(recursionKernel)
    {
      ghost var w := State();
      StateFits();
      assert MaxFLambda(w.g) == maxFLambda;
      ScaleMonotone(0.0, FLambdaBins as real, dFL);
      // The source tests x < minFLambda again after growing upwards; that test
      // cannot succeed then, since minFLambda <= maxFLambda < x.
      if x > maxFLambda {
        GrowAbove(x);
      } else {
        GrowBelow(x);
      }
    }

    /** The updateFLambda(false) that each growing branch of
        checkRecursionKernelSize runs before it widens the axis. */
    method Refresh()
      requires Valid()
      modifies this`temperingWeight, FLambda
      ensures Valid() && State() == old(State())
      ensures Refreshed(State(), old(temperingWeight))
    {
      var origDeltaG := UpdateFLambda();
    }

    /** The row copies of checkRecursionKernelSize: a fresh kernel with `off`
        more dU/dL bins below and `extra` more above, every old cell moved up
        by `off` columns. */
    method WidenKernel(off: nat, extra: nat)
      requires Valid()
      modifies this`recursionKernel, this`FLambdaBins
      ensures Valid() && fresh(recursionKernel)
      ensures FLambdaBins == old(FLambdaBins) + off + extra
      ensures Kern() == Embed(old(Kern()), off, extra)
    {
      var kernel := EmbedRows(recursionKernel, Kern(), off, extra);
      recursionKernel := kernel;
      FLambdaBins := FLambdaBins + off + extra;
    }

    /** The upward half of checkRecursionKernelSize: the fewest 100-bin steps
        up that reach x, with every row copied to the same columns. */
    method GrowAbove(x: real)
      requires Valid() && AxesAgree() && x > maxFLambda
      modifies this`recursionKernel, this`FLambdaBins, this`maxFLambda
      ensures Valid() && AxesAgree() && fresh(recursionKernel)
      ensures var e := FLambdaBins - old(FLambdaBins);
        e >= 0 && GrowthFor(old(Geom()), x) == Growth(0, e) &&
        Geom() == Grown(old(Geom()), 0, e) && Kern() == Embed(old(Kern()), 0, e)
    {
      GrowthAbove(Geom(), x);
      var newFLambdaBins := GrowUpperBins(x, minFLambda, dFL, FLambdaBins);
      WidenKernel(0, newFLambdaBins - FLambdaBins);
      maxFLambda := minFLambda + dFL * FLambdaBins as real;
    }

    /** The downward half of checkRecursionKernelSize: the fewest 100-bin steps
        down that reach x, with every row moved up by as many columns. */
    method GrowBelow(x: real)
      requires Valid() && AxesAgree() && x < minFLambda
      modifies this`recursionKernel, this`FLambdaBins, this`minFLambda
      ensures Valid() && AxesAgree() && fresh(recursionKernel)
      ensures var off := FLambdaBins - old(FLambdaBins);
        off >= 0 && GrowthFor(old(Geom()), x) == Growth(off, 0) &&
        Geom() == Grown(old(Geom()), off, 0) && Kern() == Embed(old(Kern()), off, 0)
    {
      GrowthBelow(Geom(), x);
      var offset := GrowLowerOffset(x, minFLambda, dFL);
      UpperEdgeLowered(minFLambda, maxFLambda, FLambdaBins, dFL, offset);
      WidenKernel(offset, 0);
      minFLambda := minFLambda - offset as real * dFL;
    }

    /** The kernel update of the receive loop and of synchronousSend for a
        count already on the axis: a weight below 1 turns tempering on, a
        pending reset clears the kernel once lambda passes 0.99, and the weight
        is added to the count's cell. */
    method AddCountInPlace(c: Count)
      requires Valid() && Covers(Geom(), c.dUdL)
      modifies this`tempering, this`resetStatistics, this`recursionKernel, recursionKernel
      ensures Valid()
      ensures State() == AddCount(old(State()), c)
      ensures recursionKernel == old(recursionKernel) || fresh(recursionKernel)
    {
      ghost var w := State();
      var g := Geom();
      var walkerLambda := BinForLambda(c.lambda, g.minLambda, g.dL, g.lambdaBins);
      var walkerFLambda := BinForFLambda(c.dUdL, g.minFLambda, g.dFL, g.FLambdaBins);
      var weight := c.weight;
      ghost var cleared := resetStatistics && c.lambda > LAMBDA_RESET_VALUE;
      LatchAndReset(weight, c.lambda);
      ghost var base := Kern();
      AddToCell(recursionKernel, base, walkerLambda, walkerFLambda, weight);
      AddCountIs(w, c, cleared, base, State());
    }

    /** The flag updates for a count: a weight below 1 turns tempering on for
        good, and a pending one-time reset replaces the kernel by an empty one
        once the count's lambda passes 0.99. */
    method LatchAndReset(weight: real, lambda: real)
      requires Valid()
      modifies this`tempering, this`resetStatistics, this`recursionKernel
      ensures Valid()
      ensures tempering == (old(tempering) || weight < 1.0)
      ensures var cleared := old(resetStatistics) && lambda > LAMBDA_RESET_VALUE;
        resetStatistics == (old(resetStatistics) && !cleared) &&
        Kern() == (if cleared then ZeroKernel(lambdaBins, FLambdaBins) else old(Kern())) &&
        (if cleared then fresh(recursionKernel) else recursionKernel == old(recursionKernel))
    {
      if !tempering && weight < 1.0 {
        tempering := true;
      }
      if resetStatistics && lambda > LAMBDA_RESET_VALUE {
        recursionKernel := NewZeroTable(lambdaBins, FLambdaBins);
        resetStatistics := false;
      }
    }

    /** One pass of ReceiveThread.run for a count: grow the axis to cover it,
        then add it. */
    method MergeCount(c: Count)
      requires Valid() && AxesAgree()
      modifies this`recursionKernel, this`FLambdaBins, this`minFLambda, this`maxFLambda
      modifies this`tempering, this`resetStatistics, recursionKernel, this`temperingWeight, FLambda
      ensures Valid() && AxesAgree() && State() == MergeStep(old(State()), c)
      ensures recursionKernel == old(recursionKernel) || fresh(recursionKernel)
      ensures if Covers(old(State()).g, c.dUdL) then unchanged(FLambda) && temperingWeight == old(temperingWeight)
        else Refreshed(old(State()), old(temperingWeight))
    {
      CheckRecursionKernelSize(c.dUdL);
      AddCountInPlace(c);
    }

    /** ReceiveThread.run over the messages it takes in turn: every count is
        merged, up to the termination message (three NaNs). */
    method ReceiveLoop(msgs: seq<Message>)
      requires Valid() && AxesAgree()
      modifies this`recursionKernel, this`FLambdaBins, this`minFLambda, this`maxFLambda
      modifies this`tempering, this`resetStatistics, recursionKernel, this`temperingWeight, FLambda
      ensures Valid() && AxesAgree() && State() == ReceiveAll(old(State()), msgs)
      ensures !tempering ==> temperingWeight == old(temperingWeight)
    {
      var i := 0;
      while i < |msgs| && msgs[i].Received?
        invariant 0 <= i <= |msgs|
        invariant Valid() && AxesAgree()
        invariant ReceiveAll(State(), msgs[i..]) == ReceiveAll(old(State()), msgs)
        invariant !tempering ==> temperingWeight == old(temperingWeight)
        invariant recursionKernel == old(recursionKernel) || fresh(recursionKernel)
        invariant FLambda == old(FLambda)
      {
        StateFits();
        ReceiveAllStep(State(), msgs, i);
        MergeStepLatches(State(), msgs[i].count);
        MergeCount(msgs[i].count);
        i := i + 1;
      }
      StateFits();
      ReceiveAllStops(State(), msgs[i..]);
    }

    /** synchronousSend: the walkers' counts are gathered (allGather, given
        this walker's count), the axis grows to cover the smallest and then the
        largest, and every count is added in order. */
    method SynchronousSend(lambda: real, dEdU: real, allGather: Count -> seq<Count>)
      requires Valid() && AxesAgree()
      modifies this`recursionKernel, this`FLambdaBins, this`minFLambda, this`maxFLambda
      modifies this`tempering, this`resetStatistics, recursionKernel, this`temperingWeight, FLambda
      ensures Valid() && AxesAgree()
      ensures var counts := allGather(Count(lambda, dEdU, old(temperingWeight)));
        State() == SyncMerge(old(State()), counts, RequiredRange(counts))
      ensures var range := RequiredRange(allGather(Count(lambda, dEdU, old(temperingWeight))));
        if Covers(old(State()).g, range.0) && Covers(old(State()).g, range.1)
        then unchanged(FLambda) && temperingWeight == old(temperingWeight)
        else Refreshed(old(State()), old(temperingWeight))
    {
      var counts := allGather(Count(lambda, dEdU, temperingWeight));
      var minRequired, maxRequired := RequiredRangeOf(counts);
      RequiredRangeBounds(counts);
      MergeGathered(counts, minRequired, maxRequired);
    }

    /** The merge half of synchronousSend: both size checks, then every
        gathered count added in order. */
    method MergeGathered(counts: seq<Count>, lo: real, hi: real)
      requires Valid() && AxesAgree()
      requires forall i :: 0 <= i < |counts| ==> lo <= counts[i].dUdL <= hi
      modifies this`recursionKernel, this`FLambdaBins, this`minFLambda, this`maxFLambda
      modifies this`tempering, this`resetStatistics, recursionKernel, this`temperingWeight, FLambda
      ensures Valid() && AxesAgree()
      ensures Fits(old(State()).g, old(State()).K) &&
        State() == SyncMerge(old(State()), counts, (lo, hi))
      ensures if Covers(old(State()).g, lo) && Covers(old(State()).g, hi)
        then unchanged(FLambda) && temperingWeight == old(temperingWeight)
        else Refreshed(old(State()), old(temperingWeight))
    {
      ghost var w := State();
      StateFits();
      SyncCovers(w, counts, (lo, hi));
      GrowToCover(lo, hi);
      AddCounts(counts);
    }

    /** synchronousSend's two size checks, for the smallest and then the
        largest required value. */
    method GrowToCover(lo: real, hi: real)
      requires Valid() && AxesAgree()
      modifies this`recursionKernel, this`FLambdaBins, this`minFLambda, this`maxFLambda
      modifies this`temperingWeight, FLambda
      ensures Valid() && AxesAgree()
      ensures Fits(old(State()).g, old(State()).K) &&
        State() == Resize(Resize(old(State()), lo), hi)
      ensures tempering == old(tempering) && resetStatistics == old(resetStatistics)
      ensures recursionKernel == old(recursionKernel) || fresh(recursionKernel)
      ensures if Covers(old(State()).g, lo) && Covers(old(State()).g, hi)
        then unchanged(FLambda) && temperingWeight == old(temperingWeight)
        else Refreshed(old(State()), old(temperingWeight))
    {
      StateFits();
      ghost var w := State();
      CheckRecursionKernelSize(lo);
      ghost var t := temperingWeight;
      if Covers(w.g, lo) {
        ResizeCovered(w, lo);
      }
      CheckRecursionKernelSize(hi);
      if !Covers(Resize(w, lo).g, hi) {
        RefreshedResize(w, lo, t, old(temperingWeight));
      }
    }

    /** The last loop of synchronousSend: every count, already on the axis, is
        added in order. */
    method AddCounts(counts: seq<Count>)
      requires Valid() && forall i :: 0 <= i < |counts| ==> Covers(Geom(), counts[i].dUdL)
      modifies this`tempering, this`resetStatistics, this`recursionKernel, recursionKernel
      ensures Valid() && State() == AddAll(old(State()), counts)
      ensures recursionKernel == old(recursionKernel) || fresh(recursionKernel)
    {
      var i := 0;
      while i < |counts|
        invariant 0 <= i <= |counts|
        invariant Valid() && Geom() == old(Geom())
        invariant AddAll(State(), counts[i..]) == AddAll(old(State()), counts)
        invariant recursionKernel == old(recursionKernel) || fresh(recursionKernel)
      {
        StateFits();
        assert counts[i..][1..] == counts[i + 1..];
        AddCountInPlace(counts[i]);
        i := i + 1;
      }
    }

    /** The histogram file's view of the walker. */
    function Snapshot(): Histogram
      reads this, recursionKernel
    {
      Histogram(temperature, thetaMass, thetaFriction, biasMag, biasCutoff, countInterval,
                lambdaBins, FLambdaBins, minFLambda, dFL, tempering, Kern())
    }

    /** The axis fields, with the number of kernel offsets. */
    function AxesOf(): Axes
      reads this, kernelOffset
    {
      Axes(lambdaBins, dL, dL_2, minLambda, FLambdaBins, minFLambda, maxFLambda, dFL, dFL_2, kernelOffset.Length)
    }

    /** One row of writeHistogramFile: the first weight, then the others in
        column order. */
    method RowTokens(i: int) returns (line: Line)
      requires Valid() && 0 <= i < lambdaBins
      ensures line == RowLine(Kern()[i])
    {
      ghost var row := Kern()[i];
      line := [Flt(recursionKernel[i, 0])];
      var j := 1;
      while j < FLambdaBins
        invariant 1 <= j <= FLambdaBins && |line| == j
        invariant forall k :: 0 <= k < j ==> line[k] == Flt(row[k])
      {
        line := line + [Flt(recursionKernel[i, j])];
        j := j + 1;
      }
    }

    /** writeHistogramFile: the eleven header lines, then one line of weights
        per lambda bin. */
    method WriteHistogramFile() returns (lines: seq<Line>)
      requires Valid() && IsInt(biasCutoff) && IsInt(countInterval) && IsInt(lambdaBins) && IsInt(FLambdaBins)
      ensures Writable(Snapshot()) && lines == WriteHistogram(Snapshot())
    {
      var flag := 0;
      if tempering {
        flag := 1;
      }
      lines := [[Word("Temperature"), Flt(temperature)], [Word("Lambda-Mass"), Flt(thetaMass)],
                [Word("Lambda-Friction"), Flt(thetaFriction)], [Word("Bias-Mag"), Flt(biasMag)],
                [Word("Bias-Cutoff"), Dec(biasCutoff)], [Word("Count-Interval"), Dec(countInterval)],
                [Word("Lambda-Bins"), Dec(lambdaBins)], [Word("FLambda-Bins"), Dec(FLambdaBins)],
                [Word("Flambda-Min"), Flt(minFLambda)], [Word("Flambda-Width"), Flt(dFL)],
                [Word("Tempering"), Dec(flag)]];
      ghost var expected := WriteHistogram(Snapshot());
      var i := 0;
      while i < lambdaBins
        invariant 0 <= i <= lambdaBins && |lines| == HEADER_LINES + i
        invariant forall k :: 0 <= k < HEADER_LINES + i ==> lines[k] == expected[k]
      {
        var row := RowTokens(i);
        lines := lines + [row];
        i := i + 1;
      }
    }

    /** readHistogramFile: on a file that parses to a histogram a walker can
        continue from, every recorded field is taken from it (see
        ApplyHistogram); any other file changes nothing. */
    method ReadHistogramFile(lines: seq<Line>) returns (ok: bool)
      requires Valid() && AxesAgree()
      modifies this
      ensures Valid() && AxesAgree()
      ensures ok <==> ReadHistogram(lines).Ok? && Usable(ReadHistogram(lines).value)
      ensures ok ==> var h := ReadHistogram(lines).value;
        Snapshot() == h && AxesOf() == ReadAxes(h) &&
        fresh(recursionKernel) && fresh(kernelOffset) && fresh(FLambda) &&
        (forall i :: 0 <= i < lambdaBins ==> kernelOffset[i] == 0.0 && FLambda[i] == 0.0)
      ensures !ok ==> unchanged(this)
    {
      var read := ReadHistogram(lines);
      if read.Err? || !Usable(read.value) {
        return false;
      }
      ReadAxesConsistent(AxesOf(), read.value);
      ApplyHistogram(read.value, ReadAxes(read.value));
      ok := true;
    }

    /** The assignments of readHistogramFile for a usable histogram h and the
        axes it implies: the recorded fields and the kernel from the file, the
        derived axis fields and fresh per-lambda-bin arrays for the new bins. */
    method ApplyHistogram(h: Histogram, axes: Axes)
      requires Valid() && Usable(h) && Consistent(axes) && axes.dL > 0.0
      requires axes.lambdaBins == h.lambdaBins && axes.FLambdaBins == h.FLambdaBins
      requires axes.minFLambda == h.minFLambda && axes.dFL == h.dFL
      modifies this`temperature, this`thetaMass, this`thetaFriction, this`biasMag, this`biasCutoff, this`countInterval, this`tempering
      modifies this`lambdaBins, this`dL, this`dL_2, this`minLambda, this`FLambdaBins, this`minFLambda, this`maxFLambda, this`dFL, this`dFL_2
      modifies this`recursionKernel, this`kernelOffset, this`FLambda
      ensures Valid() && AxesAgree()
      ensures Snapshot() == h && AxesOf() == axes
      ensures fresh(recursionKernel) && fresh(kernelOffset) && fresh(FLambda)
      ensures forall i :: 0 <= i < lambdaBins ==> kernelOffset[i] == 0.0 && FLambda[i] == 0.0
      ensures deltaT == old(deltaT)
    {
      SetRecorded(h);
      SetAxes(axes);
      SetArrays(h.kernel, h.lambdaBins, h.FLambdaBins);
    }

    /** A fresh kernel holding K and fresh, zeroed per-lambda-bin arrays. */
    method SetArrays(K: Kernel, rows: nat, cols: nat)
      requires Shaped(K, rows, cols)
      modifies this`recursionKernel, this`kernelOffset, this`FLambda
      ensures fresh(recursionKernel) && fresh(kernelOffset) && fresh(FLambda)
      ensures recursionKernel.Length0 == rows && recursionKernel.Length1 == cols && Kern() == K
      ensures kernelOffset.Length == rows && FLambda.Length == rows && kernelOffset != FLambda
      ensures forall i :: 0 <= i < rows ==> kernelOffset[i] == 0.0 && FLambda[i] == 0.0
    {
      kernelOffset := new real[rows](i => 0.0);
      FLambda := new real[rows](i => 0.0);
      recursionKernel := TableOf(K, rows, cols);
    }

    /** The recorded fields readHistogramFile takes as they are. */
    method SetRecorded(h: Histogram)
      modifies this`temperature, this`thetaMass, this`thetaFriction, this`biasMag, this`biasCutoff, this`countInterval, this`tempering
      ensures temperature == h.temperature && thetaMass == h.thetaMass && thetaFriction == h.thetaFriction
      ensures biasMag == h.biasMag && biasCutoff == h.biasCutoff && countInterval == h.countInterval && tempering == h.tempering
    {
      temperature := h.temperature;
      thetaMass := h.thetaMass;
      thetaFriction := h.thetaFriction;
      biasMag := h.biasMag;
      biasCutoff := h.biasCutoff;
      countInterval := h.countInterval;
      tempering := h.tempering;
    }

    /** The lambda and dU/dL axis fields. */
    method SetAxes(a: Axes)
      modifies this`lambdaBins, this`dL, this`dL_2, this`minLambda, this`FLambdaBins, this`minFLambda, this`maxFLambda, this`dFL, this`dFL_2
      ensures lambdaBins == a.lambdaBins && dL == a.dL && dL_2 == a.dL_2 && minLambda == a.minLambda
      ensures FLambdaBins == a.FLambdaBins && minFLambda == a.minFLambda && maxFLambda == a.maxFLambda && dFL == a.dFL && dFL_2 == a.dFL_2
    {
      lambdaBins := a.lambdaBins;
      dL := a.dL;
      dL_2 := a.dL_2;
      minLambda := a.minLambda;
      FLambdaBins := a.FLambdaBins;
      minFLambda := a.minFLambda;
      maxFLambda := a.maxFLambda;
      dFL := a.dFL;
      dFL_2 := a.dFL_2;
    }

    /** writeLambdaFile: lambda, its velocity and the steps taken. */
    method WriteLambdaFile() returns (lines: seq<Line>)
      ensures lines == WriteLambda(LambdaRecord(lambda, halfThetaVelocity, energyCount))
    {
      lines := [[Word("Lambda"), Flt(lambda)],
                [Word("Lambda-Velocity"), Flt(halfThetaVelocity)],
                [Word("Steps-Taken"), Dec(energyCount)]];
    }

    /** readLambdaFile: lambda is taken as soon as its line parses, the
        velocity only when both lines parse, and, unless the count is reset,
        the steps taken from the next line when it parses. */
    method ReadLambdaFile(lines: seq<Line>, resetEnergyCount: bool)
      requires Valid()
      modifies this`lambda, this`halfThetaVelocity, this`energyCount
      ensures Valid() && State() == old(State())
      ensures var r := ReadLambda(lines, resetEnergyCount);
        lambda == (if r.lambda.Some? then r.lambda.value else old(lambda)) &&
        halfThetaVelocity == (if r.halfThetaVelocity.Some? then r.halfThetaVelocity.value else old(halfThetaVelocity)) &&
        energyCount == (if r.energyCount.Some? then r.energyCount.value else old(energyCount))
    {
      var read := ReadLambda(lines, resetEnergyCount);
      if read.lambda.Some? {
        lambda := read.lambda.value;
      }
      if read.halfThetaVelocity.Some? {
        halfThetaVelocity := read.halfThetaVelocity.value;
      }
      if read.energyCount.Some? {
        energyCount := read.energyCount.value;
      }
    }

    /** energy(x): evaluates the energy and gradient with lambda propagation
        switched off, then restores the flag it found. */
    method Energy(energyAndGradient: (seq<real>, bool) -> real, x: seq<real>) returns (e: real)
      requires Valid()
      modifies this`propagateLambda
      ensures Valid() && State() == old(State())
      ensures e == energyAndGradient(x, false)
      ensures propagateLambda == old(propagateLambda)
    {
      var origPropagateLambda := propagateLambda;
      propagateLambda := false;
      e := energyAndGradient(x, propagateLambda);
      propagateLambda := origPropagateLambda;
    }
  }
}
