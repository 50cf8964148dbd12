// The read-only sums of TransitionTemperedOSRW over the recursion kernel: the
// lambda mirror fold, the Gaussian kernel evaluation, the bias energy, and the
// per-lambda-bin statistics that updateFLambda turns into F(lambda), the free
// energy and the minimum bias coverage. The kernel is a sequence of rows, one
// per lambda bin, each holding one accumulated weight per dU/dL bin. `Exp`
// stands for FastMath.exp, which is not part of this model.
module OsrwKernel {
  import opened JavaLang
  import opened OsrwGeometry

  type Kernel = seq<seq<real>>

  /** The walker fields the kernel sums read. */
  datatype Geometry = Geometry(lambdaBins: int, dL: real, minLambda: real,
                               FLambdaBins: int, minFLambda: real, dFL: real,
                               biasCutoff: int, biasMag: real)

  predicate Shaped(K: Kernel, rows: int, cols: int)
  {
    |K| == rows && forall i :: 0 <= i < |K| ==> |K[i]| == cols
  }

  /** The kernel matches the geometry, and the bias cutoff is small enough that
      mirror folding keeps every virtual lambda bin inside the kernel. */
  predicate Fits(g: Geometry, K: Kernel)
  {
    g.lambdaBins >= 2 && g.dL > 0.0 && g.FLambdaBins >= 1 && g.dFL > 0.0 && g.biasCutoff < g.lambdaBins &&
    Shaped(K, g.lambdaBins, g.FLambdaBins)
  }

  function Zeros(n: nat): (z: seq<real>)
    ensures |z| == n && forall j :: 0 <= j < n ==> z[j] == 0.0
  {
    seq(n, _ => 0.0)
  }

  function ZeroKernel(rows: nat, cols: nat): (K: Kernel)
    ensures Shaped(K, rows, cols)
    ensures forall i, j :: 0 <= i < rows && 0 <= j < cols ==> K[i][j] == 0.0
  {
    seq(rows, _ => Zeros(cols))
  }

  // ------------------------------------------------------------ weights

  /** The kernel after one sample's weight is added to cell [l][f]. */
  function AddWeight(K: Kernel, l: int, f: int, w: real): (K': Kernel)
    requires 0 <= l < |K| && 0 <= f < |K[l]|
    ensures |K'| == |K| && forall i :: 0 <= i < |K| ==> |K'[i]| == |K[i]|
    ensures forall i, j :: 0 <= i < |K| && 0 <= j < |K[i]| ==>
      K'[i][j] == if i == l && j == f then K[i][j] + w else K[i][j]
  {
    K[l := K[l][f := K[l][f] + w]]
  }

  function RowSum(r: seq<real>): real
  {
    if |r| == 0 then 0.0 else RowSum(r[..|r| - 1]) + r[|r| - 1]
  }

  /** The total weight accumulated in the kernel. */
  function Total(K: Kernel): real
  {
    if |K| == 0 then 0.0 else Total(K[..|K| - 1]) + RowSum(K[|K| - 1])
  }

  lemma {:induction false} RowSumAppend(a: seq<real>, b: seq<real>)
    ensures RowSum(a + b) == RowSum(a) + RowSum(b)
    decreases |b|
  {
    if |b| > 0 {
      assert (a + b)[..|a + b| - 1] == a + b[..|b| - 1];
      RowSumAppend(a, b[..|b| - 1]);
    } else {
      assert a + b == a;
    }
  }

  lemma {:induction false} RowSumZeros(n: nat)
    ensures RowSum(Zeros(n)) == 0.0
  {
    if n > 0 {
      assert Zeros(n)[..n - 1] == Zeros(n - 1);
      RowSumZeros(n - 1);
    }
  }

  lemma {:induction false} RowSumUpdate(r: seq<real>, f: int, w: real)
    requires 0 <= f < |r|
    ensures RowSum(r[f := r[f] + w]) == RowSum(r) + w
    decreases |r|
  {
    var r' := r[f := r[f] + w];
    if f == |r| - 1 {
      assert r'[..|r'| - 1] == r[..|r| - 1];
    } else {
      assert r'[..|r'| - 1] == r[..|r| - 1][f := r[f] + w];
      RowSumUpdate(r[..|r| - 1], f, w);
    }
  }

  /** Adding a sample raises the total weight by exactly that sample's weight. */
  lemma {:induction false} TotalAddWeight(K: Kernel, l: int, f: int, w: real)
    requires 0 <= l < |K| && 0 <= f < |K[l]|
    ensures Total(AddWeight(K, l, f, w)) == Total(K) + w
    decreases |K|
  {
    var K' := AddWeight(K, l, f, w);
    if l == |K| - 1 {
      assert K'[..|K'| - 1] == K[..|K| - 1];
      RowSumUpdate(K[l], f, w);
    } else {
      assert K'[..|K'| - 1] == AddWeight(K[..|K| - 1], l, f, w);
      TotalAddWeight(K[..|K| - 1], l, f, w);
    }
  }

  // ------------------------------------------------------------ resizing

  /** The kernel after the dU/dL axis gains `off` empty bins below and `extra`
      empty bins above: every old cell [i][j] moves to [i][j + off]. */
  function Embed(K: Kernel, off: nat, extra: nat): (K': Kernel)
    ensures |K'| == |K|
    ensures forall i :: 0 <= i < |K| ==> K'[i] == Zeros(off) + K[i] + Zeros(extra)
  {
    seq(|K|, i requires 0 <= i < |K| => Zeros(off) + K[i] + Zeros(extra))
  }

  /** The geometry after the same growth: the minimum moves down by `off` bins. */
  function Grown(g: Geometry, off: nat, extra: nat): Geometry
  {
    g.(FLambdaBins := g.FLambdaBins + off + extra, minFLambda := g.minFLambda - off as real * g.dFL)
  }

  lemma EmbedFits(g: Geometry, K: Kernel, off: nat, extra: nat)
    requires Fits(g, K)
    ensures Fits(Grown(g, off, extra), Embed(K, off, extra))
  {
  }

  /** Growing the axis keeps every weight: the total is unchanged. */
  lemma {:induction false} TotalEmbed(K: Kernel, off: nat, extra: nat)
    ensures Total(Embed(K, off, extra)) == Total(K)
    decreases |K|
  {
    if |K| > 0 {
      var n := |K| - 1;
      assert Embed(K, off, extra)[..n] == Embed(K[..n], off, extra);
      TotalEmbed(K[..n], off, extra);
      RowSumAppend(Zeros(off) + K[n], Zeros(extra));
      RowSumAppend(Zeros(off), K[n]);
      RowSumZeros(off);
      RowSumZeros(extra);
    }
  }

  // ------------------------------------------------------------ mirror fold

  /** A lambda bin centre folded back onto the kernel, with its count factor. */
  datatype Fold = Fold(index: int, mirrorFactor: real)

  /** The mirror condition: the first and last bins (half width) count double,
      a bin below 0 reflects about bin 0 and a bin past the last reflects about
      the last. Every virtual bin less than one axis length outside lands inside. */
  function FoldLambda(lcenter: int, lambdaBins: int): (f: Fold)
    requires lambdaBins >= 1
    ensures f.mirrorFactor == (if lcenter == 0 || lcenter == lambdaBins - 1 then 2.0 else 1.0)
    ensures 0 <= lcenter < lambdaBins ==> f.index == lcenter
    ensures lcenter < 0 && lcenter != lambdaBins - 1 ==> f.index == -lcenter
    ensures lcenter > lambdaBins - 1 && lcenter != 0 ==> f.index - (lambdaBins - 1) == (lambdaBins - 1) - lcenter
    ensures -(lambdaBins - 1) <= lcenter <= 2 * (lambdaBins - 1) ==> 0 <= f.index < lambdaBins
  {
    if lcenter == 0 || lcenter == lambdaBins - 1 then Fold(lcenter, 2.0)
    else if lcenter < 0 then Fold(-lcenter, 1.0)
    else if lcenter > lambdaBins - 1 then
      var past := lcenter - (lambdaBins - 1);
      Fold(lambdaBins - 1 - past, 1.0)
    else Fold(lcenter, 1.0)
  }

  // ------------------------------------------------------ evaluateKernel

  /** The Gaussian factor of evaluateKernel along lambda, between the centre of
      bin cLambda and the centre of bin cLambda + iL (variance (2 dL)^2). */
  function LambdaFactor(Exp: real -> real, dL: real, cLambda: int, iL: int): real
    requires dL > 0.0
  {
    var vL := cLambda as real * dL;
    var invLs2 := 0.5 / (2.0 * dL * 2.0 * dL);
    var deltaL := vL - (cLambda + iL) as real * dL;
    Exp(-(deltaL * deltaL) * invLs2)
  }

  /** The distance along dU/dL between the centres of bins cFLambda and FLcenter. */
  function DeltaFL(g: Geometry, cFLambda: int, FLcenter: int): real
  {
    var vFL := g.minFLambda + cFLambda as real * g.dFL + g.dFL / 2.0;
    vFL - (g.minFLambda + FLcenter as real * g.dFL + g.dFL / 2.0)
  }

  /** The Gaussian factor of evaluateKernel along dU/dL (variance (2 dFL)^2). */
  function FLambdaFactor(Exp: real -> real, dFL: real, deltaFL: real): real
    requires dFL > 0.0
  {
    var invFLs2 := 0.5 / (2.0 * dFL * 2.0 * dFL);
    Exp(-(deltaFL * deltaFL) * invFLs2)
  }

  /** The mirrored count of virtual lambda bin cLambda + iL in dU/dL bin FLcenter. */
  function MirroredWeight(g: Geometry, K: Kernel, cLambda: int, iL: int, FLcenter: int): real
    requires Fits(g, K) && 0 <= cLambda < g.lambdaBins && -g.biasCutoff <= iL <= g.biasCutoff
    requires 0 <= FLcenter < g.FLambdaBins
  {
    var fold := FoldLambda(cLambda + iL, g.lambdaBins);
    fold.mirrorFactor * K[fold.index][FLcenter]
  }

  /** One term of evaluateKernel at bin centre (cLambda, cFLambda) for offsets
      (iL, jFL): zero outside the dU/dL axis or for a non-positive weight. */
  function KernelTerm(g: Geometry, K: Kernel, Exp: real -> real, cLambda: int, cFLambda: int, iL: int, jFL: int): real
    requires Fits(g, K) && 0 <= cLambda < g.lambdaBins && -g.biasCutoff <= iL <= g.biasCutoff
  {
    var FLcenter := cFLambda + jFL;
    if FLcenter < 0 || FLcenter >= g.FLambdaBins then 0.0
    else
      var weight := MirroredWeight(g, K, cLambda, iL, FLcenter);
      if weight > 0.0 then
        weight * g.biasMag * LambdaFactor(Exp, g.dL, cLambda, iL) * FLambdaFactor(Exp, g.dFL, DeltaFL(g, cFLambda, FLcenter))
      else 0.0
  }

  function KernelRowSum(g: Geometry, K: Kernel, Exp: real -> real, cLambda: int, cFLambda: int, iL: int, jFL: int): real
    requires Fits(g, K) && 0 <= cLambda < g.lambdaBins && -g.biasCutoff <= iL <= g.biasCutoff
    decreases g.biasCutoff - jFL
  {
    if jFL > g.biasCutoff then 0.0
    else KernelTerm(g, K, Exp, cLambda, cFLambda, iL, jFL) + KernelRowSum(g, K, Exp, cLambda, cFLambda, iL, jFL + 1)
  }

  function KernelSum(g: Geometry, K: Kernel, Exp: real -> real, cLambda: int, cFLambda: int, iL: int): real
    requires Fits(g, K) && 0 <= cLambda < g.lambdaBins && -g.biasCutoff <= iL
    decreases g.biasCutoff - iL
  {
    if iL > g.biasCutoff then 0.0
    else KernelRowSum(g, K, Exp, cLambda, cFLambda, iL, -g.biasCutoff) + KernelSum(g, K, Exp, cLambda, cFLambda, iL + 1)
  }

  /** evaluateKernel: the Gaussian-smoothed bias at the centre of bin (cLambda, cFLambda). */
  function EvaluateKernel(g: Geometry, K: Kernel, Exp: real -> real, cLambda: int, cFLambda: int): real
    requires Fits(g, K) && 0 <= cLambda < g.lambdaBins
  {
    KernelSum(g, K, Exp, cLambda, cFLambda, -g.biasCutoff)
  }

  ghost predicate NonNegativeFunction(Exp: real -> real) { forall x :: Exp(x) >= 0.0 }

  /** Only positive weights contribute, so with a non-negative exponential and
      bias magnitude the kernel value is never negative. */
  lemma {:induction false} KernelSumNonNegative(g: Geometry, K: Kernel, Exp: real -> real, cLambda: int, cFLambda: int, iL: int)
    requires Fits(g, K) && 0 <= cLambda < g.lambdaBins && -g.biasCutoff <= iL
    requires NonNegativeFunction(Exp) && g.biasMag >= 0.0
    ensures KernelSum(g, K, Exp, cLambda, cFLambda, iL) >= 0.0
    decreases g.biasCutoff - iL
  {
    if iL <= g.biasCutoff {
      KernelRowSumNonNegative(g, K, Exp, cLambda, cFLambda, iL, -g.biasCutoff);
      KernelSumNonNegative(g, K, Exp, cLambda, cFLambda, iL + 1);
    }
  }

  lemma {:induction false} KernelRowSumNonNegative(g: Geometry, K: Kernel, Exp: real -> real, cLambda: int, cFLambda: int, iL: int, jFL: int)
    requires Fits(g, K) && 0 <= cLambda < g.lambdaBins && -g.biasCutoff <= iL <= g.biasCutoff
    requires NonNegativeFunction(Exp) && g.biasMag >= 0.0
    ensures KernelRowSum(g, K, Exp, cLambda, cFLambda, iL, jFL) >= 0.0
    decreases g.biasCutoff - jFL
  {
    if jFL <= g.biasCutoff {
      KernelTermNonNegative(g, K, Exp, cLambda, cFLambda, iL, jFL);
      KernelRowSumNonNegative(g, K, Exp, cLambda, cFLambda, iL, jFL + 1);
    }
  }

  lemma KernelTermNonNegative(g: Geometry, K: Kernel, Exp: real -> real, cLambda: int, cFLambda: int, iL: int, jFL: int)
    requires Fits(g, K) && 0 <= cLambda < g.lambdaBins && -g.biasCutoff <= iL <= g.biasCutoff
    requires NonNegativeFunction(Exp) && g.biasMag >= 0.0
    ensures KernelTerm(g, K, Exp, cLambda, cFLambda, iL, jFL) >= 0.0
  {
    var FLcenter := cFLambda + jFL;
    if 0 <= FLcenter < g.FLambdaBins {
      var weight := MirroredWeight(g, K, cLambda, iL, FLcenter);
      var a := LambdaFactor(Exp, g.dL, cLambda, iL);
      var b := FLambdaFactor(Exp, g.dFL, DeltaFL(g, cFLambda, FLcenter));
      if weight > 0.0 {
        assert a >= 0.0 && b >= 0.0;
        assert weight * g.biasMag * a >= 0.0;
        assert weight * g.biasMag * a * b >= 0.0;
      }
    }
  }

  lemma EvaluateKernelNonNegative(g: Geometry, K: Kernel, Exp: real -> real, cLambda: int, cFLambda: int)
    requires Fits(g, K) && 0 <= cLambda < g.lambdaBins
    requires NonNegativeFunction(Exp) && g.biasMag >= 0.0
    ensures EvaluateKernel(g, K, Exp, cLambda, cFLambda) >= 0.0
  {
    KernelSumNonNegative(g, K, Exp, cLambda, cFLambda, -g.biasCutoff);
  }

  // -------------------------------------------- invariance under resizing

  lemma DeltaFLEmbed(g: Geometry, off: nat, extra: nat, cFLambda: int, FLcenter: int)
    ensures DeltaFL(Grown(g, off, extra), cFLambda + off, FLcenter + off) == DeltaFL(g, cFLambda, FLcenter)
  {
    var d := g.dFL;
    assert (cFLambda + off) as real * d == cFLambda as real * d + off as real * d;
    assert (FLcenter + off) as real * d == FLcenter as real * d + off as real * d;
  }

  /** A cell of the old axis keeps its weight at its shifted index; a cell the
      growth added weighs nothing. */
  lemma MirroredWeightEmbed(g: Geometry, K: Kernel, off: nat, extra: nat, cLambda: int, iL: int, FLcenter: int)
    requires Fits(g, K) && 0 <= cLambda < g.lambdaBins && -g.biasCutoff <= iL <= g.biasCutoff
    requires 0 <= FLcenter + off < g.FLambdaBins + off + extra
    ensures Fits(Grown(g, off, extra), Embed(K, off, extra))
    ensures MirroredWeight(Grown(g, off, extra), Embed(K, off, extra), cLambda, iL, FLcenter + off)
         == if 0 <= FLcenter < g.FLambdaBins then MirroredWeight(g, K, cLambda, iL, FLcenter) else 0.0
  {
    EmbedFits(g, K, off, extra);
    var K' := Embed(K, off, extra);
    var fold := FoldLambda(cLambda + iL, g.lambdaBins);
    if 0 <= FLcenter < g.FLambdaBins {
      assert K'[fold.index][FLcenter + off] == K[fold.index][FLcenter];
    } else {
      assert K'[fold.index][FLcenter + off] == 0.0;
    }
  }

  lemma KernelTermEmbed(g: Geometry, K: Kernel, Exp: real -> real, off: nat, extra: nat, cLambda: int, cFLambda: int, iL: int, jFL: int)
    requires Fits(g, K) && 0 <= cLambda < g.lambdaBins && -g.biasCutoff <= iL <= g.biasCutoff
    ensures Fits(Grown(g, off, extra), Embed(K, off, extra))
    ensures KernelTerm(Grown(g, off, extra), Embed(K, off, extra), Exp, cLambda, cFLambda + off, iL, jFL)
         == KernelTerm(g, K, Exp, cLambda, cFLambda, iL, jFL)
  {
    EmbedFits(g, K, off, extra);
    var FLcenter := cFLambda + jFL;
    DeltaFLEmbed(g, off, extra, cFLambda, FLcenter);
    if 0 <= FLcenter + off < g.FLambdaBins + off + extra {
      MirroredWeightEmbed(g, K, off, extra, cLambda, iL, FLcenter);
    }
  }

  lemma {:induction false} KernelRowSumEmbed(g: Geometry, K: Kernel, Exp: real -> real, off: nat, extra: nat, cLambda: int, cFLambda: int, iL: int, jFL: int)
    requires Fits(g, K) && 0 <= cLambda < g.lambdaBins && -g.biasCutoff <= iL <= g.biasCutoff
    ensures Fits(Grown(g, off, extra), Embed(K, off, extra))
    ensures KernelRowSum(Grown(g, off, extra), Embed(K, off, extra), Exp, cLambda, cFLambda + off, iL, jFL)
         == KernelRowSum(g, K, Exp, cLambda, cFLambda, iL, jFL)
    decreases g.biasCutoff - jFL
  {
    EmbedFits(g, K, off, extra);
    if jFL <= g.biasCutoff {
      KernelTermEmbed(g, K, Exp, off, extra, cLambda, cFLambda, iL, jFL);
      KernelRowSumEmbed(g, K, Exp, off, extra, cLambda, cFLambda, iL, jFL + 1);
    }
  }

  lemma {:induction false} KernelSumEmbed(g: Geometry, K: Kernel, Exp: real -> real, off: nat, extra: nat, cLambda: int, cFLambda: int, iL: int)
    requires Fits(g, K) && 0 <= cLambda < g.lambdaBins && -g.biasCutoff <= iL
    ensures Fits(Grown(g, off, extra), Embed(K, off, extra))
    ensures KernelSum(Grown(g, off, extra), Embed(K, off, extra), Exp, cLambda, cFLambda + off, iL)
         == KernelSum(g, K, Exp, cLambda, cFLambda, iL)
    decreases g.biasCutoff - iL
  {
    EmbedFits(g, K, off, extra);
    if iL <= g.biasCutoff {
      KernelRowSumEmbed(g, K, Exp, off, extra, cLambda, cFLambda, iL, -g.biasCutoff);
      KernelSumEmbed(g, K, Exp, off, extra, cLambda, cFLambda, iL + 1);
    }
  }

  /** Growing the dU/dL axis moves the kernel value of every bin with its bin. */
  lemma EvaluateKernelEmbed(g: Geometry, K: Kernel, Exp: real -> real, off: nat, extra: nat, cLambda: int, cFLambda: int)
    requires Fits(g, K) && 0 <= cLambda < g.lambdaBins
    ensures Fits(Grown(g, off, extra), Embed(K, off, extra))
    ensures EvaluateKernel(Grown(g, off, extra), Embed(K, off, extra), Exp, cLambda, cFLambda + off)
         == EvaluateKernel(g, K, Exp, cLambda, cFLambda)
  {
    KernelSumEmbed(g, K, Exp, off, extra, cLambda, cFLambda, -g.biasCutoff);
  }

  // ---------------------------------------------------- computeBiasEnergy

  lemma GaussDenominatorPositive(width: real)
    requires width > 0.0
    ensures 2.0 * ((2.0 * width) * (2.0 * width)) > 0.0
  {
    ScaleStrict(0.0, 2.0 * width, 2.0 * width);
  }

  /** The Gaussian factor exp(-delta^2 / (2 s2)) of computeBiasEnergy, with
      variance s2 = (2 width)^2. */
  function GaussFactor(Exp: real -> real, delta: real, width: real): real
    requires width > 0.0
  {
    GaussDenominatorPositive(width);
    Exp(-(delta * delta) / (2.0 * ((2.0 * width) * (2.0 * width))))
  }

  /** The dU/dL value at the centre of bin j. */
  function Center(g: Geometry, j: int): real
  {
    g.minFLambda + j as real * g.dFL + g.dFL / 2.0
  }

  /** The contribution of one kernel cell to the bias, given its weight and the
      walker's distances deltaL and deltaFL from the cell's centre. */
  function BiasCell(Exp: real -> real, weight: real, biasMag: real, deltaL: real, dL: real, deltaFL: real, dFL: real): real
    requires dL > 0.0 && dFL > 0.0
  {
    weight * biasMag * GaussFactor(Exp, deltaL, dL) * GaussFactor(Exp, deltaFL, dFL)
  }

  /** One term of computeBiasEnergy's kernel sum for a walker at (lambda, dUdL)
      sitting in bins (lambdaBin, FLambdaBin); zero outside the dU/dL axis. Unlike
      evaluateKernel, the source does not skip non-positive weights here. */
  function BiasTerm(g: Geometry, K: Kernel, Exp: real -> real, lambda: real, dUdL: real,
                    lambdaBin: int, FLambdaBin: int, iL: int, iFL: int): real
    requires Fits(g, K) && 0 <= lambdaBin < g.lambdaBins && -g.biasCutoff <= iL <= g.biasCutoff
  {
    var FLcenter := FLambdaBin + iFL;
    if FLcenter < 0 || FLcenter >= g.FLambdaBins then 0.0
    else
      BiasCell(Exp, MirroredWeight(g, K, lambdaBin, iL, FLcenter), g.biasMag,
               lambda - (lambdaBin + iL) as real * g.dL, g.dL, dUdL - Center(g, FLcenter), g.dFL)
  }

  function BiasRowSum(g: Geometry, K: Kernel, Exp: real -> real, lambda: real, dUdL: real,
                      lambdaBin: int, FLambdaBin: int, iL: int, iFL: int): real
    requires Fits(g, K) && 0 <= lambdaBin < g.lambdaBins && -g.biasCutoff <= iL <= g.biasCutoff
    decreases g.biasCutoff - iFL
  {
    if iFL > g.biasCutoff then 0.0
    else
      BiasTerm(g, K, Exp, lambda, dUdL, lambdaBin, FLambdaBin, iL, iFL)
      + BiasRowSum(g, K, Exp, lambda, dUdL, lambdaBin, FLambdaBin, iL, iFL + 1)
  }

  function BiasSum(g: Geometry, K: Kernel, Exp: real -> real, lambda: real, dUdL: real,
                   lambdaBin: int, FLambdaBin: int, iL: int): real
    requires Fits(g, K) && 0 <= lambdaBin < g.lambdaBins && -g.biasCutoff <= iL
    decreases g.biasCutoff - iL
  {
    if iL > g.biasCutoff then 0.0
    else
      BiasRowSum(g, K, Exp, lambda, dUdL, lambdaBin, FLambdaBin, iL, -g.biasCutoff)
      + BiasSum(g, K, Exp, lambda, dUdL, lambdaBin, FLambdaBin, iL + 1)
  }

  /** The kernel part of computeBiasEnergy(lambda, dUdL); the one-dimensional
      bias current1DBiasEnergy that the source adds to it is not part of this model. */
  function KernelBiasEnergy(g: Geometry, K: Kernel, Exp: real -> real, lambda: real, dUdL: real): real
    requires Fits(g, K)
  {
    var lambdaBin := BinForLambda(lambda, g.minLambda, g.dL, g.lambdaBins);
    var FLambdaBin := BinForFLambda(dUdL, g.minFLambda, g.dFL, g.FLambdaBins);
    BiasSum(g, K, Exp, lambda, dUdL, lambdaBin, FLambdaBin, -g.biasCutoff)
  }

  lemma FloorUnique(k1: int, k2: int, x: real, d: real)
    requires d > 0.0
    requires k1 as real * d <= x < (k1 + 1) as real * d
    requires k2 as real * d <= x < (k2 + 1) as real * d
    ensures k1 == k2
  {
    if k1 < k2 { ScaleMonotone((k1 + 1) as real, k2 as real, d); }
    if k2 < k1 { ScaleMonotone((k2 + 1) as real, k1 as real, d); }
  }

  /** Shifting the axis origin down by `off` bins raises the floored bin
      coordinate of every sample by exactly `off`. */
  lemma ShiftedFloor(u: real, m: real, d: real, off: nat)
    requires d > 0.0
    ensures ((u - (m - off as real * d)) / d).Floor == ((u - m) / d).Floor + off
  {
    var y := (u - m) / d;
    assert y * d == u - m;
    assert (y + off as real) * d == u - (m - off as real * d);
    assert (u - (m - off as real * d)) / d == y + off as real;
  }

  /** A sample strictly inside the dU/dL axis keeps its bin, shifted by `off`,
      when the axis grows by `off` bins below and `extra` bins above. */
  lemma BinForFLambdaEmbed(g: Geometry, off: nat, extra: nat, dUdL: real)
    requires g.dFL > 0.0 && g.FLambdaBins >= 1
    requires g.minFLambda <= dUdL < g.minFLambda + g.FLambdaBins as real * g.dFL
    ensures var g' := Grown(g, off, extra);
      BinForFLambda(dUdL, g'.minFLambda, g'.dFL, g'.FLambdaBins) == BinForFLambda(dUdL, g.minFLambda, g.dFL, g.FLambdaBins) + off
  {
    var m, d, n := g.minFLambda, g.dFL, g.FLambdaBins;
    var m', n' := m - off as real * d, n + off + extra;
    assert Grown(g, off, extra).minFLambda == m' && Grown(g, off, extra).FLambdaBins == n';
    var k := ((dUdL - m) / d).Floor;
    FloorInAxis(dUdL - m, d, n);
    assert 0 <= k < n;
    ShiftedFloor(dUdL, m, d, off);
    assert ((dUdL - m') / d).Floor == k + off;
    assert BinForFLambda(dUdL, m, d, n) == k;
    assert BinForFLambda(dUdL, m', d, n') == k + off;
  }

  lemma BiasTermEmbed(g: Geometry, K: Kernel, Exp: real -> real, off: nat, extra: nat, lambda: real, dUdL: real,
                      lambdaBin: int, FLambdaBin: int, iL: int, iFL: int)
    requires Fits(g, K) && 0 <= lambdaBin < g.lambdaBins && -g.biasCutoff <= iL <= g.biasCutoff
    ensures Fits(Grown(g, off, extra), Embed(K, off, extra))
    ensures BiasTerm(Grown(g, off, extra), Embed(K, off, extra), Exp, lambda, dUdL, lambdaBin, FLambdaBin + off, iL, iFL)
         == BiasTerm(g, K, Exp, lambda, dUdL, lambdaBin, FLambdaBin, iL, iFL)
  {
    EmbedFits(g, K, off, extra);
    var FLcenter := FLambdaBin + iFL;
    CenterEmbed(g, off, extra, FLcenter);
    if 0 <= FLcenter + off < g.FLambdaBins + off + extra {
      MirroredWeightEmbed(g, K, off, extra, lambdaBin, iL, FLcenter);
    }
  }

  lemma {:induction false} BiasRowSumEmbed(g: Geometry, K: Kernel, Exp: real -> real, off: nat, extra: nat, lambda: real, dUdL: real,
                                           lambdaBin: int, FLambdaBin: int, iL: int, iFL: int)
    requires Fits(g, K) && 0 <= lambdaBin < g.lambdaBins && -g.biasCutoff <= iL <= g.biasCutoff
    ensures Fits(Grown(g, off, extra), Embed(K, off, extra))
    ensures BiasRowSum(Grown(g, off, extra), Embed(K, off, extra), Exp, lambda, dUdL, lambdaBin, FLambdaBin + off, iL, iFL)
         == BiasRowSum(g, K, Exp, lambda, dUdL, lambdaBin, FLambdaBin, iL, iFL)
    decreases g.biasCutoff - iFL
  {
    EmbedFits(g, K, off, extra);
    if iFL <= g.biasCutoff {
      BiasTermEmbed(g, K, Exp, off, extra, lambda, dUdL, lambdaBin, FLambdaBin, iL, iFL);
      BiasRowSumEmbed(g, K, Exp, off, extra, lambda, dUdL, lambdaBin, FLambdaBin, iL, iFL + 1);
    }
  }

  lemma {:induction false} BiasSumEmbed(g: Geometry, K: Kernel, Exp: real -> real, off: nat, extra: nat, lambda: real, dUdL: real,
                                        lambdaBin: int, FLambdaBin: int, iL: int)
    requires Fits(g, K) && 0 <= lambdaBin < g.lambdaBins && -g.biasCutoff <= iL
    ensures Fits(Grown(g, off, extra), Embed(K, off, extra))
    ensures BiasSum(Grown(g, off, extra), Embed(K, off, extra), Exp, lambda, dUdL, lambdaBin, FLambdaBin + off, iL)
         == BiasSum(g, K, Exp, lambda, dUdL, lambdaBin, FLambdaBin, iL)
    decreases g.biasCutoff - iL
  {
    EmbedFits(g, K, off, extra);
    if iL <= g.biasCutoff {
      BiasRowSumEmbed(g, K, Exp, off, extra, lambda, dUdL, lambdaBin, FLambdaBin, iL, -g.biasCutoff);
      BiasSumEmbed(g, K, Exp, off, extra, lambda, dUdL, lambdaBin, FLambdaBin, iL + 1);
    }
  }

  /** Growing the dU/dL axis leaves the bias energy of every sample strictly
      inside the old axis unchanged. */
  lemma KernelBiasEnergyEmbed(g: Geometry, K: Kernel, Exp: real -> real, off: nat, extra: nat, lambda: real, dUdL: real)
    requires Fits(g, K) && g.FLambdaBins >= 1
    requires g.minFLambda <= dUdL < g.minFLambda + g.FLambdaBins as real * g.dFL
    ensures Fits(Grown(g, off, extra), Embed(K, off, extra))
    ensures KernelBiasEnergy(Grown(g, off, extra), Embed(K, off, extra), Exp, lambda, dUdL)
         == KernelBiasEnergy(g, K, Exp, lambda, dUdL)
  {
    BinForFLambdaEmbed(g, off, extra, dUdL);
    var lambdaBin := BinForLambda(lambda, g.minLambda, g.dL, g.lambdaBins);
    var FLambdaBin := BinForFLambda(dUdL, g.minFLambda, g.dFL, g.FLambdaBins);
    BiasSumEmbed(g, K, Exp, off, extra, lambda, dUdL, lambdaBin, FLambdaBin, -g.biasCutoff);
  }

  // -------------------------------------------------------- updateFLambda

  /** The first dU/dL bin at or after j holding a positive count, or -1. */
  function FirstPositiveFrom(row: seq<real>, j: nat): (r: int)
    decreases |row| - j
    ensures r == -1 || (j <= r < |row| && row[r] > 0.0)
    ensures r == -1 ==> forall k :: j <= k < |row| ==> row[k] <= 0.0
    ensures r != -1 ==> forall k :: j <= k < r ==> row[k] <= 0.0
  {
    if j >= |row| then -1
    else if row[j] > 0.0 then j
    else FirstPositiveFrom(row, j + 1)
  }

  /** The last dU/dL bin below n holding a positive count, or -1. */
  function LastPositiveBelow(row: seq<real>, n: nat): (r: int)
    requires n <= |row|
    ensures r == -1 || (0 <= r < n && row[r] > 0.0)
    ensures r == -1 ==> forall k :: 0 <= k < n ==> row[k] <= 0.0
    ensures r != -1 ==> forall k :: r < k < n ==> row[k] <= 0.0
  {
    if n == 0 then -1
    else if row[n - 1] > 0.0 then n - 1
    else LastPositiveBelow(row, n - 1)
  }

  function FirstPositive(row: seq<real>): int { FirstPositiveFrom(row, 0) }
  function LastPositive(row: seq<real>): int { LastPositiveBelow(row, |row|) }

  /** The Boltzmann weight exp((kernel + offset) * beta) of a bin whose kernel
      value is `kernel`. */
  function BoltzmannWeight(Exp: real -> real, kernel: real, offset: real, beta: real): real
  {
    Exp((kernel + offset) * beta)
  }

  /** The kernel value at the centre of every dU/dL bin of lambda bin iL. */
  function KernelRow(g: Geometry, K: Kernel, Exp: real -> real, iL: int): (row: seq<real>)
    requires Fits(g, K) && 0 <= iL < g.lambdaBins
    ensures |row| == g.FLambdaBins
    ensures forall j :: 0 <= j < g.FLambdaBins ==> row[j] == EvaluateKernel(g, K, Exp, iL, j)
  {
    seq(g.FLambdaBins, j requires 0 <= j < g.FLambdaBins => EvaluateKernel(g, K, Exp, iL, j))
  }

  /** The sum over dU/dL bins lo..hi, in ascending order, of the bin centre
      times its Boltzmann weight, given the kernel values `row` of the lambda
      bin. */
  function EnsembleSum(g: Geometry, row: seq<real>, Exp: real -> real, offset: real, beta: real, lo: int, hi: int): real
    requires 0 <= lo && hi < |row|
    decreases hi - lo
  {
    if hi < lo then 0.0
    else EnsembleSum(g, row, Exp, offset, beta, lo, hi - 1) + Center(g, hi) * BoltzmannWeight(Exp, row[hi], offset, beta)
  }

  /** The sum over dU/dL bins lo..hi, in ascending order, of the Boltzmann
      weights. */
  function PartitionSum(row: seq<real>, Exp: real -> real, offset: real, beta: real, lo: int, hi: int): real
    requires 0 <= lo && hi < |row|
    decreases hi - lo
  {
    if hi < lo then 0.0
    else PartitionSum(row, Exp, offset, beta, lo, hi - 1) + BoltzmannWeight(Exp, row[hi], offset, beta)
  }

  /** The running maximum of the kernel values over bins j..hi, starting from acc. */
  function MaxBiasFrom(row: seq<real>, acc: real, j: int, hi: int): (m: real)
    requires 0 <= j && hi < |row|
    decreases hi - j
    ensures m >= acc
    ensures forall k :: j <= k <= hi ==> m >= row[k]
  {
    if j > hi then acc
    else MaxBiasFrom(row, if row[j] > acc then row[j] else acc, j + 1, hi)
  }

  /** What updateFLambda derives for one lambda bin: whether any dU/dL bin holds a
      count, the Boltzmann-weighted sum of the bin centres and the sum of the
      weights over the populated range, and the largest kernel value in that
      range (at least 0). */
  datatype BinStat = BinStat(populated: bool, ensemble: real, partition: real, maxBias: real)
  {
    /** The ensemble average F(lambda); an empty partition sum gives 0. */
    function FLambda(): real
    {
      if partition == 0.0 then 0.0 else ensemble / partition
    }
  }

  function BinStatAt(g: Geometry, K: Kernel, Exp: real -> real, offset: real, beta: real, iL: int): (s: BinStat)
    requires Fits(g, K) && 0 <= iL < g.lambdaBins
    ensures s.maxBias >= 0.0
    ensures s.populated <==> exists j :: 0 <= j < |K[iL]| && K[iL][j] > 0.0
  {
    var ll := FirstPositive(K[iL]);
    var ul := LastPositive(K[iL]);
    if ll == -1 || ul == -1 then BinStat(false, 0.0, 0.0, 0.0)
    else
      var row := KernelRow(g, K, Exp, iL);
      var ensemble := EnsembleSum(g, row, Exp, offset, beta, ll, ul);
      var partition := PartitionSum(row, Exp, offset, beta, ll, ul);
      BinStat(true, ensemble, partition, MaxBiasFrom(row, 0.0, ll, ul))
  }

  /** The statistics of every lambda bin, in order. */
  function BinStats(g: Geometry, K: Kernel, Exp: real -> real, offsets: seq<real>, beta: real): (stats: seq<BinStat>)
    requires Fits(g, K) && |offsets| == g.lambdaBins
    ensures |stats| == g.lambdaBins
    ensures forall iL :: 0 <= iL < g.lambdaBins ==> stats[iL] == BinStatAt(g, K, Exp, offsets[iL], beta, iL)
  {
    seq(g.lambdaBins, iL requires 0 <= iL < g.lambdaBins => BinStatAt(g, K, Exp, offsets[iL], beta, iL))
  }

  /** The first and last lambda bins are half width. */
  function BinWidth(lambdaBins: int, dL: real, iL: int): real
  {
    if iL == 0 || iL == lambdaBins - 1 then dL / 2.0 else dL
  }

  /** F(lambda) integrated over the first n lambda bins: the running sum
      updateFLambda's loop keeps. */
  function FreeEnergyUpTo(stats: seq<BinStat>, dL: real, n: nat): real
    requires n <= |stats|
  {
    if n == 0 then 0.0
    else FreeEnergyUpTo(stats, dL, n - 1) + stats[n - 1].FLambda() * BinWidth(|stats|, dL, n - 1)
  }

  /** One more bin of the running sum. */
  lemma FreeEnergyUpToStep(stats: seq<BinStat>, dL: real, n: nat, f: real, w: real)
    requires n < |stats| && f == stats[n].FLambda() && w == BinWidth(|stats|, dL, n)
    ensures FreeEnergyUpTo(stats, dL, n + 1) == FreeEnergyUpTo(stats, dL, n) + f * w
  {
  }

  /** The free energy updateFLambda returns. */
  function FreeEnergy(g: Geometry, K: Kernel, Exp: real -> real, offsets: seq<real>, beta: real): real
    requires Fits(g, K) && |offsets| == g.lambdaBins
  {
    FreeEnergyUpTo(BinStats(g, K, Exp, offsets, beta), g.dL, g.lambdaBins)
  }

  /** updateFLambda's minimum bias: an empty lambda bin resets it to 0; a
      populated one lowers it to that bin's maximum kernel value. */
  function MinBiasFrom(stats: seq<BinStat>, acc: real, iL: nat): real
    decreases |stats| - iL
  {
    if iL >= |stats| then acc
    else
      var s := stats[iL];
      MinBiasFrom(stats, if !s.populated then 0.0 else if acc > s.maxBias then s.maxBias else acc, iL + 1)
  }

  function MinBias(g: Geometry, K: Kernel, Exp: real -> real, offsets: seq<real>, beta: real): real
    requires Fits(g, K) && |offsets| == g.lambdaBins
  {
    MinBiasFrom(BinStats(g, K, Exp, offsets, beta), DOUBLE_MAX_VALUE, 0)
  }

  /** The tempering energy: minus the amount by which the minimum bias exceeds
      temperOffset, or zero when it does not exceed it. */
  function TemperEnergy(minBias: real, temperOffset: real): real
  {
    if minBias > temperOffset then temperOffset - minBias else 0.0
  }

  /** The tempering energy is never positive, and it is negative exactly when the
      minimum bias exceeds temperOffset. */
  lemma TemperEnergyNonPositive(minBias: real, temperOffset: real)
    ensures TemperEnergy(minBias, temperOffset) <= 0.0
    ensures TemperEnergy(minBias, temperOffset) < 0.0 <==> minBias > temperOffset
  {
  }

  lemma {:induction false} MinBiasFromBounds(stats: seq<BinStat>, acc: real, iL: nat)
    requires acc >= 0.0
    requires forall k :: 0 <= k < |stats| ==> stats[k].maxBias >= 0.0
    decreases |stats| - iL
    ensures 0.0 <= MinBiasFrom(stats, acc, iL) <= acc
    ensures forall k :: iL <= k < |stats| && stats[k].populated ==> MinBiasFrom(stats, acc, iL) <= stats[k].maxBias
    ensures (exists k :: iL <= k < |stats| && !stats[k].populated) ==> MinBiasFrom(stats, acc, iL) == 0.0
  {
    if iL < |stats| {
      var s := stats[iL];
      MinBiasFromBounds(stats, if !s.populated then 0.0 else if acc > s.maxBias then s.maxBias else acc, iL + 1);
    }
  }

  /** Tempering can only start once every lambda bin has been sampled and every
      bin's largest kernel value exceeds temperOffset: until then the tempering
      energy is 0, and the tempering weight exp(0) leaves counts unscaled. */
  lemma TemperingNeedsCoverage(g: Geometry, K: Kernel, Exp: real -> real, offsets: seq<real>, beta: real, temperOffset: real)
    requires Fits(g, K) && |offsets| == g.lambdaBins
    requires temperOffset >= 0.0
    ensures TemperEnergy(MinBias(g, K, Exp, offsets, beta), temperOffset) < 0.0 ==>
      forall iL :: 0 <= iL < g.lambdaBins ==>
        BinStatAt(g, K, Exp, offsets[iL], beta, iL).populated &&
        BinStatAt(g, K, Exp, offsets[iL], beta, iL).maxBias > temperOffset
  {
    MinBiasFromBounds(BinStats(g, K, Exp, offsets, beta), DOUBLE_MAX_VALUE, 0);
  }

  /** The minimum bias never goes below 0. */
  lemma MinBiasNonNegative(g: Geometry, K: Kernel, Exp: real -> real, offsets: seq<real>, beta: real)
    requires Fits(g, K) && |offsets| == g.lambdaBins
    ensures MinBias(g, K, Exp, offsets, beta) >= 0.0
  {
    MinBiasFromBounds(BinStats(g, K, Exp, offsets, beta), DOUBLE_MAX_VALUE, 0);
  }

  // ---------------------------------------- updateFLambda under resizing

  lemma FirstPositiveEmbed(row: seq<real>, off: nat, extra: nat)
    ensures FirstPositive(Zeros(off) + row + Zeros(extra)) ==
      (if FirstPositive(row) == -1 then -1 else FirstPositive(row) + off)
  {
    var row' := Zeros(off) + row + Zeros(extra);
    assert forall k :: 0 <= k < |row| ==> row'[k + off] == row[k];
    assert forall k :: 0 <= k < |row'| && (k < off || k >= off + |row|) ==> row'[k] == 0.0;
    var a, b := FirstPositive(row), FirstPositive(row');
    if a == -1 {
    } else {
      assert row'[a + off] > 0.0;
    }
  }

  lemma LastPositiveEmbed(row: seq<real>, off: nat, extra: nat)
    ensures LastPositive(Zeros(off) + row + Zeros(extra)) ==
      (if LastPositive(row) == -1 then -1 else LastPositive(row) + off)
  {
    var row' := Zeros(off) + row + Zeros(extra);
    assert forall k :: 0 <= k < |row| ==> row'[k + off] == row[k];
    assert forall k :: 0 <= k < |row'| && (k < off || k >= off + |row|) ==> row'[k] == 0.0;
    var a, b := LastPositive(row), LastPositive(row');
    if a == -1 {
    } else {
      assert row'[a + off] > 0.0;
    }
  }

  lemma CenterEmbed(g: Geometry, off: nat, extra: nat, j: int)
    ensures Center(Grown(g, off, extra), j + off) == Center(g, j)
  {
    assert (j + off) as real * g.dFL == j as real * g.dFL + off as real * g.dFL;
  }

  /** Every kernel value of a lambda bin moves up by `off` dU/dL bins. */
  lemma KernelRowEmbed(g: Geometry, K: Kernel, Exp: real -> real, off: nat, extra: nat, iL: int)
    requires Fits(g, K) && 0 <= iL < g.lambdaBins
    ensures Fits(Grown(g, off, extra), Embed(K, off, extra))
    ensures |KernelRow(Grown(g, off, extra), Embed(K, off, extra), Exp, iL)| == |KernelRow(g, K, Exp, iL)| + off + extra
    ensures forall j :: 0 <= j < g.FLambdaBins ==>
              KernelRow(Grown(g, off, extra), Embed(K, off, extra), Exp, iL)[j + off] == KernelRow(g, K, Exp, iL)[j]
  {
    EmbedFits(g, K, off, extra);
    forall j | 0 <= j < g.FLambdaBins
      ensures KernelRow(Grown(g, off, extra), Embed(K, off, extra), Exp, iL)[j + off] == KernelRow(g, K, Exp, iL)[j]
    {
      EvaluateKernelEmbed(g, K, Exp, off, extra, iL, j);
    }
  }

  lemma {:induction false} SumsEmbed(g: Geometry, off: nat, extra: nat, row: seq<real>, row': seq<real>, Exp: real -> real,
                                     offset: real, beta: real, j: int, hi: int)
    requires 0 <= j && hi < |row| && |row| + off <= |row'|
    requires forall k :: 0 <= k < |row| ==> row'[k + off] == row[k]
    ensures EnsembleSum(Grown(g, off, extra), row', Exp, offset, beta, j + off, hi + off) == EnsembleSum(g, row, Exp, offset, beta, j, hi)
    ensures PartitionSum(row', Exp, offset, beta, j + off, hi + off) == PartitionSum(row, Exp, offset, beta, j, hi)
    decreases hi - j
  {
    if j <= hi {
      CenterEmbed(g, off, extra, hi);
      SumsEmbed(g, off, extra, row, row', Exp, offset, beta, j, hi - 1);
    }
  }

  lemma {:induction false} MaxBiasEmbed(off: nat, row: seq<real>, row': seq<real>, acc: real, j: int, hi: int)
    requires 0 <= j && hi < |row| && |row| + off <= |row'|
    requires forall k :: 0 <= k < |row| ==> row'[k + off] == row[k]
    ensures MaxBiasFrom(row', acc, j + off, hi + off) == MaxBiasFrom(row, acc, j, hi)
    decreases hi - j
  {
    if j <= hi {
      assert row'[j + off] == row[j];
      MaxBiasEmbed(off, row, row', if row[j] > acc then row[j] else acc, j + 1, hi);
    }
  }

  lemma BinStatEmbed(g: Geometry, K: Kernel, Exp: real -> real, off: nat, extra: nat, offset: real, beta: real, iL: int)
    requires Fits(g, K) && 0 <= iL < g.lambdaBins
    ensures Fits(Grown(g, off, extra), Embed(K, off, extra))
    ensures BinStatAt(Grown(g, off, extra), Embed(K, off, extra), Exp, offset, beta, iL)
         == BinStatAt(g, K, Exp, offset, beta, iL)
  {
    EmbedFits(g, K, off, extra);
    FirstPositiveEmbed(K[iL], off, extra);
    LastPositiveEmbed(K[iL], off, extra);
    var ll, ul := FirstPositive(K[iL]), LastPositive(K[iL]);
    if ll != -1 && ul != -1 {
      RowSumsEmbed(g, K, Exp, off, extra, offset, beta, iL, ll, ul);
    }
  }

  /** The sums and the maximum over bins ll..ul of a lambda bin's kernel row
      are those over the same bins, shifted by off, of the grown row. */
  lemma RowSumsEmbed(g: Geometry, K: Kernel, Exp: real -> real, off: nat, extra: nat, offset: real, beta: real,
                     iL: int, ll: int, ul: int)
    requires Fits(g, K) && 0 <= iL < g.lambdaBins && 0 <= ll < g.FLambdaBins && 0 <= ul < g.FLambdaBins
    ensures Fits(Grown(g, off, extra), Embed(K, off, extra))
    ensures var row, row' := KernelRow(g, K, Exp, iL), KernelRow(Grown(g, off, extra), Embed(K, off, extra), Exp, iL);
      EnsembleSum(Grown(g, off, extra), row', Exp, offset, beta, ll + off, ul + off) == EnsembleSum(g, row, Exp, offset, beta, ll, ul) &&
      PartitionSum(row', Exp, offset, beta, ll + off, ul + off) == PartitionSum(row, Exp, offset, beta, ll, ul) &&
      MaxBiasFrom(row', 0.0, ll + off, ul + off) == MaxBiasFrom(row, 0.0, ll, ul)
  {
    KernelRowEmbed(g, K, Exp, off, extra, iL);
    var row, row' := KernelRow(g, K, Exp, iL), KernelRow(Grown(g, off, extra), Embed(K, off, extra), Exp, iL);
    SumsEmbed(g, off, extra, row, row', Exp, offset, beta, ll, ul);
    MaxBiasEmbed(off, row, row', 0.0, ll, ul);
  }

  /** Growing the dU/dL axis, in either direction, changes neither any lambda
      bin's statistics nor, therefore, the free energy and minimum bias that
      updateFLambda computes. */
  lemma UpdateFLambdaEmbed(g: Geometry, K: Kernel, Exp: real -> real, off: nat, extra: nat, offsets: seq<real>, beta: real)
    requires Fits(g, K) && |offsets| == g.lambdaBins
    ensures Fits(Grown(g, off, extra), Embed(K, off, extra))
    ensures BinStats(Grown(g, off, extra), Embed(K, off, extra), Exp, offsets, beta) == BinStats(g, K, Exp, offsets, beta)
    ensures FreeEnergy(Grown(g, off, extra), Embed(K, off, extra), Exp, offsets, beta) == FreeEnergy(g, K, Exp, offsets, beta)
    ensures MinBias(Grown(g, off, extra), Embed(K, off, extra), Exp, offsets, beta) == MinBias(g, K, Exp, offsets, beta)
  {
    EmbedFits(g, K, off, extra);
    var stats, stats' := BinStats(g, K, Exp, offsets, beta), BinStats(Grown(g, off, extra), Embed(K, off, extra), Exp, offsets, beta);
    forall iL | 0 <= iL < g.lambdaBins
      ensures stats'[iL] == stats[iL]
    {
      BinStatEmbed(g, K, Exp, off, extra, offsets[iL], beta, iL);
    }
    assert stats' == stats;
  }
}
