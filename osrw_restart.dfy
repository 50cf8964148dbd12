// The two restart records of TransitionTemperedOSRW: the histogram file
// (eleven `Key value` header lines, then one line of weights per lambda bin)
// and the lambda file (lambda, its velocity and the steps taken). A line is
// modelled as its whitespace-separated fields, each already told apart as a
// word, a decimal integer or a number with a fraction or exponent; the text
// formatting of numbers is not part of this model.
module OsrwRestart {
  import opened Wrappers
  import opened JavaLang
  import opened OsrwGeometry
  import opened OsrwKernel

  /** One whitespace-separated field of a restart line. */
  datatype Token = Word(text: string) | Dec(n: int) | Flt(x: real)

  type Line = seq<Token>

  /** `readLine().split(" +")[1]`: the value field of line k, if there is one. */
  function Field(lines: seq<Line>, k: nat): Option<Token>
  {
    if k < |lines| && |lines[k]| >= 2 then Some(lines[k][1]) else None
  }

  /** Double.parseDouble: integers and numbers with a fraction both parse. */
  function AsDouble(t: Option<Token>): Option<real>
  {
    match t
    case Some(Dec(n)) => Some(n as real)
    case Some(Flt(x)) => Some(x)
    case _ => None
  }

  /** Integer.parseInt: a decimal integer within the int range. */
  function AsInt(t: Option<Token>): Option<int>
  {
    match t
    case Some(Dec(n)) => if IsInt(n) then Some(n) else None
    case _ => None
  }

  /** Integer.parseUnsignedInt: a decimal in [0, 2^32), read back as the int
      with the same 32 bits. */
  function AsUnsignedInt(t: Option<Token>): (r: Option<int>)
    ensures r.Some? <==> t.Some? && t.value.Dec? && 0 <= t.value.n < 0x1_0000_0000
    ensures r.Some? ==> IsInt(r.value) && (r.value == t.value.n || r.value == t.value.n - 0x1_0000_0000)
    ensures r.Some? && t.value.n <= INT_MAX ==> r.value == t.value.n
  {
    match t
    case Some(Dec(n)) =>
      if 0 <= n < 0x1_0000_0000 then Some(if n <= INT_MAX then n else n - 0x1_0000_0000) else None
    case _ => None
  }

  // ---------------------------------------------------------- histogram file

  /** Everything the histogram file records. */
  datatype Histogram = Histogram(temperature: real, thetaMass: real, thetaFriction: real,
                                 biasMag: real, biasCutoff: int, countInterval: int,
                                 lambdaBins: int, FLambdaBins: int, minFLambda: real, dFL: real,
                                 tempering: bool, kernel: Kernel)

  const HISTOGRAM_KEYS: seq<string> := ["Temperature", "Lambda-Mass", "Lambda-Friction", "Bias-Mag",
    "Bias-Cutoff", "Count-Interval", "Lambda-Bins", "FLambda-Bins", "Flambda-Min", "Flambda-Width", "Tempering"]

  const HEADER_LINES: int := 11

  /** A histogram the writer can write: the integer fields are Java ints and the
      kernel has the recorded shape with at least one dU/dL bin. */
  predicate Writable(h: Histogram)
  {
    IsInt(h.biasCutoff) && IsInt(h.countInterval) && IsInt(h.lambdaBins) && IsInt(h.FLambdaBins) &&
    h.lambdaBins >= 0 && h.FLambdaBins >= 1 && Shaped(h.kernel, h.lambdaBins, h.FLambdaBins)
  }

  /** A row of weights, one field per dU/dL bin. */
  function RowLine(row: seq<real>): (line: Line)
    ensures |line| == |row| && forall j :: 0 <= j < |row| ==> line[j] == Flt(row[j])
  {
    seq(|row|, j requires 0 <= j < |row| => Flt(row[j]))
  }

  /** The header values in the order written; the tempering flag is 1 or 0. */
  function HeaderValues(h: Histogram): (v: seq<Token>)
    ensures |v| == HEADER_LINES
  {
    [Flt(h.temperature), Flt(h.thetaMass), Flt(h.thetaFriction), Flt(h.biasMag),
     Dec(h.biasCutoff), Dec(h.countInterval), Dec(h.lambdaBins), Dec(h.FLambdaBins),
     Flt(h.minFLambda), Flt(h.dFL), Dec(if h.tempering then 1 else 0)]
  }

  /** writeHistogramFile: the eleven headers in order, then the kernel row by row. */
  function WriteHistogram(h: Histogram): (lines: seq<Line>)
    requires Writable(h)
    ensures |lines| == HEADER_LINES + h.lambdaBins
    ensures forall k :: 0 <= k < HEADER_LINES ==> lines[k] == [Word(HISTOGRAM_KEYS[k]), HeaderValues(h)[k]]
    ensures forall i :: 0 <= i < h.lambdaBins ==> lines[HEADER_LINES + i] == RowLine(h.kernel[i])
  {
    var values := HeaderValues(h);
    seq(HEADER_LINES, k requires 0 <= k < HEADER_LINES => [Word(HISTOGRAM_KEYS[k]), values[k]]) +
    seq(h.lambdaBins, i requires 0 <= i < h.lambdaBins => RowLine(h.kernel[i]))
  }

  /** The first `cols` fields of a row line as doubles, or None when the line
      is too short or a field does not parse. */
  function ParseRow(line: Line, cols: nat): (r: Option<seq<real>>)
    ensures r.Some? <==> cols <= |line| && forall j :: 0 <= j < cols ==> AsDouble(Some(line[j])).Some?
    ensures r.Some? ==> |r.value| == cols && forall j :: 0 <= j < cols ==> Some(r.value[j]) == AsDouble(Some(line[j]))
  {
    if cols <= |line| && forall j :: 0 <= j < cols ==> AsDouble(Some(line[j])).Some? then
      Some(seq(cols, j requires 0 <= j < cols && AsDouble(Some(line[j])).Some? => AsDouble(Some(line[j])).value))
    else None
  }

  /** Rows start .. start+count-1 of the file, each cut to `cols` doubles. */
  function ParseRows(lines: seq<Line>, start: nat, count: nat, cols: nat): (r: Option<Kernel>)
    ensures r.Some? ==> Shaped(r.value, count, cols)
    ensures r.Some? ==> start + count <= |lines|
    decreases count
  {
    if start + count > |lines| then None
    else if count == 0 then Some([])
    else match (ParseRows(lines, start, count - 1, cols), ParseRow(lines[start + count - 1], cols))
      case (Some(rows), Some(row)) => Some(rows + [row])
      case _ => None
  }

  /** readHistogramFile: the header values in the order written, then lambdaBins
      rows of FLambdaBins weights. A missing line, a missing or unparsable
      field, or a negative array size is an error. */
  function ReadHistogram(lines: seq<Line>): (r: Result<Histogram>)
    ensures r.Ok? ==> r.value.tempering == (AsInt(Field(lines, 10)) != Some(0))
    ensures r.Ok? ==> Shaped(r.value.kernel, r.value.lambdaBins, r.value.FLambdaBins)
    ensures r.Ok? ==>
      AsDouble(Field(lines, 0)) == Some(r.value.temperature) &&
      AsInt(Field(lines, 6)) == Some(r.value.lambdaBins) && AsInt(Field(lines, 7)) == Some(r.value.FLambdaBins) &&
      AsDouble(Field(lines, 8)) == Some(r.value.minFLambda) && AsDouble(Field(lines, 9)) == Some(r.value.dFL)
    ensures r.Ok? ==>
      0 <= r.value.lambdaBins && 0 <= r.value.FLambdaBins &&
      ParseRows(lines, HEADER_LINES, r.value.lambdaBins, r.value.FLambdaBins) == Some(r.value.kernel)
    ensures AsInt(Field(lines, 6)).Some? && AsInt(Field(lines, 6)).value < 0 ==> r.Err?
  {
    var temperature := AsDouble(Field(lines, 0));
    var thetaMass := AsDouble(Field(lines, 1));
    var thetaFriction := AsDouble(Field(lines, 2));
    var biasMag := AsDouble(Field(lines, 3));
    var biasCutoff := AsInt(Field(lines, 4));
    var countInterval := AsInt(Field(lines, 5));
    var lambdaBins := AsInt(Field(lines, 6));
    var FLambdaBins := AsInt(Field(lines, 7));
    var minFLambda := AsDouble(Field(lines, 8));
    var dFL := AsDouble(Field(lines, 9));
    var flag := AsInt(Field(lines, 10));
    if temperature.None? || thetaMass.None? || thetaFriction.None? || biasMag.None? ||
       biasCutoff.None? || countInterval.None? || lambdaBins.None? then Err("Invalid OSRW Histogram file.")
    else if lambdaBins.value < 0 then Err("Invalid OSRW Histogram file.")
    else if FLambdaBins.None? || minFLambda.None? || dFL.None? || flag.None? then Err("Invalid OSRW Histogram file.")
    else if FLambdaBins.value < 0 then Err("Invalid OSRW Histogram file.")
    else match ParseRows(lines, HEADER_LINES, lambdaBins.value, FLambdaBins.value)
      case None => Err("Invalid OSRW Histogram file.")
      case Some(K) =>
        Ok(Histogram(temperature.value, thetaMass.value, thetaFriction.value, biasMag.value,
                     biasCutoff.value, countInterval.value, lambdaBins.value, FLambdaBins.value,
                     minFLambda.value, dFL.value, flag.value != 0, K))
  }

  lemma ParseRowLine(row: seq<real>)
    ensures ParseRow(RowLine(row), |row|) == Some(row)
  {
    var r := ParseRow(RowLine(row), |row|);
    assert r.Some?;
    assert r.value == row;
  }

  lemma {:induction false} ParseRowsWritten(h: Histogram, count: nat)
    requires Writable(h) && count <= h.lambdaBins
    ensures ParseRows(WriteHistogram(h), HEADER_LINES, count, h.FLambdaBins) == Some(h.kernel[..count])
    decreases count
  {
    if count > 0 {
      ParseRowsWritten(h, count - 1);
      var lines := WriteHistogram(h);
      assert lines[HEADER_LINES + count - 1] == RowLine(h.kernel[count - 1]);
      ParseRowLine(h.kernel[count - 1]);
      assert h.kernel[..count - 1] + [h.kernel[count - 1]] == h.kernel[..count];
    }
  }

  /** Reading back what the writer wrote gives the same histogram. */
  lemma HistogramRoundTrip(h: Histogram)
    requires Writable(h)
    ensures ReadHistogram(WriteHistogram(h)) == Ok(h)
  {
    HeaderRoundTrip(h);
    ParseRowsWritten(h, h.lambdaBins);
    assert h.kernel[..h.lambdaBins] == h.kernel;
  }

  /** Every header line the writer writes parses back to its field. */
  lemma HeaderRoundTrip(h: Histogram)
    requires Writable(h)
    ensures var lines := WriteHistogram(h);
      AsDouble(Field(lines, 0)) == Some(h.temperature) && AsDouble(Field(lines, 1)) == Some(h.thetaMass) &&
      AsDouble(Field(lines, 2)) == Some(h.thetaFriction) && AsDouble(Field(lines, 3)) == Some(h.biasMag) &&
      AsInt(Field(lines, 4)) == Some(h.biasCutoff) && AsInt(Field(lines, 5)) == Some(h.countInterval) &&
      AsInt(Field(lines, 6)) == Some(h.lambdaBins) && AsInt(Field(lines, 7)) == Some(h.FLambdaBins) &&
      AsDouble(Field(lines, 8)) == Some(h.minFLambda) && AsDouble(Field(lines, 9)) == Some(h.dFL) &&
      AsInt(Field(lines, 10)) == Some(if h.tempering then 1 else 0)
  {
    var lines := WriteHistogram(h);
    var v := HeaderValues(h);
    assert forall k :: 0 <= k < HEADER_LINES ==> Field(lines, k) == Some(v[k]);
  }

  // ------------------------------------------------------------- lambda file

  /** Everything the lambda file records. */
  datatype LambdaRecord = LambdaRecord(lambda: real, halfThetaVelocity: real, energyCount: int)

  /** writeLambdaFile. */
  function WriteLambda(r: LambdaRecord): (lines: seq<Line>)
    ensures |lines| == 3 && |lines[0]| == |lines[1]| == |lines[2]| == 2
    ensures lines[0][0] == Word("Lambda") && lines[1][0] == Word("Lambda-Velocity") && lines[2][0] == Word("Steps-Taken")
  {
    [[Word("Lambda"), Flt(r.lambda)],
     [Word("Lambda-Velocity"), Flt(r.halfThetaVelocity)],
     [Word("Steps-Taken"), Dec(r.energyCount)]]
  }

  /** What readLambdaFile assigns: lambda as soon as its line parses, the
      velocity (and the lambda hand-off) only when both lines parse, and, when
      the step count is kept, the steps from the next unread line. */
  datatype LambdaRead = LambdaRead(lambda: Option<real>, halfThetaVelocity: Option<real>, energyCount: Option<int>)

  function ReadLambda(lines: seq<Line>, resetEnergyCount: bool): (r: LambdaRead)
    ensures r.halfThetaVelocity.Some? ==> r.lambda.Some?
    ensures resetEnergyCount ==> r.energyCount.None?
    ensures r.energyCount.Some? ==> IsInt(r.energyCount.value)
  {
    var lambda := AsDouble(Field(lines, 0));
    var velocity := if lambda.Some? then AsDouble(Field(lines, 1)) else None;
    // The first failed line ends the first block; the step count is on the
    // line after the last one read.
    var next := if lambda.None? then 1 else 2;
    var steps := if resetEnergyCount then None else AsUnsignedInt(Field(lines, next));
    LambdaRead(lambda, velocity, steps)
  }

  /** Reading back what the writer wrote restores lambda and its velocity and,
      when the count is kept, a step count in [0, 2^31); a negative count
      (the constructor's -1) does not parse and is left as it was. */
  lemma LambdaRoundTrip(r: LambdaRecord, resetEnergyCount: bool)
    requires IsInt(r.energyCount)
    ensures var read := ReadLambda(WriteLambda(r), resetEnergyCount);
      read.lambda == Some(r.lambda) && read.halfThetaVelocity == Some(r.halfThetaVelocity) &&
      read.energyCount == (if resetEnergyCount || r.energyCount < 0 then None else Some(r.energyCount))
  {
  }

  // ------------------------------------------ applying a histogram to a walker

  /** The lambda and dU/dL axes a walker keeps, with the length of its
      per-lambda-bin kernel offsets. */
  datatype Axes = Axes(lambdaBins: int, dL: real, dL_2: real, minLambda: real,
                       FLambdaBins: int, minFLambda: real, maxFLambda: real, dFL: real, dFL_2: real,
                       kernelOffsets: int)

  /** The relations the constructor establishes between the axis fields. */
  predicate Consistent(a: Axes)
  {
    a.lambdaBins >= 2 && a.dL * (a.lambdaBins - 1) as real == 1.0 && a.dL_2 == a.dL / 2.0 &&
    a.minLambda == -a.dL_2 &&
    a.FLambdaBins >= 1 && a.dFL > 0.0 && a.dFL_2 == a.dFL / 2.0 &&
    a.maxFLambda == a.minFLambda + a.FLambdaBins as real * a.dFL &&
    a.kernelOffsets == a.lambdaBins
  }

  /** A histogram a walker can continue from. */
  predicate Usable(h: Histogram)
  {
    h.lambdaBins >= 2 && h.FLambdaBins >= 1 && h.dFL > 0.0 && h.biasCutoff < h.lambdaBins &&
    h.countInterval > 0 && h.temperature > 0.0 && Shaped(h.kernel, h.lambdaBins, h.FLambdaBins)
  }

  /** The axis fields as readHistogramFile leaves them: dL and dL_2 follow the
      new lambda bin count, but minLambda, maxFLambda and the kernel offsets
      keep their old values. */
  function AsWrittenReadAxes(a: Axes, h: Histogram): (r: Axes)
    requires h.lambdaBins >= 2
    ensures r.minLambda == a.minLambda && r.maxFLambda == a.maxFLambda && r.kernelOffsets == a.kernelOffsets
  {
    var dL := 1.0 / (h.lambdaBins - 1) as real;
    a.(lambdaBins := h.lambdaBins, dL := dL, dL_2 := dL / 2.0,
       FLambdaBins := h.FLambdaBins, minFLambda := h.minFLambda, dFL := h.dFL, dFL_2 := h.dFL / 2.0)
  }

  /** The axis fields as the walker needs them after reading a histogram:
      every derived field follows the file. */
  function ReadAxes(h: Histogram): (r: Axes)
    requires h.lambdaBins >= 2
    ensures r.lambdaBins == h.lambdaBins && r.FLambdaBins == h.FLambdaBins
    ensures r.minFLambda == h.minFLambda && r.dFL == h.dFL
  {
    var dL := 1.0 / (h.lambdaBins - 1) as real;
    Axes(h.lambdaBins, dL, dL / 2.0, -(dL / 2.0),
         h.FLambdaBins, h.minFLambda, h.minFLambda + h.FLambdaBins as real * h.dFL, h.dFL, h.dFL / 2.0,
         h.lambdaBins)
  }

  /** Reading a usable histogram leaves consistent axes that agree with the
      as-written reader on every field it assigns. */
  lemma ReadAxesConsistent(a: Axes, h: Histogram)
    requires Usable(h)
    ensures Consistent(ReadAxes(h)) && ReadAxes(h).dL > 0.0
    ensures var w := AsWrittenReadAxes(a, h); var r := ReadAxes(h);
      w.lambdaBins == r.lambdaBins && w.dL == r.dL && w.dL_2 == r.dL_2 &&
      w.FLambdaBins == r.FLambdaBins && w.minFLambda == r.minFLambda && w.dFL == r.dFL && w.dFL_2 == r.dFL_2
  {
    var n := (h.lambdaBins - 1) as real;
    assert (1.0 / n) * n == 1.0;
  }

  /** The constructor's axes for the default bin widths: 201 lambda bins of
      width 0.005 and 401 dU/dL bins of width 2 centred on 0. */
  function DefaultAxes(): Axes
  {
    Axes(201, 0.005, 0.0025, -0.0025, 401, -401.0, 401.0, 2.0, 1.0, 201)
  }

  lemma DefaultAxesAreTheConstructors()
    ensures Consistent(DefaultAxes())
    ensures var la := LambdaAxisFor(DEFAULT_LAMBDA_BIN_WIDTH); var fa := InitialFLambdaAxis(DEFAULT_FLAMBDA_BIN_WIDTH);
      var a := DefaultAxes();
      a.lambdaBins == la.lambdaBins && a.dL == la.dL && a.dL_2 == la.dL_2 && a.minLambda == la.minLambda &&
      a.FLambdaBins == fa.FLambdaBins && a.minFLambda == fa.minFLambda && a.maxFLambda == fa.maxFLambda &&
      a.dFL_2 == fa.dFL_2
  {
    assert 1.0 / 0.005 == 200.0;
    assert DoubleToInt(200.0) == 200;
  }

  /** A histogram of 21 lambda bins and 101 dU/dL bins from -101 in steps of 2,
      read by a walker built with the default widths. */
  function SmallerHistogram(): Histogram
  {
    Histogram(298.15, 1.0e-18, 1.0e-19, 0.05, 5, 10, 21, 101, -101.0, 2.0, false, ZeroKernel(21, 101))
  }

  lemma OverflowingBin()
    ensures BinForFLambda(200.0, -101.0, 2.0, 101) == 150
  {
    assert (200.0 - -101.0) / 2.0 == 150.5;
  }

  lemma LambdaBinsForSmallerHistogram()
    ensures BinForLambda(0.03, -0.0025, 0.05, 21) == 0
    ensures BinForLambda(0.03, -0.025, 0.05, 21) == 1
  {
    assert (0.03 - -0.0025) / 0.05 == 0.65;
    assert (0.03 - -0.025) / 0.05 == 1.1;
  }

  /** As written, the reader leaves maxFLambda at 401 although the file's axis
      ends at 101: a dU/dL of 200 passes the size check yet falls in bin 150 of
      a 101-bin row. It also leaves minLambda at -0.0025, so lambda 0.03 lands
      in bin 0 instead of bin 1 (centre 0.05), and keeps 201 kernel offsets for
      21 lambda bins. The corrected reader keeps the axes consistent. */
  lemma AsWrittenReadBreaksAxes()
    ensures var h := SmallerHistogram(); var w := AsWrittenReadAxes(DefaultAxes(), h); var r := ReadAxes(h);
      Usable(h) && Consistent(DefaultAxes()) && !Consistent(w) && Consistent(r) &&
      200.0 <= w.maxFLambda && BinForFLambda(200.0, w.minFLambda, w.dFL, w.FLambdaBins) == 150 &&
      r.maxFLambda == 101.0 &&
      BinForLambda(0.03, w.minLambda, w.dL, w.lambdaBins) == 0 &&
      BinForLambda(0.03, r.minLambda, r.dL, r.lambdaBins) == 1 &&
      w.kernelOffsets == 201 && r.kernelOffsets == 21
  {
    var h := SmallerHistogram();
    ReadAxesConsistent(DefaultAxes(), h);
    DefaultAxesAreTheConstructors();
    var w := AsWrittenReadAxes(DefaultAxes(), h);
    var r := ReadAxes(h);
    assert 1.0 / 20.0 == 0.05;
    assert w.dL == 0.05 && r.dL == 0.05 && r.minLambda == -0.025;
    assert w.minFLambda == -101.0 && w.dFL == 2.0 && w.FLambdaBins == 101;
    OverflowingBin();
    LambdaBinsForSmallerHistogram();
  }
}
