// The numbers GaussVol computes over the overlap tree: the switching
// function and the overlap of two Gaussians (ogaussAlpha), then the
// inclusion-exclusion sums computeVolumeUnderSlot2R passes up the tree and
// the free volume, self volume and volume gradient it credits to each atom.
module GaussVolume {
  import opened JavaLang
  import opened GaussOverlap

  /** Math.PI as a double. */
  const PI: real := 3.141592653589793
  const ANG3: real := 0.001
  const VOLMINA: real := 0.01 * ANG3
  /** 0.1f widened to double is 0.100000001490116119384765625. */
  const VOLMINB: real := 0.100000001490116119384765625 * ANG3

  // ----------------------------------------------------- switching function

  /** polSwitchFunction: the switch s and its derivative sp. */
  datatype Switch = Switch(s: real, sp: real)

  /** The quintic 10u^3 - 15u^4 + 6u^5 that joins the plateaus. */
  function Quintic(u: real): real
  {
    var u2 := u * u;
    var u3 := u * u2;
    u3 * (10.0 - 15.0 * u + 6.0 * u2)
  }

  /** The derivative 30u^2(1 - 2u + u^2) of the quintic. */
  function QuinticSlope(u: real): real
  {
    var u2 := u * u;
    30.0 * u2 * (1.0 - 2.0 * u + u2)
  }

  /** Off (0) below volmina, on (1) above volminb, and between them the
      quintic of u = (gvol - volmina) / (volminb - volmina). The source
      computes swf + swfp * quintic with (swf, swfp) = (1, 0) above volminb,
      (0, 0) below volmina and (0, 1) between; each case is written out. */
  function PolSwitch(gvol: real, volmina: real, volminb: real): (r: Switch)
    requires volmina < volminb
    ensures gvol > volminb ==> r == Switch(1.0, 0.0)
    ensures gvol < volmina ==> r == Switch(0.0, 0.0)
  {
    var swd := SwitchScale(volmina, volminb);
    var swu := SwitchUnit(gvol, volmina, volminb);
    if gvol > volminb then Switch(1.0, 0.0)
    else if gvol < volmina then Switch(0.0, 0.0)
    else Switch(Quintic(swu), swd * QuinticSlope(swu))
  }

  /** swd = 1 / (volminb - volmina). */
  function SwitchScale(volmina: real, volminb: real): real
    requires volmina < volminb
  {
    1.0 / (volminb - volmina)
  }

  /** swu: where gvol lies between the cutoffs, 0 at volmina and 1 at volminb. */
  function SwitchUnit(gvol: real, volmina: real, volminb: real): real
    requires volmina < volminb
  {
    (gvol - volmina) * SwitchScale(volmina, volminb)
  }

  lemma MulNonneg(a: real, b: real)
    requires a >= 0.0 && b >= 0.0
    ensures a * b >= 0.0
  {
  }

  lemma SquareNonneg(a: real)
    ensures a * a >= 0.0
  {
    if a < 0.0 {
      assert a * a == (-a) * (-a);
      MulNonneg(-a, -a);
    } else {
      MulNonneg(a, a);
    }
  }

  /** On [0, 1] the quintic stays in [0, 1] and never decreases. */
  lemma Smoothstep(u: real)
    requires 0.0 <= u <= 1.0
    ensures 0.0 <= Quintic(u) <= 1.0 && QuinticSlope(u) >= 0.0
  {
    var u2 := u * u;
    var u3 := u * u2;
    MulNonneg(u, u);
    MulNonneg(u, u2);
    var q := 10.0 - 15.0 * u + 6.0 * u2;
    SquareNonneg(u - 1.25);
    assert q == 6.0 * ((u - 1.25) * (u - 1.25)) + 0.625;
    MulNonneg(u3, q);
    var v := 1.0 - u;
    var v2 := v * v;
    var v3 := v * v2;
    MulNonneg(v, v);
    MulNonneg(v, v2);
    var r := 1.0 + 3.0 * u + 6.0 * u2;
    assert 1.0 - u3 * q == v3 * r;
    MulNonneg(v3, r);
    assert 1.0 - 2.0 * u + u2 == v2;
    MulNonneg(u2, v2);
    assert 30.0 * u2 * (1.0 - 2.0 * u + u2) == 30.0 * (u2 * v2);
  }

  /** Between the cutoffs the switch lies in [0, 1] and never decreases. */
  lemma PolSwitchBounds(gvol: real, volmina: real, volminb: real)
    requires volmina < volminb
    ensures 0.0 <= PolSwitch(gvol, volmina, volminb).s <= 1.0
    ensures PolSwitch(gvol, volmina, volminb).sp >= 0.0
  {
    if volmina <= gvol <= volminb {
      var u := SwitchUnit(gvol, volmina, volminb);
      UnitScale(gvol, volmina, volminb);
      Smoothstep(u);
      MulNonneg(SwitchScale(volmina, volminb), QuinticSlope(u));
    }
  }

  /** Between the cutoffs swd is positive and swu lies in [0, 1]. */
  lemma UnitScale(gvol: real, volmina: real, volminb: real)
    requires volmina <= gvol <= volminb && volmina < volminb
    ensures SwitchScale(volmina, volminb) > 0.0 && 0.0 <= SwitchUnit(gvol, volmina, volminb) <= 1.0
  {
    var w := volminb - volmina;
    var swd := SwitchScale(volmina, volminb);
    assert w * swd == 1.0;
    MulNonneg(gvol - volmina, swd);
    MulNonneg(volminb - gvol, swd);
    assert (gvol - volmina) * swd + (volminb - gvol) * swd == w * swd;
  }

  /** The window's ends map to u = 0 and u = 1, where the quintic meets the
      plateaus: value 0 with slope 0, and value 1 with slope 0. */
  lemma UnitAtEnds(volmina: real, volminb: real)
    requires volmina < volminb
    ensures SwitchUnit(volmina, volmina, volminb) == 0.0
    ensures SwitchUnit(volminb, volmina, volminb) == 1.0
  {
  }

  lemma QuinticAtZero()
    ensures Quintic(0.0) == 0.0 && QuinticSlope(0.0) == 0.0
  {
  }

  lemma QuinticAtOne()
    ensures Quintic(1.0) == 1.0
  {
  }

  lemma QuinticSlopeAtOne()
    ensures QuinticSlope(1.0) == 0.0
  {
  }

  // ------------------------------------------------------------ ogaussAlpha

  function Dot(a: Vec3, b: Vec3): real
  {
    a.x * b.x + a.y * b.y + a.z * b.z
  }

  function Plus3(a: Vec3, b: Vec3): (r: Vec3)
    ensures r.x == a.x + b.x && r.y == a.y + b.y && r.z == a.z + b.z
  {
    Vec3(a.x + b.x, a.y + b.y, a.z + b.z)
  }

  /** df: the product of the exponents over their sum (1/alpha). */
  function Df(a1: real, a2: real): real
    requires a1 > 0.0 && a2 > 0.0
  {
    a1 * a2 * (1.0 / (a1 + a2))
  }

  /** The squared distance between two centres. */
  function Dist2(c1: Vec3, c2: Vec3): real
  {
    var d := Diff(c2, c1);
    Dot(d, d)
  }

  /** The exponent -df d^2 of the overlap volume. */
  function Exponent(g1: Gaussian, g2: Gaussian): real
    requires g1.a > 0.0 && g2.a > 0.0
  {
    -Df(g1.a, g2.a) * Dist2(g1.c, g2.c)
  }

  /** The Gaussian factor exp(-df d^2) of the overlap volume. */
  function ExpTerm(g1: Gaussian, g2: Gaussian, expf: real -> real): real
    requires g1.a > 0.0 && g2.a > 0.0
  {
    expf(Exponent(g1, g2))
  }

  /** The normalisation (pi/df)^-1.5 of the overlap volume. */
  function PowTerm(g1: Gaussian, g2: Gaussian, invPow15: real -> real): real
    requires g1.a > 0.0 && g2.a > 0.0
  {
    invPow15(PI / Df(g1.a, g2.a))
  }

  /** The unswitched overlap volume v1 v2 (pi/df)^-1.5 exp(-df d^2). */
  function RawVolume(g1: Gaussian, g2: Gaussian, expf: real -> real, invPow15: real -> real): real
    requires g1.a > 0.0 && g2.a > 0.0
  {
    g1.v * g2.v * PowTerm(g1, g2, invPow15) * ExpTerm(g1, g2, expf)
  }

  /** The overlap centre (c1 a1 + c2 a2) / (a1 + a2). */
  function Centre(g1: Gaussian, g2: Gaussian): Vec3
    requires g1.a > 0.0 && g2.a > 0.0
  {
    var deltai := 1.0 / (g1.a + g2.a);
    Plus3(Scale(g1.c, g1.a * deltai), Scale(g2.c, g2.a * deltai))
  }

  /** ogaussAlpha: the overlap Gaussian of g1 and g2, its switched volume and
      the derivatives computeChildren records. exp and the inverse 1.5 power
      of FastMath are parameters. */
  function OgaussAlpha(g1: Gaussian, g2: Gaussian, expf: real -> real, invPow15: real -> real): (m: Merged)
    requires g1.a > 0.0 && g2.a > 0.0
    ensures m.g12.a == g1.a + g2.a
  {
    MergeOf(RawVolume(g1, g2, expf, invPow15), g1.a + g2.a, Centre(g1, g2), Df(g1.a, g2.a), g1.v)
  }

  /** The fields of ogaussAlpha's result from the raw volume gvol, the summed
      exponent a12, the centre c12, df and the first Gaussian's volume v1. */
  function MergeOf(gvol: real, a12: real, c12: Vec3, df: real, v1: real): Merged
  {
    var dgvolv := if v1 > 0.0 then gvol / v1 else 0.0;
    var sw := PolSwitch(gvol, VOLMINA, VOLMINB);
    Merged(Gaussian(gvol, a12, c12), sw.s * gvol, -2.0 * df * gvol, dgvolv, sw.sp * gvol + sw.s)
  }

  lemma DfSymmetric(a1: real, a2: real)
    requires a1 > 0.0 && a2 > 0.0
    ensures Df(a1, a2) == Df(a2, a1)
  {
    assert a1 + a2 == a2 + a1;
    assert a1 * a2 == a2 * a1;
  }

  lemma Dist2Symmetric(c1: Vec3, c2: Vec3)
    ensures Dist2(c1, c2) == Dist2(c2, c1)
  {
    var d1 := Diff(c2, c1);
    var d2 := Diff(c1, c2);
    assert d1.x * d1.x == d2.x * d2.x && d1.y * d1.y == d2.y * d2.y && d1.z * d1.z == d2.z * d2.z;
  }

  lemma ExponentSymmetric(g1: Gaussian, g2: Gaussian)
    requires g1.a > 0.0 && g2.a > 0.0
    ensures Exponent(g1, g2) == Exponent(g2, g1)
  {
    DfSymmetric(g1.a, g2.a);
    Dist2Symmetric(g1.c, g2.c);
    MulCongruent(-Df(g1.a, g2.a), Dist2(g1.c, g2.c), -Df(g2.a, g1.a), Dist2(g2.c, g1.c));
  }

  lemma RawVolumeSymmetric(g1: Gaussian, g2: Gaussian, expf: real -> real, invPow15: real -> real)
    requires g1.a > 0.0 && g2.a > 0.0
    ensures RawVolume(g1, g2, expf, invPow15) == RawVolume(g2, g1, expf, invPow15)
  {
    DfSymmetric(g1.a, g2.a);
    ExponentSymmetric(g1, g2);
    assert PowTerm(g1, g2, invPow15) == PowTerm(g2, g1, invPow15);
    assert ExpTerm(g1, g2, expf) == ExpTerm(g2, g1, expf);
    MulCongruent(g1.v * g2.v * PowTerm(g1, g2, invPow15), ExpTerm(g1, g2, expf),
                 g2.v * g1.v * PowTerm(g2, g1, invPow15), ExpTerm(g2, g1, expf));
  }

  lemma MulCongruent(a: real, b: real, c: real, d: real)
    requires a == c && b == d
    ensures a * b == c * d
  {
  }

  lemma CentreSymmetric(g1: Gaussian, g2: Gaussian)
    requires g1.a > 0.0 && g2.a > 0.0
    ensures Centre(g1, g2) == Centre(g2, g1)
  {
    assert g1.a + g2.a == g2.a + g1.a;
  }

  /** The overlap Gaussian, the switched volume and the radial derivative do
      not depend on the order of the two Gaussians. */
  lemma OgaussAlphaSymmetric(g1: Gaussian, g2: Gaussian, expf: real -> real, invPow15: real -> real)
    requires g1.a > 0.0 && g2.a > 0.0
    ensures var m12 := OgaussAlpha(g1, g2, expf, invPow15); var m21 := OgaussAlpha(g2, g1, expf, invPow15);
      m12.g12 == m21.g12 && m12.volume == m21.volume && m12.dVdr == m21.dVdr && m12.sfp == m21.sfp
  {
    DfSymmetric(g1.a, g2.a);
    RawVolumeSymmetric(g1, g2, expf, invPow15);
    CentreSymmetric(g1, g2);
    assert g1.a + g2.a == g2.a + g1.a;
  }

  /** For non-negative volumes and kernels the switched overlap volume lies
      between 0 and the unswitched one, and the overlap centre is the
      exponent-weighted mean of the two centres. */
  lemma OgaussAlphaBounds(g1: Gaussian, g2: Gaussian, expf: real -> real, invPow15: real -> real)
    requires g1.a > 0.0 && g2.a > 0.0 && g1.v >= 0.0 && g2.v >= 0.0
    requires forall x :: expf(x) >= 0.0 && invPow15(x) >= 0.0
    ensures var m := OgaussAlpha(g1, g2, expf, invPow15);
      0.0 <= m.volume <= m.g12.v &&
      m.g12.c.x * m.g12.a == g1.c.x * g1.a + g2.c.x * g2.a &&
      m.g12.c.y * m.g12.a == g1.c.y * g1.a + g2.c.y * g2.a &&
      m.g12.c.z * m.g12.a == g1.c.z * g1.a + g2.c.z * g2.a
  {
    RawVolumeNonneg(g1, g2, expf, invPow15);
    var gvol := RawVolume(g1, g2, expf, invPow15);
    PolSwitchBounds(gvol, VOLMINA, VOLMINB);
    var s := PolSwitch(gvol, VOLMINA, VOLMINB).s;
    MulNonneg(s, gvol);
    MulNonneg(1.0 - s, gvol);
    assert gvol - s * gvol == (1.0 - s) * gvol;
    CentreIsWeightedMean(g1, g2);
    var m := OgaussAlpha(g1, g2, expf, invPow15);
    assert m.volume == s * gvol;
    assert m.g12 == Gaussian(gvol, g1.a + g2.a, Centre(g1, g2));
  }

  lemma RawVolumeNonneg(g1: Gaussian, g2: Gaussian, expf: real -> real, invPow15: real -> real)
    requires g1.a > 0.0 && g2.a > 0.0 && g1.v >= 0.0 && g2.v >= 0.0
    requires forall x :: expf(x) >= 0.0 && invPow15(x) >= 0.0
    ensures RawVolume(g1, g2, expf, invPow15) >= 0.0
  {
    var ip := PowTerm(g1, g2, invPow15);
    var ef := ExpTerm(g1, g2, expf);
    assert ip >= 0.0 && ef >= 0.0;
    MulNonneg(g1.v, g2.v);
    MulNonneg(g1.v * g2.v, ip);
    MulNonneg(g1.v * g2.v * ip, ef);
  }

  lemma CentreIsWeightedMean(g1: Gaussian, g2: Gaussian)
    requires g1.a > 0.0 && g2.a > 0.0
    ensures var c := Centre(g1, g2); var a := g1.a + g2.a;
      c.x * a == g1.c.x * g1.a + g2.c.x * g2.a &&
      c.y * a == g1.c.y * g1.a + g2.c.y * g2.a &&
      c.z * a == g1.c.z * g1.a + g2.c.z * g2.a
  {
    var a := g1.a + g2.a;
    var d := 1.0 / a;
    assert a * d == 1.0;
    assert (g1.c.x * (g1.a * d) + g2.c.x * (g2.a * d)) * a == (g1.c.x * g1.a + g2.c.x * g2.a) * (a * d);
    assert (g1.c.y * (g1.a * d) + g2.c.y * (g2.a * d)) * a == (g1.c.y * g1.a + g2.c.y * g2.a) * (a * d);
    assert (g1.c.z * (g1.a * d) + g2.c.z * (g2.a * d)) * a == (g1.c.z * g1.a + g2.c.z * g2.a) * (a * d);
  }

  // ------------------------------------------------------ sums up the tree

  /** volcoeff: +1 on odd levels, -1 on even ones, 0 at the root. */
  function VolCoeff(level: int): (c: real)
    ensures level > 0 && level % 2 == 1 ==> c == 1.0
    ensures level > 0 && level % 2 == 0 ==> c == -1.0
    ensures level <= 0 ==> c == 0.0
  {
    if level > 0 then (if JavaRem(level, 2) == 0 then -1.0 else 1.0) else 0.0
  }

  /** volcoeffp: volcoeff shared out among the level atoms of the overlap. */
  function SelfCoeff(level: int): (c: real)
    ensures level > 0 ==> c * (level as real) == VolCoeff(level)
    ensures level <= 0 ==> c == 0.0
  {
    if level > 0 then VolCoeff(level) / (level as real) else 0.0
  }

  /** The six running sums of computeVolumeUnderSlot2R: psi1i, f1i, psip1i,
      fp1i, energy1i and fenergy1i. */
  datatype Sums = Sums(psi: real, f: real, psip: real, fp: real, energy: real, fenergy: real)

  const NO_SUMS: Sums := Sums(0.0, 0.0, 0.0, 0.0, 0.0, 0.0)

  function Add(a: Sums, b: Sums): (r: Sums)
    ensures r.psi == a.psi + b.psi && r.psip == a.psip + b.psip && r.energy == a.energy + b.energy
  {
    Sums(a.psi + b.psi, a.f + b.f, a.psip + b.psip, a.fp + b.fp, a.energy + b.energy, a.fenergy + b.fenergy)
  }

  /** A node's own terms, before its children's are added. */
  function Own(o: Overlap): Sums
  {
    var vc := VolCoeff(o.level);
    var vp := SelfCoeff(o.level);
    Sums(vc * o.volume, vc * o.sfp, vp * o.volume, vp * o.sfp, vp * o.gamma1i * o.volume, vp * o.sfp * o.gamma1i)
  }

  /** What a node hands its parent: its sums, with the three derivative sums
      scaled by dvv1 below the root. */
  function Passed(o: Overlap, t: Sums): (r: Sums)
    ensures r.psi == t.psi && r.psip == t.psip && r.energy == t.energy
  {
    if o.level > 0 then t.(f := o.dvv1 * t.f, fp := o.dvv1 * t.fp, fenergy := o.dvv1 * t.fenergy) else t
  }

  /** The sums of the subtree of s, before the dvv1 scaling. */
  ghost function Total(ov: seq<Overlap>, s: int): Sums
    requires Ordered(ov) && 0 <= s < |ov|
    decreases |ov| - s, 0
  {
    var o := ov[s];
    if o.childrenStartindex >= 0 && o.childrenCount > 0 then
      assert InRange(o, o.childrenStartindex) && InRange(o, o.childrenStartindex + o.childrenCount - 1);
      Add(Own(o), ChildSums(ov, o.childrenStartindex, o.childrenStartindex + o.childrenCount))
    else Own(o)
  }

  /** What children lo .. hi-1 hand up, added in slot order. */
  ghost function ChildSums(ov: seq<Overlap>, lo: int, hi: int): Sums
    requires Ordered(ov) && 0 <= lo && hi <= |ov|
    decreases |ov| - lo, hi - lo
  {
    if hi <= lo then NO_SUMS
    else Add(ChildSums(ov, lo, hi - 1), Passed(ov[hi - 1], Total(ov, hi - 1)))
  }

  // ------------------------------------------------------------- credits

  /** The three per-atom arrays computeVolumeUnderSlot2R adds to. */
  datatype Credit = FreeVolume | SelfVolume | VolumeGradient

  /** What a node below the root adds to its last atom's entry. */
  function Amount(o: Overlap, t: Sums, w: Credit): real
  {
    match w
    case FreeVolume => t.psi
    case SelfVolume => t.psip
    case VolumeGradient => o.g.v * t.fenergy
  }

  /** A vector of n zeros with v at index i (all zeros when i is out of range). */
  function Single(n: nat, i: int, v: real): (r: seq<real>)
    ensures |r| == n && forall k :: 0 <= k < n ==> r[k] == if k == i then v else 0.0
  {
    seq(n, k => if k == i then v else 0.0)
  }

  function AddSeq(a: seq<real>, b: seq<real>): (r: seq<real>)
    requires |a| == |b|
    ensures |r| == |a| && forall k :: 0 <= k < |a| ==> r[k] == a[k] + b[k]
  {
    seq(|a|, k requires 0 <= k < |a| => a[k] + b[k])
  }

  function Zeros(n: nat): (r: seq<real>)
    ensures |r| == n && forall k :: 0 <= k < n ==> r[k] == 0.0
  {
    seq(n, k => 0.0)
  }

  /** What the subtree of s adds to an n-entry per-atom array. */
  ghost function Credits(ov: seq<Overlap>, s: int, w: Credit, n: nat): (r: seq<real>)
    requires Ordered(ov) && 0 <= s < |ov|
    ensures |r| == n
    decreases |ov| - s, 0
  {
    var o := ov[s];
    var own := if o.level > 0 then Single(n, o.atom, Amount(o, Total(ov, s), w)) else Zeros(n);
    if o.childrenStartindex >= 0 && o.childrenCount > 0 then
      assert InRange(o, o.childrenStartindex) && InRange(o, o.childrenStartindex + o.childrenCount - 1);
      AddSeq(CreditRange(ov, o.childrenStartindex, o.childrenStartindex + o.childrenCount, w, n), own)
    else own
  }

  ghost function CreditRange(ov: seq<Overlap>, lo: int, hi: int, w: Credit, n: nat): (r: seq<real>)
    requires Ordered(ov) && 0 <= lo && hi <= |ov|
    ensures |r| == n
    decreases |ov| - lo, hi - lo
  {
    if hi <= lo then Zeros(n)
    else AddSeq(CreditRange(ov, lo, hi - 1, w, n), Credits(ov, hi - 1, w, n))
  }

  /** Entry k of Credits, one atom at a time. */
  ghost function CreditAt(ov: seq<Overlap>, s: int, w: Credit, k: int): real
    requires Ordered(ov) && 0 <= s < |ov|
    decreases |ov| - s, 0
  {
    var o := ov[s];
    var own := if o.level > 0 && o.atom == k then Amount(o, Total(ov, s), w) else 0.0;
    if o.childrenStartindex >= 0 && o.childrenCount > 0 then
      assert InRange(o, o.childrenStartindex) && InRange(o, o.childrenStartindex + o.childrenCount - 1);
      CreditRangeAt(ov, o.childrenStartindex, o.childrenStartindex + o.childrenCount, w, k) + own
    else own
  }

  /** Entry k of CreditRange. */
  ghost function CreditRangeAt(ov: seq<Overlap>, lo: int, hi: int, w: Credit, k: int): real
    requires Ordered(ov) && 0 <= lo && hi <= |ov|
    decreases |ov| - lo, hi - lo
  {
    if hi <= lo then 0.0 else CreditRangeAt(ov, lo, hi - 1, w, k) + CreditAt(ov, hi - 1, w, k)
  }

  /** The per-atom vector and its entries agree. */
  lemma {:induction false} CreditsAt(ov: seq<Overlap>, n: nat, s: int, w: Credit, k: int)
    requires Ordered(ov) && 0 <= s < |ov| && 0 <= k < n
    ensures Credits(ov, s, w, n)[k] == CreditAt(ov, s, w, k)
    decreases |ov| - s, 0
  {
    var o := ov[s];
    if o.childrenStartindex >= 0 && o.childrenCount > 0 {
      assert InRange(o, o.childrenStartindex) && InRange(o, o.childrenStartindex + o.childrenCount - 1);
      CreditRangeAtIs(ov, n, o.childrenStartindex, o.childrenStartindex + o.childrenCount, w, k);
    }
  }

  lemma {:induction false} CreditRangeAtIs(ov: seq<Overlap>, n: nat, lo: int, hi: int, w: Credit, k: int)
    requires Ordered(ov) && 0 <= lo && hi <= |ov| && 0 <= k < n
    ensures CreditRange(ov, lo, hi, w, n)[k] == CreditRangeAt(ov, lo, hi, w, k)
    decreases |ov| - lo, hi - lo
  {
    if lo < hi {
      CreditRangeAtIs(ov, n, lo, hi - 1, w, k);
      CreditsAt(ov, n, hi - 1, w, k);
    }
  }

  // ------------------------------------------------ what the credits add up to

  /** What the sums below need of a linked tree: children one level below
      their parent, no negative level, and every node below the root naming
      one of the n atoms. */
  ghost predicate Leveled(ov: seq<Overlap>, n: nat)
  {
    Ordered(ov) &&
    (forall k :: 0 <= k < |ov| ==> 0 <= ov[k].level && (ov[k].level > 0 ==> 0 <= ov[k].atom < n)) &&
    (forall p, c {:trigger InRange(ov[p], c)} :: 0 <= p < |ov| && InRange(ov[p], c) ==> ov[c].level == ov[p].level + 1)
  }

  lemma LinkedLeveled(ov: seq<Overlap>, n: nat)
    requires Linked(ov, n)
    ensures Leveled(ov, n)
  {
    assert ShapeOf(ov[0]).level == 0;
    forall k | 1 <= k < |ov|
      ensures 0 <= ov[k].level && 0 <= ov[k].atom < n
    {
      assert NodeLinked(ov, n, k);
    }
    forall p, c | 0 <= p < |ov| && InRange(ov[p], c)
      ensures ov[c].level == ov[p].level + 1
    {
      assert p < c < |ov| && ov[c].parentIndex == p;
      assert NodeLinked(ov, n, c);
    }
  }

  function SumSeq(a: seq<real>): real
  {
    if |a| == 0 then 0.0 else SumSeq(a[..|a| - 1]) + a[|a| - 1]
  }

  lemma {:induction false} SumAddSeq(a: seq<real>, b: seq<real>)
    requires |a| == |b|
    ensures SumSeq(AddSeq(a, b)) == SumSeq(a) + SumSeq(b)
    decreases |a|
  {
    if |a| > 0 {
      var m := |a| - 1;
      SumAddSeq(a[..m], b[..m]);
      assert AddSeq(a, b)[..m] == AddSeq(a[..m], b[..m]);
    }
  }

  lemma {:induction false} SumSingle(n: nat, i: int, v: real)
    ensures SumSeq(Single(n, i, v)) == if 0 <= i < n then v else 0.0
    decreases n
  {
    if n > 0 {
      SumSingle(n - 1, i, v);
      assert Single(n, i, v)[..n - 1] == Single(n - 1, i, v);
    }
  }

  lemma {:induction false} SumZeros(n: nat)
    ensures SumSeq(Zeros(n)) == 0.0
  {
    SumSingle(n, -1, 0.0);
    assert Zeros(n) == Single(n, -1, 0.0);
  }

  /** The whole amount the subtree of s credits, atom by atom or at once. */
  ghost function Credited(ov: seq<Overlap>, s: int, w: Credit): real
    requires Ordered(ov) && 0 <= s < |ov|
    decreases |ov| - s, 0
  {
    var o := ov[s];
    var own := if o.level > 0 then Amount(o, Total(ov, s), w) else 0.0;
    if o.childrenStartindex >= 0 && o.childrenCount > 0 then
      assert InRange(o, o.childrenStartindex) && InRange(o, o.childrenStartindex + o.childrenCount - 1);
      CreditedRange(ov, o.childrenStartindex, o.childrenStartindex + o.childrenCount, w) + own
    else own
  }

  ghost function CreditedRange(ov: seq<Overlap>, lo: int, hi: int, w: Credit): real
    requires Ordered(ov) && 0 <= lo && hi <= |ov|
    decreases |ov| - lo, hi - lo
  {
    if hi <= lo then 0.0 else CreditedRange(ov, lo, hi - 1, w) + Credited(ov, hi - 1, w)
  }

  /** Every overlap names one of the n atoms, so nothing credited to the
      per-atom array is lost. */
  lemma {:induction false} CreditsAddUp(ov: seq<Overlap>, n: nat, s: int, w: Credit)
    requires Leveled(ov, n) && 0 <= s < |ov|
    ensures SumSeq(Credits(ov, s, w, n)) == Credited(ov, s, w)
    decreases |ov| - s, 0
  {
    var o := ov[s];
    var amount := if o.level > 0 then Amount(o, Total(ov, s), w) else 0.0;
    var own := if o.level > 0 then Single(n, o.atom, Amount(o, Total(ov, s), w)) else Zeros(n);
    if o.level > 0 {
      SumSingle(n, o.atom, Amount(o, Total(ov, s), w));
    } else {
      SumZeros(n);
    }
    assert SumSeq(own) == amount;
    if o.childrenStartindex >= 0 && o.childrenCount > 0 {
      var lo := o.childrenStartindex;
      var hi := lo + o.childrenCount;
      assert InRange(o, lo) && InRange(o, hi - 1);
      assert Credits(ov, s, w, n) == AddSeq(CreditRange(ov, lo, hi, w, n), own);
      assert Credited(ov, s, w) == CreditedRange(ov, lo, hi, w) + amount;
      CreditRangeAddsUp(ov, n, lo, hi, w);
      SumAddSeq(CreditRange(ov, lo, hi, w, n), own);
    } else {
      assert Credits(ov, s, w, n) == own;
      assert Credited(ov, s, w) == amount;
    }
  }

  lemma {:induction false} CreditRangeAddsUp(ov: seq<Overlap>, n: nat, lo: int, hi: int, w: Credit)
    requires Leveled(ov, n) && 0 <= lo && hi <= |ov|
    ensures SumSeq(CreditRange(ov, lo, hi, w, n)) == CreditedRange(ov, lo, hi, w)
    decreases |ov| - lo, hi - lo
  {
    if hi <= lo {
      SumZeros(n);
    } else {
      assert CreditRange(ov, lo, hi, w, n) == AddSeq(CreditRange(ov, lo, hi - 1, w, n), Credits(ov, hi - 1, w, n));
      assert CreditedRange(ov, lo, hi, w) == CreditedRange(ov, lo, hi - 1, w) + Credited(ov, hi - 1, w);
      CreditRangeAddsUp(ov, n, lo, hi - 1, w);
      CreditsAddUp(ov, n, hi - 1, w);
      SumAddSeq(CreditRange(ov, lo, hi - 1, w, n), Credits(ov, hi - 1, w, n));
    }
  }

  // --------------------------------------- self volumes add up to the volume

  /** p added up m times (0 when m is not positive). */
  function Copies(p: real, m: int): real
    decreases m
  {
    if m <= 0 then 0.0 else Copies(p, m - 1) + p
  }

  lemma {:induction false} CopiesIsProduct(p: real, m: int)
    requires m >= 0
    ensures Copies(p, m) == p * (m as real)
    decreases m
  {
    if m > 0 {
      CopiesIsProduct(p, m - 1);
      assert p * ((m - 1) as real) + p == p * (m as real);
    }
  }

  lemma {:induction false} CopiesAdd(x: real, y: real, t: real, m: int)
    requires t == x + y
    ensures Copies(t, m) == Copies(x, m) + Copies(y, m)
    decreases m
  {
    if m > 0 {
      CopiesAdd(x, y, t, m - 1);
    }
  }

  /** The own self-volume term of the subtree of s, each counted once per
      level its node lies at. */
  ghost function LevelSum(ov: seq<Overlap>, s: int): real
    requires Ordered(ov) && 0 <= s < |ov|
    decreases |ov| - s, 0
  {
    var o := ov[s];
    var own := Copies(Own(o).psip, o.level);
    if o.childrenStartindex >= 0 && o.childrenCount > 0 then
      assert InRange(o, o.childrenStartindex) && InRange(o, o.childrenStartindex + o.childrenCount - 1);
      own + LevelSumRange(ov, o.childrenStartindex, o.childrenStartindex + o.childrenCount)
    else own
  }

  ghost function LevelSumRange(ov: seq<Overlap>, lo: int, hi: int): real
    requires Ordered(ov) && 0 <= lo && hi <= |ov|
    decreases |ov| - lo, hi - lo
  {
    if hi <= lo then 0.0 else LevelSumRange(ov, lo, hi - 1) + LevelSum(ov, hi - 1)
  }

  /** Every node's credited self volume is its level sum less its subtree's
      self-volume sum counted once per level above the node. */
  lemma {:induction false} CreditedIsLevelSum(ov: seq<Overlap>, n: nat, s: int)
    requires Leveled(ov, n) && 0 <= s < |ov|
    ensures Credited(ov, s, SelfVolume) == LevelSum(ov, s) - Copies(Total(ov, s).psip, ov[s].level - 1)
    decreases |ov| - s, 0
  {
    var o := ov[s];
    var L := o.level;
    var p := Own(o).psip;
    var t := Total(ov, s).psip;
    if o.childrenStartindex >= 0 && o.childrenCount > 0 {
      var lo := o.childrenStartindex;
      var hi := lo + o.childrenCount;
      assert InRange(o, lo) && InRange(o, hi - 1);
      CreditedRangeIsLevelSum(ov, n, s, lo, hi);
      var c := ChildSums(ov, lo, hi).psip;
      assert t == p + c;
      CopiesAdd(p, c, t, L - 1);
    }
  }

  /** Children of q, all one level below it, credit their level sums less
      their self-volume sums counted once per level of q. */
  lemma {:induction false} CreditedRangeIsLevelSum(ov: seq<Overlap>, n: nat, q: int, lo: int, hi: int)
    requires Leveled(ov, n) && 0 <= q < |ov| && 0 <= lo && hi <= |ov|
    requires forall c :: lo <= c < hi ==> InRange(ov[q], c)
    ensures CreditedRange(ov, lo, hi, SelfVolume) ==
            LevelSumRange(ov, lo, hi) - Copies(ChildSums(ov, lo, hi).psip, ov[q].level)
    decreases |ov| - lo, hi - lo
  {
    if hi > lo {
      var c := hi - 1;
      assert InRange(ov[q], c);
      CreditedRangeIsLevelSum(ov, n, q, lo, c);
      CreditedIsLevelSum(ov, n, c);
      var m := ov[c].level - 1;
      assert m == ov[q].level;
      assert Copies(Total(ov, c).psip, m) == Copies(Total(ov, c).psip, ov[q].level);
      CopiesAdd(ChildSums(ov, lo, c).psip, Total(ov, c).psip, ChildSums(ov, lo, hi).psip, ov[q].level);
    } else {
      CopiesIsProduct(0.0, ov[q].level);
    }
  }

  /** The level sum of a subtree is its volume sum. */
  lemma {:induction false} LevelSumIsVolume(ov: seq<Overlap>, n: nat, s: int)
    requires Leveled(ov, n) && 0 <= s < |ov|
    ensures LevelSum(ov, s) == Total(ov, s).psi
    decreases |ov| - s, 0
  {
    var o := ov[s];
    OwnSelfTimesLevel(o);
    if o.childrenStartindex >= 0 && o.childrenCount > 0 {
      var lo := o.childrenStartindex;
      var hi := lo + o.childrenCount;
      assert InRange(o, lo) && InRange(o, hi - 1);
      LevelSumRangeIsVolume(ov, n, lo, hi);
    }
  }

  /** volcoeffp counted once per level is volcoeff. */
  lemma OwnSelfTimesLevel(o: Overlap)
    requires o.level >= 0
    ensures Copies(Own(o).psip, o.level) == Own(o).psi
  {
    var L := o.level as real;
    var vp := SelfCoeff(o.level);
    CopiesIsProduct(Own(o).psip, o.level);
    if o.level > 0 {
      assert vp * L == VolCoeff(o.level);
      assert vp * o.volume * L == vp * L * o.volume;
    } else {
      assert vp == 0.0 && L == 0.0;
    }
  }

  lemma {:induction false} LevelSumRangeIsVolume(ov: seq<Overlap>, n: nat, lo: int, hi: int)
    requires Leveled(ov, n) && 0 <= lo && hi <= |ov|
    ensures LevelSumRange(ov, lo, hi) == ChildSums(ov, lo, hi).psi
    decreases |ov| - lo, hi - lo
  {
    if hi > lo {
      LevelSumRangeIsVolume(ov, n, lo, hi - 1);
      LevelSumIsVolume(ov, n, hi - 1);
    }
  }

  /** The AGBNP identity: the self volumes credited to the atoms add up to
      the total volume of the tree, each overlap's volume shared out evenly
      among the atoms it overlaps. */
  lemma SelfVolumesAddUpToVolume(ov: seq<Overlap>, n: nat)
    requires Linked(ov, n)
    ensures SumSeq(Credits(ov, 0, SelfVolume, n)) == Total(ov, 0).psi
  {
    LinkedLeveled(ov, n);
    CreditsAddUp(ov, n, 0, SelfVolume);
    CreditedIsLevelSum(ov, n, 0);
    assert ShapeOf(ov[0]).level == 0;
    LevelSumIsVolume(ov, n, 0);
  }
}
