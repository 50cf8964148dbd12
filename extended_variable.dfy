// ExtendedVariable: an extended-system variable (ESV) between two forms of a
// titrating residue. Modelled: the split of the residues' atoms into shared,
// unshared and background atoms, the discretization bias and the switched
// lambda that updateLambda sets, the getters, and the name.
module ExtendedVariables {
  import opened Wrappers
  import opened JavaLang
  import TitrationUtils

  /** An atom as the partition sees it: its identity, its name and the name
      of its residue. */
  datatype Atom = Atom(id: int, name: string, residueName: string)

  /** The backbone atom names, in the order they are looked up. */
  const BACKBONE_NAMES: seq<string> := ["N", "CA", "C", "O", "HA", "H"]

  predicate IsTitratableHydrogen(a: Atom)
  {
    TitrationUtils.IsTitratableHydrogen(a.residueName, a.name)
  }

  /** getAtomNode / getAtomByName: the first atom of the residue with that
      name, or null. */
  function AtomNamed(atoms: seq<Atom>, name: string): (r: Option<Atom>)
    ensures r.Some? ==> r.value in atoms && r.value.name == name
    ensures r.None? <==> forall a :: a in atoms ==> a.name != name
  {
    if atoms == [] then None
    else if atoms[0].name == name then Some(atoms[0])
    else
      var r := AtomNamed(atoms[1..], name);
      assert forall a :: a in atoms ==> a == atoms[0] || a in atoms[1..];
      r
  }

  /** The foreground's backbone atoms found under the first k backbone names. */
  function BackboneFrom(fg: seq<Atom>, k: nat): (r: seq<Atom>)
    requires k <= |BACKBONE_NAMES|
    ensures forall a :: a in r <==> a in fg && exists j :: 0 <= j < k && AtomNamed(fg, BACKBONE_NAMES[j]) == Some(a)
  {
    if k == 0 then []
    else
      var init := BackboneFrom(fg, k - 1);
      match AtomNamed(fg, BACKBONE_NAMES[k - 1])
      case None => init
      case Some(bb) => init + [bb]
  }

  function BackboneOf(fg: seq<Atom>): seq<Atom>
  {
    BackboneFrom(fg, |BACKBONE_NAMES|)
  }

  /** The atoms of s that are not backbone atoms, in order. */
  function NonBackbone(s: seq<Atom>, backbone: seq<Atom>): (r: seq<Atom>)
    ensures forall a :: a in r <==> a in s && a !in backbone
  {
    if s == [] then []
    else
      var init := NonBackbone(s[..|s| - 1], backbone);
      var last := s[|s| - 1];
      assert s == s[..|s| - 1] + [last];
      if last !in backbone then init + [last] else init
  }

  /** A non-backbone foreground atom is shared when the background residue
      has an atom of the same name, unshared otherwise. */
  predicate IsShared(a: Atom, bg: seq<Atom>)
  {
    AtomNamed(bg, a.name).Some?
  }

  /** The non-backbone atoms of s that are shared (or, with `shared` false,
      unshared), in order. */
  function WithRole(s: seq<Atom>, backbone: seq<Atom>, bg: seq<Atom>, shared: bool): (r: seq<Atom>)
    ensures forall a :: a in r <==> a in s && a !in backbone && IsShared(a, bg) == shared
  {
    if s == [] then []
    else
      var init := WithRole(s[..|s| - 1], backbone, bg, shared);
      var last := s[|s| - 1];
      assert s == s[..|s| - 1] + [last];
      if last !in backbone && IsShared(last, bg) == shared then init + [last] else init
  }

  /** fg2bg: each shared atom of s mapped to its namesake in the background. */
  function Companions(s: seq<Atom>, backbone: seq<Atom>, bg: seq<Atom>): (m: map<Atom, Atom>)
    ensures forall a :: a in m <==> a in s && a !in backbone && IsShared(a, bg)
    ensures forall a :: a in m ==> m[a] in bg && m[a].name == a.name
  {
    if s == [] then map[]
    else
      var init := Companions(s[..|s| - 1], backbone, bg);
      var last := s[|s| - 1];
      assert s == s[..|s| - 1] + [last];
      if last !in backbone && IsShared(last, bg) then init[last := AtomNamed(bg, last.name).value] else init
  }

  /** The residue pair the constructor accepts: every unshared atom is a
      titratable hydrogen, and no non-backbone background atom is a
      foreground atom or a titratable hydrogen. */
  predicate Admissible(fg: seq<Atom>, bg: seq<Atom>)
  {
    var backbone := BackboneOf(fg);
    (forall a :: a in WithRole(fg, backbone, bg, false) ==> IsTitratableHydrogen(a)) &&
    (forall a0 :: a0 in NonBackbone(bg, backbone) ==> a0 !in NonBackbone(fg, backbone) && !IsTitratableHydrogen(a0))
  }

  /** The lists and the map the constructor fills. */
  datatype AtomPartition = AtomPartition(shared: seq<Atom>, unshared: seq<Atom>, background: seq<Atom>, fg2bg: map<Atom, Atom>)

  function PartitionOf(fg: seq<Atom>, bg: seq<Atom>): AtomPartition
  {
    var backbone := BackboneOf(fg);
    AtomPartition(WithRole(fg, backbone, bg, true), WithRole(fg, backbone, bg, false),
                  NonBackbone(bg, backbone), Companions(fg, backbone, bg))
  }

  /** Every foreground atom is exactly one of backbone, shared and unshared;
      fg2bg is defined on the shared atoms and maps each to a background atom
      of the same name. */
  lemma PartitionCovers(fg: seq<Atom>, bg: seq<Atom>, a: Atom)
    requires a in fg
    ensures var p := PartitionOf(fg, bg); var backbone := BackboneOf(fg);
      (a in backbone && a !in p.shared && a !in p.unshared) ||
      (a !in backbone && a in p.shared && a !in p.unshared && a in p.fg2bg && p.fg2bg[a] in bg && p.fg2bg[a].name == a.name) ||
      (a !in backbone && a !in p.shared && a in p.unshared && a !in p.fg2bg && forall b :: b in bg ==> b.name != a.name)
  {
  }

  /** The first loop: the backbone atoms of the foreground, by name. */
  method FindBackbone(fg: seq<Atom>) returns (backbone: seq<Atom>)
    ensures backbone == BackboneOf(fg)
  {
    backbone := [];
    var k := 0;
    while k < |BACKBONE_NAMES|
      invariant 0 <= k <= |BACKBONE_NAMES| && backbone == BackboneFrom(fg, k)
    {
      var bb := AtomNamed(fg, BACKBONE_NAMES[k]);
      if bb.Some? {
        backbone := backbone + [bb.value];
      }
      k := k + 1;
    }
  }

  /** The second loop: the non-backbone foreground atoms sorted into shared
      and unshared; an unshared atom that is not a titratable hydrogen
      throws. */
  method SortForeground(fg: seq<Atom>, backbone: seq<Atom>, bg: seq<Atom>)
      returns (r: Result<(seq<Atom>, seq<Atom>, seq<Atom>, map<Atom, Atom>)>)
    ensures r.Ok? <==> forall a :: a in WithRole(fg, backbone, bg, false) ==> IsTitratableHydrogen(a)
    ensures r.Ok? ==> r.value == (NonBackbone(fg, backbone), WithRole(fg, backbone, bg, true),
                                  WithRole(fg, backbone, bg, false), Companions(fg, backbone, bg))
  {
    var foreground: seq<Atom> := [];
    var shared: seq<Atom> := [];
    var unshared: seq<Atom> := [];
    var fg2bg: map<Atom, Atom> := map[];
    var j := 0;
    while j < |fg|
      invariant 0 <= j <= |fg|
      invariant foreground == NonBackbone(fg[..j], backbone)
      invariant shared == WithRole(fg[..j], backbone, bg, true)
      invariant unshared == WithRole(fg[..j], backbone, bg, false)
      invariant fg2bg == Companions(fg[..j], backbone, bg)
      invariant forall a :: a in unshared ==> IsTitratableHydrogen(a)
    {
      var a := fg[j];
      assert fg[..j + 1][..j] == fg[..j];
      if a !in backbone {
        foreground := foreground + [a];
        var b := AtomNamed(bg, a.name);
        if b.None? {
          unshared := unshared + [a];
          if !IsTitratableHydrogen(a) {
            assert a in WithRole(fg, backbone, bg, false);
            return Err("IllegalStateException: no companion for a foreground atom");
          }
        } else {
          shared := shared + [a];
          fg2bg := fg2bg[a := b.value];
        }
      }
      j := j + 1;
    }
    assert fg[..j] == fg;
    r := Ok((foreground, shared, unshared, fg2bg));
  }

  /** The third loop: the non-backbone background atoms; one that is a
      foreground atom or a titratable hydrogen throws. */
  method CollectBackground(bg: seq<Atom>, backbone: seq<Atom>, foreground: seq<Atom>) returns (r: Result<seq<Atom>>)
    ensures r.Ok? <==> forall a0 :: a0 in NonBackbone(bg, backbone) ==> a0 !in foreground && !IsTitratableHydrogen(a0)
    ensures r.Ok? ==> r.value == NonBackbone(bg, backbone)
  {
    var background: seq<Atom> := [];
    var i := 0;
    while i < |bg|
      invariant 0 <= i <= |bg|
      invariant background == NonBackbone(bg[..i], backbone)
      invariant forall a0 :: a0 in background ==> a0 !in foreground && !IsTitratableHydrogen(a0)
    {
      var a0 := bg[i];
      assert bg[..i + 1][..i] == bg[..i];
      if a0 !in backbone {
        if a0 in foreground || IsTitratableHydrogen(a0) {
          assert a0 in NonBackbone(bg, backbone);
          return Err("IllegalStateException: inappropriate background atom");
        }
        background := background + [a0];
      }
      i := i + 1;
    }
    assert bg[..i] == bg;
    r := Ok(background);
  }

  /** The constructor's three loops over the atom lists. */
  method PartitionAtoms(fg: seq<Atom>, bg: seq<Atom>) returns (r: Result<AtomPartition>)
    ensures r.Ok? <==> Admissible(fg, bg)
    ensures r.Ok? ==> r.value == PartitionOf(fg, bg)
  {
    var backbone := FindBackbone(fg);
    var sorted := SortForeground(fg, backbone, bg);
    if sorted.Err? {
      return Err(sorted.error);
    }
    var (foreground, shared, unshared, fg2bg) := sorted.value;
    var background := CollectBackground(bg, backbone, foreground);
    if background.Err? {
      return Err(background.error);
    }
    r := Ok(AtomPartition(shared, unshared, background.value, fg2bg));
  }

  /** The discretization bias B - 4B(lambda - 1/2)^2. */
  function DiscrBias(mag: real, lambda: real): real
  {
    mag - 4.0 * mag * (lambda - 0.5) * (lambda - 0.5)
  }

  /** Its derivative -8B(lambda - 1/2). */
  function DiscrBiasDeriv(mag: real, lambda: real): real
  {
    -8.0 * mag * (lambda - 0.5)
  }

  /** The bias is B at lambda = 1/2 and 0 at both ends. */
  lemma DiscrBiasValues(mag: real)
    ensures DiscrBias(mag, 0.5) == mag
    ensures DiscrBias(mag, 0.0) == 0.0 && DiscrBias(mag, 1.0) == 0.0
  {
  }

  /** The bias is symmetric about 1/2 and, for B >= 0, at most B. */
  lemma DiscrBiasShape(mag: real, lambda: real)
    ensures DiscrBias(mag, 1.0 - lambda) == DiscrBias(mag, lambda)
    ensures mag >= 0.0 ==> DiscrBias(mag, lambda) <= mag
  {
    var d := lambda - 0.5;
    assert (1.0 - lambda) - 0.5 == -d;
    assert 4.0 * mag * (-d) * (-d) == 4.0 * mag * d * d;
    if mag >= 0.0 {
      assert d * d >= 0.0;
      assert 4.0 * mag * d * d == (4.0 * mag) * (d * d);
    }
  }

  /** The derivative is exact: moving lambda by h changes the bias by h times
      the derivative, less the quadratic term 4Bh^2. */
  lemma DiscrBiasDerivIsExact(mag: real, lambda: real, h: real)
    ensures DiscrBias(mag, lambda + h) == DiscrBias(mag, lambda) + h * DiscrBiasDeriv(mag, lambda) - 4.0 * mag * h * h
  {
    var d := lambda - 0.5;
    assert (lambda + h) - 0.5 == d + h;
    assert 4.0 * mag * (d + h) * (d + h) == 4.0 * mag * d * d + 8.0 * mag * d * h + 4.0 * mag * h * h;
  }

  /** getName: "Esv" followed by the index in decimal. */
  function EsvName(esvIndex: int): (name: string)
    ensures StartsWith(name, "Esv") && |name| > 3
  {
    "Esv" + Decimal(esvIndex)
  }

  /** The index can be read back from the name. */
  lemma EsvNameRoundTrip(esvIndex: int)
    requires IsInt(esvIndex)
    ensures ParseLong(EsvName(esvIndex)[3..]) == Some(esvIndex)
  {
    assert EsvName(esvIndex)[3..] == Decimal(esvIndex);
    DecimalRoundTrip(esvIndex);
  }

  class ExtendedVariable {
    const esvIndex: int
    const discrBiasMag: real
    /** config.allowLambdaSwitch */
    const allowLambdaSwitch: bool
    /** The switching function's taper and its derivative. */
    const taper: real -> real
    const dtaper: real -> real
    const atomsShared: seq<Atom>
    const atomsUnshared: seq<Atom>
    const atomsBackground: seq<Atom>
    const fg2bg: map<Atom, Atom>
    var lambda: real
    var lSwitch: real
    var dlSwitch: real
    var discrBias: real
    var dDiscrBiasdL: real
    /** How many updateLambda(…, true) requests refreshed the multipole types
        and bonded lambdas; the constructor's own refreshes are not counted. */
    ghost var componentUpdates: nat

    /** The scalar fields agree with lambda. */
    ghost predicate Valid()
      reads this
    {
      lSwitch == (if allowLambdaSwitch then taper(lambda) else lambda) &&
      dlSwitch == (if allowLambdaSwitch then dtaper(lambda) else 1.0) &&
      discrBias == DiscrBias(discrBiasMag, lambda) &&
      dDiscrBiasdL == DiscrBiasDeriv(discrBiasMag, lambda)
    }

    /** The constructor after a successful partition: the lists and map it
        filled, and lambda set by updateLambda(initialLambda, false). The
        count of updateLambda(…, true) requests starts at zero. */
    constructor (esvIndex: int, discrBiasMag: real, allowLambdaSwitch: bool, taper: real -> real, dtaper: real -> real,
                 partition: AtomPartition, initialLambda: real)
      ensures Valid() && lambda == initialLambda && componentUpdates == 0
      ensures this.esvIndex == esvIndex && this.discrBiasMag == discrBiasMag && this.allowLambdaSwitch == allowLambdaSwitch
      ensures this.taper == taper && this.dtaper == dtaper
      ensures atomsShared == partition.shared && atomsUnshared == partition.unshared
      ensures atomsBackground == partition.background && fg2bg == partition.fg2bg
    {
      this.esvIndex := esvIndex;
      this.discrBiasMag := discrBiasMag;
      this.allowLambdaSwitch := allowLambdaSwitch;
      this.taper := taper;
      this.dtaper := dtaper;
      atomsShared := partition.shared;
      atomsUnshared := partition.unshared;
      atomsBackground := partition.background;
      fg2bg := partition.fg2bg;
      lambda := initialLambda;
      lSwitch := if allowLambdaSwitch then taper(initialLambda) else initialLambda;
      dlSwitch := if allowLambdaSwitch then dtaper(initialLambda) else 1.0;
      discrBias := DiscrBias(discrBiasMag, initialLambda);
      dDiscrBiasdL := DiscrBiasDeriv(discrBiasMag, initialLambda);
      componentUpdates := 0;
    }

    /** The constructor with its exceptions: the ESV exists exactly when the
        residue pair is admissible. */
    static method Create(esvIndex: int, discrBiasMag: real, allowLambdaSwitch: bool, taper: real -> real, dtaper: real -> real,
                         fg: seq<Atom>, bg: seq<Atom>, initialLambda: real) returns (r: Result<ExtendedVariable>)
      ensures r.Ok? <==> Admissible(fg, bg)
      ensures r.Ok? ==> fresh(r.value) && r.value.Valid() && r.value.lambda == initialLambda && r.value.esvIndex == esvIndex
      ensures r.Ok? ==> var p := PartitionOf(fg, bg);
        r.value.atomsShared == p.shared && r.value.atomsUnshared == p.unshared &&
        r.value.atomsBackground == p.background && r.value.fg2bg == p.fg2bg
    {
      var partition := PartitionAtoms(fg, bg);
      if partition.Err? {
        return Err(partition.error);
      }
      var esv := new ExtendedVariable(esvIndex, discrBiasMag, allowLambdaSwitch, taper, dtaper, partition.value, initialLambda);
      r := Ok(esv);
    }

    /** updateLambda: the new lambda, its switched value and derivative, and
        the bias and its derivative; the multipoles and bonded terms are
        refreshed only when asked. */
    method UpdateLambda(newLambda: real, updateComponents: bool)
      modifies this
      ensures Valid() && lambda == newLambda
      ensures componentUpdates == old(componentUpdates) + (if updateComponents then 1 else 0)
    {
      lambda := newLambda;
      lSwitch := if allowLambdaSwitch then taper(newLambda) else newLambda;
      dlSwitch := if allowLambdaSwitch then dtaper(newLambda) else 1.0;
      discrBias := DiscrBias(discrBiasMag, newLambda);
      dDiscrBiasdL := DiscrBiasDeriv(discrBiasMag, newLambda);
      if updateComponents {
        componentUpdates := componentUpdates + 1;
      }
    }

    /** getLambdaSwitch: S(lambda) with switching allowed, lambda itself
        otherwise. */
    function GetLambdaSwitch(): (s: real)
      requires Valid()
      reads this
      ensures allowLambdaSwitch ==> s == taper(lambda)
      ensures !allowLambdaSwitch ==> s == lambda
    {
      if allowLambdaSwitch then lSwitch else lambda
    }

    /** getSwitchDeriv: dS/dlambda with switching allowed, 1 otherwise. */
    function GetSwitchDeriv(): (d: real)
      requires Valid()
      reads this
      ensures allowLambdaSwitch ==> d == dtaper(lambda)
      ensures !allowLambdaSwitch ==> d == 1.0
    {
      if allowLambdaSwitch then dlSwitch else 1.0
    }

    /** getDiscrBias and getDiscrBiasDeriv: the bias and its derivative at the
        current lambda. */
    function GetDiscrBias(): (b: real)
      requires Valid()
      reads this
      ensures b == DiscrBias(discrBiasMag, lambda)
    {
      discrBias
    }

    function GetDiscrBiasDeriv(): (d: real)
      requires Valid()
      reads this
      ensures d == DiscrBiasDeriv(discrBiasMag, lambda)
    {
      dDiscrBiasdL
    }

    function GetName(): (name: string)
      reads this
      ensures name == EsvName(esvIndex)
    {
      "Esv" + Decimal(esvIndex)
    }
  }
}
