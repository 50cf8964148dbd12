// TitrationUtils: the protonation reactions, which residue titrates by which
// of them, and which hydrogens are the titrating protons.
module TitrationUtils {
  import opened Wrappers

  /** The AminoAcid3 constants the titration table names; every other
      constant of the enumeration is `OtherAminoAcid`. */
  datatype AminoAcid3 = CYD | CYS | ASP | ASH | GLU | GLH | LYD | LYS | TYD | TYR | HID | HIS | HIE | UNK
                      | OtherAminoAcid(name: string)

  /** The enum Titr, every reaction written as deprotonated -> protonated. */
  datatype Titr = ctoC | Dtod | Etoe | ktoK | ytoY | UtoH | ZtoH | TerminusNH3toNH2 | TerminusCOOHtoCOO

  /** Titr.values(), in declaration order. */
  const TITR_VALUES: seq<Titr> := [ctoC, Dtod, Etoe, ktoK, ytoY, UtoH, ZtoH, TerminusNH3toNH2, TerminusCOOHtoCOO]

  /** Three-state histidines are not implemented. */
  const THREE_STATE_HISTIDINES: bool := false

  /** The constructor arguments of each Titr constant. */
  datatype Reaction = Reaction(pKa: real, refEnergy: real, deprotForm: AminoAcid3, protForm: AminoAcid3)

  function ReactionOf(t: Titr): Reaction
  {
    match t
    case ctoC => Reaction(8.18, 60.168, CYD, CYS)
    case Dtod => Reaction(3.90, 53.188, ASP, ASH)
    case Etoe => Reaction(4.25, 59.390, GLU, GLH)
    case ktoK => Reaction(10.53, -50.440, LYD, LYS)
    case ytoY => Reaction(10.07, 34.961, TYD, TYR)
    case UtoH => Reaction(6.00, -42.923, HID, HIS)
    case ZtoH => Reaction(6.00, 0.000, HIE, HIS)
    case TerminusNH3toNH2 => Reaction(8.23, 0.00, UNK, UNK)
    case TerminusCOOHtoCOO => Reaction(3.55, 0.00, UNK, UNK)
  }

  predicate Titrates(t: Titr, source: AminoAcid3)
  {
    ReactionOf(t).deprotForm == source || ReactionOf(t).protForm == source
  }

  /** The position in Titr.values(), from i on, of the first reaction the
      residue takes part in, or the number of reactions if there is none. */
  function FirstTitrating(source: AminoAcid3, i: nat): (k: nat)
    requires i <= |TITR_VALUES|
    ensures i <= k <= |TITR_VALUES|
    ensures k < |TITR_VALUES| ==> Titrates(TITR_VALUES[k], source)
    ensures forall j :: i <= j < k ==> !Titrates(TITR_VALUES[j], source)
    decreases |TITR_VALUES| - i
  {
    if i == |TITR_VALUES| then i
    else if Titrates(TITR_VALUES[i], source) then i
    else FirstTitrating(source, i + 1)
  }

  predicate IsHistidine(source: AminoAcid3)
  {
    source == HIS || source == HID || source == HIE
  }

  /** titrationLookup: histidines titrate by UtoH (ZtoH only with three-state
      histidines), any other residue by the first reaction naming it; no
      reaction is null. */
  function TitrationLookup(source: AminoAcid3): (r: Option<Titr>)
    ensures IsHistidine(source) ==> r == Some(UtoH)
    ensures !IsHistidine(source) && r.Some? ==>
      exists k :: 0 <= k < |TITR_VALUES| && r.value == TITR_VALUES[k] && Titrates(r.value, source) &&
        forall j :: 0 <= j < k ==> !Titrates(TITR_VALUES[j], source)
    ensures !IsHistidine(source) && r.None? ==> forall t :: t in TITR_VALUES ==> !Titrates(t, source)
  {
    if IsHistidine(source) then Some(if THREE_STATE_HISTIDINES then ZtoH else UtoH)
    else
      var k := FirstTitrating(source, 0);
      if k < |TITR_VALUES| then Some(TITR_VALUES[k]) else None
  }

  /** The name of the new residue titrationFactory builds: the protonated form,
      or the deprotonated one for a residue already protonated. */
  function TargetName(t: Titr, source: AminoAcid3): (target: AminoAcid3)
    ensures target == ReactionOf(t).protForm || target == ReactionOf(t).deprotForm
    ensures source != ReactionOf(t).protForm ==> target == ReactionOf(t).protForm
  {
    if ReactionOf(t).protForm != source then ReactionOf(t).protForm else ReactionOf(t).deprotForm
  }

  /** The search returns the first reaction that names the residue. */
  lemma FirstTitratingIs(source: AminoAcid3, k: nat)
    requires k < |TITR_VALUES| && Titrates(TITR_VALUES[k], source)
    requires forall j :: 0 <= j < k ==> !Titrates(TITR_VALUES[j], source)
    ensures FirstTitrating(source, 0) == k
  {
  }

  /** Both forms of each amino-acid reaction other than histidine's find
      that reaction: the reaction at position k of Titr.values(). */
  lemma LookupFindsEachForm(k: nat)
    requires k < 5
    ensures TitrationLookup(ReactionOf(TITR_VALUES[k]).deprotForm) == Some(TITR_VALUES[k])
    ensures TitrationLookup(ReactionOf(TITR_VALUES[k]).protForm) == Some(TITR_VALUES[k])
  {
    var r := ReactionOf(TITR_VALUES[k]);
    assert !IsHistidine(r.deprotForm) && !IsHistidine(r.protForm);
    assert forall j :: 0 <= j < k ==> !Titrates(TITR_VALUES[j], r.deprotForm) && !Titrates(TITR_VALUES[j], r.protForm);
    FirstTitratingIs(r.deprotForm, k);
    FirstTitratingIs(r.protForm, k);
  }

  /** UNK, both forms of the termini, finds the first terminus reaction. */
  lemma LookupTerminus()
    ensures TitrationLookup(UNK) == Some(TerminusNH3toNH2)
  {
    assert forall j :: 0 <= j < 7 ==> !Titrates(TITR_VALUES[j], UNK);
    FirstTitratingIs(UNK, 7);
  }

  /** A residue no reaction names has none (titrationLookup returns null). */
  lemma LookupOtherIsNone(n: string)
    ensures TitrationLookup(OtherAminoAcid(n)) == None
  {
    forall t: Titr
      ensures !Titrates(t, OtherAminoAcid(n))
    {
    }
  }

  /** Titrating a residue the lookup finds switches it to the other form of
      its reaction, except for the termini, whose two forms coincide. */
  lemma TitrationSwitchesForm(source: AminoAcid3)
    requires TitrationLookup(source).Some?
    ensures var t := TitrationLookup(source).value;
      var target := TargetName(t, source);
      (source != UNK ==> target != source && Titrates(t, target)) &&
      (source == UNK ==> target == UNK)
  {
    var t := TitrationLookup(source).value;
    FormsOfReaction(t);
    if !IsHistidine(source) {
      assert Titrates(t, source);
    }
  }

  /** The two forms of a reaction differ, except for the termini, where both
      are UNK. */
  lemma FormsOfReaction(t: Titr)
    ensures var r := ReactionOf(t); (r.deprotForm == UNK || r.protForm == UNK) ==> r.deprotForm == r.protForm
    ensures var r := ReactionOf(t); r.deprotForm != UNK ==> r.deprotForm != r.protForm
  {
  }

  /** isTitratableHydrogen: the residue and atom names of the protons that
      titrate. */
  const TITRATABLE_HYDROGENS: set<(string, string)> :=
    {("LYS", "HZ3"), ("TYR", "HH"), ("CYS", "HG"), ("HIS", "HD1"), ("HIS", "HE2"),
     ("HID", "HD1"), ("HIE", "HE2"), ("ASH", "HD2"), ("GLH", "HE2")}

  function IsTitratableHydrogen(residueName: string, name: string): (r: bool)
    ensures r <==> (residueName, name) in TITRATABLE_HYDROGENS
  {
    if residueName == "LYS" then name == "HZ3"
    else if residueName == "TYR" then name == "HH"
    else if residueName == "CYS" then name == "HG"
    else if residueName == "HIS" then name == "HD1" || name == "HE2"
    else if residueName == "HID" then name == "HD1"
    else if residueName == "HIE" then name == "HE2"
    else if residueName == "ASH" then name == "HD2"
    else if residueName == "GLH" then name == "HE2"
    else false
  }

  /** Each titrating proton belongs to the protonated form of its reaction
      (HIS, HID and HIE carry theirs under histidine's reaction). */
  lemma TitratableHydrogensAreOnProtonatedForms(residueName: string, name: string)
    requires IsTitratableHydrogen(residueName, name)
    ensures residueName in {"LYS", "TYR", "CYS", "ASH", "GLH", "HIS", "HID", "HIE"}
  {
  }
}
