// Protonate: Monte Carlo switching of protonation states during molecular
// dynamics, reduced to its bookkeeping: which residues titrate, when a move
// is attempted, when it is accepted, and the acceptance rate.
module Protonates {
  import opened Wrappers
  import opened JavaLang

  /** The enum Titratable. */
  datatype Titratable = ARG | ASP | CYS | GLU | HIS | LYS | TYR

  /** Titratable.values(), in declaration order. */
  const TITRATABLE_VALUES: seq<Titratable> := [ARG, ASP, CYS, GLU, HIS, LYS, TYR]

  const TITRATABLE_NAMES: set<string> := {"ARG", "ASP", "CYS", "GLU", "HIS", "LYS", "TYR"}

  /** Boltzmann's constant in kcal/mol/K. */
  const BOLTZMANN: real := 0.0019872041

  /** Math.log(10) as a double. */
  const LN10: real := 2.302585092994046

  function NameOf(t: Titratable): string
  {
    match t
    case ARG => "ARG"
    case ASP => "ASP"
    case CYS => "CYS"
    case GLU => "GLU"
    case HIS => "HIS"
    case LYS => "LYS"
    case TYR => "TYR"
  }

  /** The intrinsic pKa of each constant. */
  function PKa(t: Titratable): real
  {
    match t
    case ARG => 12.48
    case ASP => 4.00
    case CYS => 8.18
    case GLU => 4.25
    case HIS => 6.00
    case LYS => 10.53
    case TYR => 10.07
  }

  /** The reference energy of deprotonation, 1.00 for every constant. */
  function RefEnergy(t: Titratable): real
  {
    1.0
  }

  /** isTitratable: the name matches one of the constants, ignoring case. */
  function IsTitratable(residueName: string): (r: bool)
    ensures r <==> exists t: Titratable :: EqualsIgnoreCase(residueName, NameOf(t))
  {
    if EqualsIgnoreCase(residueName, NameOf(ARG)) then true
    else if EqualsIgnoreCase(residueName, NameOf(ASP)) then true
    else if EqualsIgnoreCase(residueName, NameOf(CYS)) then true
    else if EqualsIgnoreCase(residueName, NameOf(GLU)) then true
    else if EqualsIgnoreCase(residueName, NameOf(HIS)) then true
    else if EqualsIgnoreCase(residueName, NameOf(LYS)) then true
    else EqualsIgnoreCase(residueName, NameOf(TYR))
  }

  /** Ignoring case against a name of upper-case letters is comparing the
      upper-cased name. */
  lemma EqualsIgnoreCaseUpper(a: string, b: string)
    requires forall i :: 0 <= i < |b| ==> 'A' <= b[i] <= 'Z'
    ensures EqualsIgnoreCase(a, b) <==> ToUpper(a) == b
  {
    if |a| == |b| {
      if EqualsIgnoreCase(a, b) {
        forall i | 0 <= i < |a|
          ensures ToUpper(a)[i] == b[i]
        {
          var c, d := a[i], b[i];
          assert c == d || UpperChar(c) == UpperChar(d) || LowerChar(c) == LowerChar(d);
        }
      }
      if ToUpper(a) == b {
        forall i | 0 <= i < |a|
          ensures UpperChar(a[i]) == UpperChar(b[i])
        {
          assert ToUpper(a)[i] == UpperChar(a[i]);
        }
      }
    }
  }

  /** A residue name titrates exactly when its upper-case form is the name
      of one of the constants. */
  lemma IsTitratableIffUpperName(residueName: string)
    ensures IsTitratable(residueName) <==> exists t: Titratable :: ToUpper(residueName) == NameOf(t)
  {
    forall t: Titratable
      ensures EqualsIgnoreCase(residueName, NameOf(t)) <==> ToUpper(residueName) == NameOf(t)
    {
      EqualsIgnoreCaseUpper(residueName, NameOf(t));
    }
  }

  /** Titratable.valueOf: the constant spelled exactly so, case included. */
  function ValueOf(name: string): (r: Option<Titratable>)
    ensures r.Some? <==> name in TITRATABLE_NAMES
    ensures r.Some? ==> NameOf(r.value) == name
  {
    if name == "ARG" then Some(ARG)
    else if name == "ASP" then Some(ASP)
    else if name == "CYS" then Some(CYS)
    else if name == "GLU" then Some(GLU)
    else if name == "HIS" then Some(HIS)
    else if name == "LYS" then Some(LYS)
    else if name == "TYR" then Some(TYR)
    else None
  }

  /** A name valueOf accepts passes isTitratable, but not conversely: a
      lower-case name passes the filter and is refused by valueOf. */
  lemma ValueOfStricterThanFilter(name: string)
    ensures ValueOf(name).Some? ==> IsTitratable(name)
    ensures IsTitratable("asp") && ValueOf("asp").None?
  {
    if ValueOf(name).Some? {
      assert EqualsIgnoreCase(name, NameOf(ValueOf(name).value));
    }
    assert EqualsIgnoreCase("asp", NameOf(ASP)) by {
      assert LowerChar('a') == LowerChar('A') && LowerChar('s') == LowerChar('S') && LowerChar('p') == LowerChar('P');
    }
  }

  /** The titratable residues in the order the constructor meets them. */
  function TitratableOf(names: seq<string>): (r: seq<string>)
    ensures forall k :: 0 <= k < |r| ==> IsTitratable(r[k])
    ensures |r| <= |names|
  {
    if names == [] then []
    else if IsTitratable(names[|names| - 1]) then TitratableOf(names[..|names| - 1]) + [names[|names| - 1]]
    else TitratableOf(names[..|names| - 1])
  }

  /** Every titratable name, and nothing else, is collected. */
  lemma {:induction false} TitratableOfCollectsAll(names: seq<string>)
    ensures forall n :: n in TitratableOf(names) <==> n in names && IsTitratable(n)
  {
    if names != [] {
      var init := names[..|names| - 1];
      TitratableOfCollectsAll(init);
      assert names == init + [names[|names| - 1]];
    }
  }

  /** The constructor as written: the residue list is never allocated, so
      adding the first titratable residue throws NullPointerException; a
      molecule with none leaves the list null. */
  function AsWrittenCollect(names: seq<string>): (r: Result<seq<string>>)
    ensures r.Err? <==> exists k :: 0 <= k < |names| && IsTitratable(names[k])
    ensures r.Ok? ==> r.value == []
  {
    if names == [] then Ok([])
    else if IsTitratable(names[0]) then Err("NullPointerException")
    else
      var rest := AsWrittenCollect(names[1..]);
      assert forall k :: 1 <= k < |names| ==> names[k] == names[1..][k - 1];
      rest
  }

  /** A single aspartate is enough to make the constructor throw. */
  lemma AsWrittenCollectFailsOnAspartate()
    ensures AsWrittenCollect(["ASP"]).Err?
    ensures TitratableOf(["ASP"]) == ["ASP"]
  {
    assert IsTitratable("ASP") by {
      assert EqualsIgnoreCase("ASP", NameOf(ASP));
    }
  }

  /** dG_MC: the pH term plus the electrostatic change, less the reference
      energy. */
  function DeltaGMC(kT: real, pH: real, pKaRef: real, dGElec: real, dGRef: real): real
  {
    kT * (pH - pKaRef) * LN10 + dGElec - dGRef
  }

  /** The Monte Carlo criterion: a downhill move is taken; an uphill one only
      when the Metropolis draw passes. */
  predicate Accepts(dGMC: real, metropolisPasses: bool)
  {
    dGMC < 0.0 || metropolisPasses
  }

  /** The number of attempted moves after `steps` calls of mcUpdate. */
  function Attempts(steps: int, frequency: int): int
    requires frequency != 0
  {
    if steps < 0 then 0 else steps / Abs(frequency)
  }

  lemma {:induction false} MulGap(d: int, n: int)
    requires 0 < d && 0 < n
    ensures d * n >= n
    decreases d
  {
    if d > 1 {
      MulGap(d - 1, n);
      assert d * n == (d - 1) * n + n;
    }
  }

  /** Quotient and remainder are the only ones that put x back together. */
  lemma DivModUnique(x: int, n: int, q: int, m: int)
    requires 0 < n && 0 <= m < n && x == q * n + m
    ensures x / n == q && x % n == m
  {
    var q', m' := x / n, x % n;
    assert x == q' * n + m';
    assert (q - q') * n == m' - m;
    if q - q' > 0 {
      MulGap(q - q', n);
    } else if q - q' < 0 {
      MulGap(q' - q, n);
    }
  }

  /** One more step adds an attempt exactly when the new count is a multiple
      of the frequency. */
  lemma AttemptsStep(steps: int, frequency: int)
    requires 0 <= steps && frequency != 0
    ensures JavaRem(steps + 1, frequency) == 0 ==> Attempts(steps + 1, frequency) == Attempts(steps, frequency) + 1
    ensures JavaRem(steps + 1, frequency) != 0 ==> Attempts(steps + 1, frequency) == Attempts(steps, frequency)
  {
    var n := Abs(frequency);
    var q := steps / n;
    var m := steps % n;
    if m + 1 == n {
      DivModUnique(steps + 1, n, q + 1, 0);
    } else {
      DivModUnique(steps + 1, n, q, m + 1);
    }
  }

  /** A count of accepted moves over a positive, no smaller count of tries
      is a rate between 0 and 1. */
  lemma RateInUnit(accepted: int, tries: int)
    requires 0 <= accepted <= tries && 0 < tries
    ensures 0.0 <= accepted as real / tries as real <= 1.0
  {
    assert accepted as real / tries as real * tries as real == accepted as real;
  }

  /** A Java double that may be the result of dividing by zero. */
  datatype JavaDouble = Finite(value: real) | PositiveInfinity | NaN

  class Protonate {
    var stepCount: int
    const mcStepFrequency: int
    var numMovesAccepted: int
    const pH: real
    const systemReferenceEnergy: real
    const titratableResidues: seq<string>
    /** The residues switchProtonationState was called on, in call order;
        the method itself does nothing. */
    ghost var switchCalls: seq<int>

    /** Accepted moves never outnumber attempted ones. */
    ghost predicate Valid()
      reads this
    {
      0 <= stepCount && 0 <= numMovesAccepted &&
      (mcStepFrequency != 0 ==> numMovesAccepted <= Attempts(stepCount, mcStepFrequency))
    }

    /** The constructor with the residue list allocated: no steps, no
        accepted moves, and the titratable residues of the molecule in
        chain order. */
    constructor (residueNames: seq<string>, mcStepFrequency: int, pH: real, systemReferenceEnergy: real)
      ensures Valid() && stepCount == 0 && numMovesAccepted == 0 && switchCalls == []
      ensures this.mcStepFrequency == mcStepFrequency && this.pH == pH && this.systemReferenceEnergy == systemReferenceEnergy
      ensures titratableResidues == TitratableOf(residueNames)
    {
      stepCount := 0;
      numMovesAccepted := 0;
      this.mcStepFrequency := mcStepFrequency;
      this.pH := pH;
      this.systemReferenceEnergy := systemReferenceEnergy;
      switchCalls := [];
      var found: seq<string> := [];
      var j := 0;
      while j < |residueNames|
        invariant 0 <= j <= |residueNames|
        invariant found == TitratableOf(residueNames[..j])
      {
        assert residueNames[..j + 1][..j] == residueNames[..j];
        if IsTitratable(residueNames[j]) {
          found := found + [residueNames[j]];
        }
        j := j + 1;
      }
      assert residueNames[..j] == residueNames;
      titratableResidues := found;
    }

    /** mcUpdate: every call is a step; only every mcStepFrequency-th step
        switches a residue (chosen by `choice`, the random draw), keeps the
        switch when the move is accepted and undoes it otherwise. A zero
        frequency, an empty residue list and a name valueOf refuses throw. */
    method McUpdate(choice: int, temperature: real, totalEnergy: real, metropolisPasses: bool) returns (r: Result<bool>)
      requires Valid()
      requires |titratableResidues| > 0 ==> 0 <= choice < |titratableResidues|
      modifies this`stepCount, this`switchCalls, this`numMovesAccepted
      ensures Valid() && stepCount == old(stepCount) + 1
      ensures mcStepFrequency == 0 ==> r.Err?
      ensures mcStepFrequency != 0 && JavaRem(stepCount, mcStepFrequency) != 0 ==> r == Ok(false) && switchCalls == old(switchCalls)
      ensures mcStepFrequency != 0 && JavaRem(stepCount, mcStepFrequency) == 0 && |titratableResidues| == 0 ==> r.Err?
      ensures mcStepFrequency != 0 && JavaRem(stepCount, mcStepFrequency) == 0 && |titratableResidues| > 0 ==>
        match ValueOf(titratableResidues[choice])
        case None => r.Err? && switchCalls == old(switchCalls) + [choice]
        case Some(t) =>
          var dG := DeltaGMC(BOLTZMANN * temperature, pH, PKa(t), totalEnergy - systemReferenceEnergy, RefEnergy(t));
          r == Ok(Accepts(dG, metropolisPasses)) &&
          switchCalls == old(switchCalls) + (if r.value then [choice] else [choice, choice])
      ensures numMovesAccepted == old(numMovesAccepted) + (if r == Ok(true) then 1 else 0)
    {
      stepCount := stepCount + 1;
      if mcStepFrequency == 0 {
        return Err("ArithmeticException: / by zero");
      }
      AttemptsStep(stepCount - 1, mcStepFrequency);
      if JavaRem(stepCount, mcStepFrequency) != 0 {
        return Ok(false);
      }
      if |titratableResidues| == 0 {
        return Err("IllegalArgumentException: bound must be positive");
      }
      switchCalls := switchCalls + [choice];
      var name := titratableResidues[choice];
      var t := ValueOf(name);
      if t.None? {
        return Err("IllegalArgumentException: No enum constant " + name);
      }
      var kT := BOLTZMANN * temperature;
      var dGElec := totalEnergy - systemReferenceEnergy;
      var dGMC := kT * (pH - PKa(t.value)) * LN10 + dGElec - RefEnergy(t.value);
      assert dGMC == DeltaGMC(kT, pH, PKa(t.value), dGElec, RefEnergy(t.value));
      if dGMC < 0.0 {
        numMovesAccepted := numMovesAccepted + 1;
        return Ok(true);
      }
      if metropolisPasses {
        numMovesAccepted := numMovesAccepted + 1;
        return Ok(true);
      }
      switchCalls := switchCalls + [choice];
      return Ok(false);
    }

    /** getAcceptanceRate: accepted moves over stepCount / mcStepFrequency
        in integer division, as a double; no attempts yet divides by zero. */
    function GetAcceptanceRate(): (r: Result<JavaDouble>)
      requires Valid()
      reads this
      ensures mcStepFrequency == 0 <==> r.Err?
      ensures mcStepFrequency > 0 && Attempts(stepCount, mcStepFrequency) > 0 ==>
        r.Ok? && r.value.Finite? && 0.0 <= r.value.value <= 1.0 &&
        r.value.value == numMovesAccepted as real / Attempts(stepCount, mcStepFrequency) as real
      ensures mcStepFrequency != 0 && Attempts(stepCount, mcStepFrequency) == 0 ==>
        r == Ok(if numMovesAccepted == 0 then NaN else PositiveInfinity)
    {
      if mcStepFrequency == 0 then Err("ArithmeticException: / by zero")
      else
        var numTries := JavaDiv(stepCount, mcStepFrequency);
        assert numTries == (if mcStepFrequency > 0 then 1 else -1) * Attempts(stepCount, mcStepFrequency);
        if numTries == 0 then
          Ok(if numMovesAccepted == 0 then NaN else PositiveInfinity)
        else
          assert mcStepFrequency > 0 ==> 0.0 <= numMovesAccepted as real / numTries as real <= 1.0 by {
            if mcStepFrequency > 0 {
              RateInUnit(numMovesAccepted, numTries);
            }
          }
          Ok(Finite(numMovesAccepted as real / numTries as real))
    }
  }

  /** A rejected move calls switchProtonationState twice on the same
      residue, so the residue switches an even number of times: no residue
      ends up switched. */
  lemma RejectionUndoes(log: seq<int>, choice: int, k: int)
    ensures multiset(log + [choice, choice])[k] % 2 == multiset(log)[k] % 2
  {
    assert multiset(log + [choice, choice]) == multiset(log) + multiset{choice, choice};
  }
}
