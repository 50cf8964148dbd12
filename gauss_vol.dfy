// GaussVol: the per-molecule front end that owns the atomic parameters and
// one GaussianOverlapTree, and hands them to the tree's walks.
module GaussVolDriver {
  import opened Wrappers
  import opened GaussOverlap
  import opened GaussPaths
  import opened GaussRescan
  import opened GaussVolume
  import opened GaussTree

  /** ogaussAlpha as the tree calls it. Every Gaussian the tree merges has a
      positive exponent (KFC / r^2 for an atom, a sum of those for an
      overlap); any other pair is given an empty overlap. */
  function AlphaMerge(g1: Gaussian, g2: Gaussian, expf: real -> real, invPow15: real -> real): Merged
  {
    if g1.a > 0.0 && g2.a > 0.0 then OgaussAlpha(g1, g2, expf, invPow15)
    else Merged(Gaussian(0.0, g1.a + g2.a, g1.c), 0.0, 0.0, 0.0, 0.0)
  }

  /** gradV after computeVolume: the volume gradient of atom i divided by its
      volume, for the atoms whose volume is positive. */
  function ScaledGradient(dv: seq<real>, volumes: seq<real>): (r: seq<real>)
    requires |dv| <= |volumes|
    ensures |r| == |dv|
    ensures forall i :: 0 <= i < |dv| && volumes[i] > 0.0 ==> r[i] * volumes[i] == dv[i]
    ensures forall i :: 0 <= i < |dv| && volumes[i] <= 0.0 ==> r[i] == dv[i]
  {
    seq(|dv|, i requires 0 <= i < |dv| => if volumes[i] > 0.0 then dv[i] / volumes[i] else dv[i])
  }

  class GaussVol {
    const nAtoms: int
    var radii: seq<real>
    var volumes: seq<real>
    var gammas: seq<real>
    const ishydrogen: seq<bool>
    const tree: GaussianOverlapTree

    ghost predicate Valid()
    {
      tree.nAtoms == nAtoms
    }

    /** The two-argument constructor: radii 1, volumes and gammas 0. */
    constructor (nAtoms: nat, ishydrogen: seq<bool>, expf: real -> real, invPow15: real -> real)
      ensures Valid() && this.nAtoms == nAtoms && this.ishydrogen == ishydrogen
      ensures radii == seq(nAtoms, i => 1.0) && volumes == seq(nAtoms, i => 0.0) && gammas == seq(nAtoms, i => 0.0)
      ensures fresh(tree) && tree.overlaps == []
      ensures forall g1: Gaussian, g2: Gaussian :: g1.a > 0.0 && g2.a > 0.0 ==> tree.merge(g1, g2) == OgaussAlpha(g1, g2, expf, invPow15)
    {
      this.nAtoms := nAtoms;
      tree := new GaussianOverlapTree(nAtoms, (g1, g2) => AlphaMerge(g1, g2, expf, invPow15));
      radii := seq(nAtoms, i => 1.0);
      volumes := seq(nAtoms, i => 0.0);
      gammas := seq(nAtoms, i => 0.0);
      this.ishydrogen := ishydrogen;
    }

    /** The five-argument constructor keeps the given arrays as they are. */
    constructor WithParameters(nAtoms: int, radii: seq<real>, volumes: seq<real>, gammas: seq<real>, ishydrogen: seq<bool>,
                               expf: real -> real, invPow15: real -> real)
      ensures Valid() && this.nAtoms == nAtoms && this.ishydrogen == ishydrogen
      ensures this.radii == radii && this.volumes == volumes && this.gammas == gammas
      ensures fresh(tree) && tree.overlaps == []
      ensures forall g1: Gaussian, g2: Gaussian :: g1.a > 0.0 && g2.a > 0.0 ==> tree.merge(g1, g2) == OgaussAlpha(g1, g2, expf, invPow15)
    {
      this.nAtoms := nAtoms;
      tree := new GaussianOverlapTree(nAtoms, (g1, g2) => AlphaMerge(g1, g2, expf, invPow15));
      this.radii := radii;
      this.volumes := volumes;
      this.gammas := gammas;
      this.ishydrogen := ishydrogen;
    }

    /** setRadii: accepted only with one radius per atom; the exception
        leaves the radii as they were. */
    method SetRadii(radii: seq<real>) returns (r: Result<int>)
      modifies this
      ensures r.Ok? <==> |radii| == nAtoms
      ensures r.Ok? ==> r.value == nAtoms && this.radii == radii
      ensures r.Err? ==> this.radii == old(this.radii)
      ensures volumes == old(volumes) && gammas == old(gammas)
    {
      if nAtoms == |radii| {
        this.radii := radii;
        r := Ok(nAtoms);
      } else {
        r := Err("setRadii: number of atoms does not match");
      }
    }

    /** setVolumes: the same rule for the atomic volumes. */
    method SetVolumes(volumes: seq<real>) returns (r: Result<int>)
      modifies this
      ensures r.Ok? <==> |volumes| == nAtoms
      ensures r.Ok? ==> r.value == nAtoms && this.volumes == volumes
      ensures r.Err? ==> this.volumes == old(this.volumes)
      ensures radii == old(radii) && gammas == old(gammas)
    {
      if nAtoms == |volumes| {
        this.volumes := volumes;
        r := Ok(nAtoms);
      } else {
        r := Err("setVolumes: number of atoms does not match");
      }
    }

    /** setGammas: the same rule for the surface tensions. */
    method SetGammas(gammas: seq<real>) returns (r: Result<int>)
      modifies this
      ensures r.Ok? <==> |gammas| == nAtoms
      ensures r.Ok? ==> r.value == nAtoms && this.gammas == gammas
      ensures r.Err? ==> this.gammas == old(this.gammas)
      ensures radii == old(radii) && volumes == old(volumes)
    {
      if nAtoms == |gammas| {
        this.gammas := gammas;
        r := Ok(nAtoms);
      } else {
        r := Err("setGammas: number of atoms does not match");
      }
    }

    /** computeTree: builds the whole overlap tree from the current parameters. */
    method ComputeTree(pos: seq<Vec3>)
      requires Valid() && AtomInputs(nAtoms, pos, radii, volumes, gammas, ishydrogen)
      modifies tree
      ensures tree.Valid() && Complete(tree.overlaps, nAtoms, tree.merge)
      ensures Extends(InitialTree(nAtoms, pos, radii, volumes, gammas, ishydrogen), tree.overlaps)
    {
      tree.ComputeOverlapTreeR(pos, radii, volumes, gammas, ishydrogen);
    }

    /** computeVolume: the tree's volume pass, then each atom's volume
        gradient divided by its volume where that is positive. */
    method ComputeVolume(gradV: array<real>, freeVolume: array<real>, selfVolume: array<real>) returns (volume: real, energy: real)
      requires Valid() && tree.Valid() && nAtoms <= |volumes|
      requires gradV.Length == nAtoms && freeVolume.Length == nAtoms && selfVolume.Length == nAtoms
      requires gradV != freeVolume && gradV != selfVolume && freeVolume != selfVolume
      modifies gradV, freeVolume, selfVolume
      ensures volume == Total(tree.overlaps, 0).psi && energy == Total(tree.overlaps, 0).energy
      ensures freeVolume[..] == Credits(tree.overlaps, 0, FreeVolume, nAtoms)
      ensures selfVolume[..] == Credits(tree.overlaps, 0, SelfVolume, nAtoms)
      ensures SumSeq(selfVolume[..]) == volume
      ensures gradV[..] == ScaledGradient(Credits(tree.overlaps, 0, VolumeGradient, nAtoms), volumes)
    {
      volume, energy := tree.ComputeVolume2R(gradV, freeVolume, selfVolume);
      ghost var dv := gradV[..];
      var i := 0;
      while i < nAtoms
        invariant 0 <= i <= nAtoms
        invariant forall k :: 0 <= k < i ==> gradV[k] == ScaledGradient(dv, volumes)[k]
        invariant forall k :: i <= k < nAtoms ==> gradV[k] == dv[k]
        invariant freeVolume[..] == Credits(tree.overlaps, 0, FreeVolume, nAtoms)
        invariant selfVolume[..] == Credits(tree.overlaps, 0, SelfVolume, nAtoms)
      {
        if volumes[i] > 0.0 {
          gradV[i] := gradV[i] / volumes[i];
        }
        i := i + 1;
      }
    }

    /** rescanTreeVolumes: every node recomputed from the current parameters,
        the shape kept. */
    method RescanTreeVolumes(pos: seq<Vec3>)
      requires Valid() && tree.Valid() && AtomInputs(nAtoms, pos, radii, volumes, gammas, ishydrogen)
      modifies tree
      ensures tree.Valid() && SameShape(old(tree.overlaps), tree.overlaps)
      ensures var ov0 := ResetV(old(tree.overlaps), nAtoms, pos, radii, volumes, gammas, ishydrogen);
        Linked(ov0, nAtoms) && forall k :: 0 <= k < |tree.overlaps| ==> tree.overlaps[k] == Target(ov0, nAtoms, Volumes, tree.merge, k)
    {
      tree.RescanTreeV(pos, radii, volumes, gammas, ishydrogen);
    }

    /** rescanTreeGammas: only the gamma sums recomputed. */
    method RescanTreeGammas()
      requires Valid() && tree.Valid() && nAtoms <= |gammas|
      modifies tree
      ensures tree.Valid() && SameShape(old(tree.overlaps), tree.overlaps)
      ensures var ov0 := ResetG(old(tree.overlaps), nAtoms, gammas);
        Linked(ov0, nAtoms) && forall k :: 0 <= k < |tree.overlaps| ==> tree.overlaps[k] == Target(ov0, nAtoms, Gammas, tree.merge, k)
    {
      tree.RescanTreeG(gammas);
    }

    /** getStats: for each atom, the number of overlaps below its slot; an
        array of the wrong length is left alone. */
    method GetStats(nov: array<int>)
      requires Valid() && tree.Valid()
      modifies nov
      ensures nov.Length != nAtoms ==> nov[..] == old(nov[..])
      ensures nov.Length == nAtoms ==> forall a :: 0 <= a < nAtoms ==> nov[a] == CountBelow(tree.overlaps, a + 1)
    {
      if nov.Length != nAtoms {
        return;
      }
      var i := 0;
      while i < nAtoms
        invariant 0 <= i <= nAtoms
        invariant forall k :: 0 <= k < i ==> nov[k] == 0
      {
        nov[i] := 0;
        i := i + 1;
      }
      var atom := 0;
      while atom < nAtoms
        invariant 0 <= atom <= nAtoms
        invariant forall k :: 0 <= k < atom ==> nov[k] == CountBelow(tree.overlaps, k + 1)
      {
        nov[atom] := tree.NChildrenUnderSlotR(atom + 1);
        atom := atom + 1;
      }
    }
  }
}
