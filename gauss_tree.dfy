// GaussianOverlapTree: the flat list of overlaps that GaussVol grows
// depth first from the atoms, and the recursive walks over it.
module GaussTree {
  import opened GaussOverlap
  import opened GaussPaths
  import opened GaussRescan
  import opened GaussVolume

  class GaussianOverlapTree {
    const nAtoms: int
    /** ogaussAlpha of the enclosing GaussVol. */
    const merge: Merger
    /** The root in slot 0, the atoms in slots 1..nAtoms, then the overlaps
        of higher order. */
    var overlaps: seq<Overlap>

    ghost predicate Valid()
      reads this
    {
      Linked(overlaps, nAtoms)
    }

    constructor (nAtoms: int, merge: Merger)
      ensures this.nAtoms == nAtoms && this.merge == merge && overlaps == []
    {
      this.nAtoms := nAtoms;
      this.merge := merge;
      overlaps := [];
    }

    /** initOverlapTree: a fresh list holding the root and one node per atom. */
    method InitOverlapTree(pos: seq<Vec3>, radii: seq<real>, volumes: seq<real>, gammas: seq<real>, hydrogen: seq<bool>)
      requires AtomInputs(nAtoms, pos, radii, volumes, gammas, hydrogen)
      modifies this
      ensures overlaps == InitialTree(nAtoms, pos, radii, volumes, gammas, hydrogen)
      ensures Valid()
    {
      overlaps := [RootNode(nAtoms)];
      for iat := 0 to nAtoms
        invariant |overlaps| == iat + 1 && overlaps[0] == RootNode(nAtoms)
        invariant forall k :: 1 <= k <= iat ==>
          overlaps[k] == AtomNode(k - 1, pos[k - 1], radii[k - 1], volumes[k - 1], gammas[k - 1], hydrogen[k - 1])
      {
        overlaps := overlaps + [AtomNode(iat, pos[iat], radii[iat], volumes[iat], gammas[iat], hydrogen[iat])];
      }
      InitialTreeLinked(nAtoms, pos, radii, volumes, gammas, hydrogen);
    }

    /** addChildren: registers the children on the parent and appends them. */
    method AddChildren(parent: int, children: seq<Overlap>) returns (start: int)
      requires 0 <= parent < |overlaps|
      modifies this
      ensures start == old(|overlaps|)
      ensures overlaps == Adopted(old(overlaps), parent, children)
    {
      start := |overlaps|;
      var root := overlaps[parent];
      overlaps := overlaps[parent := root.(childrenStartindex := start, childrenCount := |children|)];
      for ip := 0 to |children|
        invariant |overlaps| == start + ip
        invariant overlaps[..start] == old(overlaps)[parent := root.(childrenStartindex := start, childrenCount := |children|)]
        invariant forall i :: 0 <= i < ip ==> overlaps[start + i] == Filed(children[i], root.level + 1, parent)
      {
        overlaps := overlaps + [Filed(children[ip], root.level + 1, parent)];
      }
      var a := Adopted(old(overlaps), parent, children);
      forall k | 0 <= k < |a|
        ensures overlaps[k] == a[k]
      {
        if k < start {
          assert overlaps[k] == overlaps[..start][k];
        } else {
          assert overlaps[start + (k - start)] == Filed(children[k - start], root.level + 1, parent);
        }
      }
    }

    /** computeChildren: the status and the overlaps of node r with the atoms
        of its younger siblings, as the arena invariant dictates. */
    method ComputeChildren(r: int) returns (status: int, children: seq<Overlap>)
      requires Valid() && 0 <= r < |overlaps|
      ensures ChildScan(status, children) == ChildrenOf(overlaps, nAtoms, r, merge)
    {
      children := [];
      var root := overlaps[r];
      var parentIndex := root.parentIndex;
      if parentIndex < 0 {
        return 1, children;
      }
      if root.level >= MAX_ORDER {
        return 1, children;
      }
      assert r >= 1 && NodeLinked(overlaps, nAtoms, r);
      var parent := overlaps[parentIndex];
      var siblingStart := parent.childrenStartindex;
      var siblingCount := parent.childrenCount;
      if siblingStart < 0 || siblingCount < 0 {
        return -1, children;
      }
      if OutsideSiblings(r, siblingStart, siblingCount) {
        return -1, children;
      }
      SiblingsNamed(overlaps, nAtoms, r);
      var slotj := r + 1;
      while slotj < siblingStart + siblingCount
        invariant r + 1 <= slotj <= siblingStart + siblingCount
        invariant children == Kept(overlaps, r, r + 1, slotj, merge)
      {
        var atom2 := overlaps[slotj].atom;
        var g1 := root.g;
        var g2 := overlaps[atom2 + 1].g;
        var m := merge(g1, g2);
        var ov := Overlap(0, m.g12, m.volume, m.dVdV, Scale(Diff(g2.c, g1.c), -m.dVdr),
                          root.gamma1i + overlaps[atom2 + 1].gamma1i, 0.0, m.sfp, atom2, 0, 0, 0);
        assert ov == Candidate(overlaps, r, slotj, merge);
        if m.volume > MIN_GVOL {
          children := children + [ov];
        }
        slotj := slotj + 1;
      }
      return 1, children;
    }

    /** computeAndAddChildrenR: settles node root and, depth first, every
        node it adds; nothing before it changes except its registration. */
    method ComputeAndAddChildrenR(root: int)
      requires Valid() && 1 <= root < |overlaps|
      requires overlaps[root].childrenStartindex == -1 && overlaps[root].childrenCount == -1
      modifies this
      ensures Valid() && Extends(old(overlaps), overlaps)
      ensures forall k :: 0 <= k < old(|overlaps|) && k != root ==> overlaps[k] == old(overlaps)[k]
      ensures Settled(overlaps, nAtoms, root, merge)
      ensures forall k :: old(|overlaps|) <= k < |overlaps| ==> Settled(overlaps, nAtoms, k, merge)
      decreases MAX_ORDER - overlaps[root].level
    {
      ghost var ov0 := overlaps;
      assert NodeLinked(ov0, nAtoms, root);
      var status, children := ComputeChildren(root);
      if |children| > 0 {
        AdoptedSettles(ov0, nAtoms, root, children, merge);
        var start := AddChildren(root, children);
        ghost var ov1 := overlaps;
        var ichild := start;
        while ichild < start + |children|
          invariant Growing(ov1, overlaps, nAtoms, start, ichild, start + |children|, merge)
          decreases start + |children| - ichild
        {
          ghost var ov2 := overlaps;
          assert ov2[ichild].level == ov1[ichild].level == ov0[root].level + 1;
          ComputeAndAddChildrenR(ichild);
          GrowingStep(ov1, ov2, overlaps, nAtoms, start, ichild, start + |children|, merge);
          ichild := ichild + 1;
        }
        ExtendsTrans(ov0, ov1, overlaps);
        assert NodeLinked(ov1, nAtoms, root);
        SettledStable(ov1, overlaps, nAtoms, root, merge);
      }
    }

    /** computeOverlapTreeR: the atoms' tree, every node below the root
        settled. */
    method ComputeOverlapTreeR(pos: seq<Vec3>, radii: seq<real>, volumes: seq<real>, gammas: seq<real>, hydrogen: seq<bool>)
      requires AtomInputs(nAtoms, pos, radii, volumes, gammas, hydrogen)
      modifies this
      ensures Complete(overlaps, nAtoms, merge)
      ensures Extends(InitialTree(nAtoms, pos, radii, volumes, gammas, hydrogen), overlaps)
      ensures overlaps[0] == RootNode(nAtoms)
    {
      InitOverlapTree(pos, radii, volumes, gammas, hydrogen);
      ghost var ov0 := overlaps;
      var slot := 1;
      while slot <= nAtoms
        invariant Growing(ov0, overlaps, nAtoms, 1, slot, nAtoms + 1, merge)
      {
        ghost var ov2 := overlaps;
        ComputeAndAddChildrenR(slot);
        GrowingStep(ov0, ov2, overlaps, nAtoms, 1, slot, nAtoms + 1, merge);
        slot := slot + 1;
      }
    }

    /** nchildrenUnderSlotR: the number of overlaps below slot. */
    method NChildrenUnderSlotR(slot: int) returns (n: int)
      requires Valid() && 0 <= slot < |overlaps|
      ensures n == CountBelow(overlaps, slot)
      decreases |overlaps| - slot
    {
      n := 0;
      var o := overlaps[slot];
      if o.childrenCount > 0 {
        n := n + o.childrenCount;
        assert InRange(o, o.childrenStartindex) && InRange(o, o.childrenStartindex + o.childrenCount - 1);
        for i := 0 to o.childrenCount
          invariant n == o.childrenCount + CountRange(overlaps, o.childrenStartindex, o.childrenStartindex + i)
        {
          var m := NChildrenUnderSlotR(o.childrenStartindex + i);
          n := n + m;
        }
      }
    }

    /** rescanR (kind Volumes) and rescanGammaR (kind Gammas): refreshes
        slot and then, child by child, its subtree. ov0 is the list the
        whole rescan started from and D the slots already rescanned. */
    method RescanR(slot: int, kind: Rescan, ghost ov0: seq<Overlap>, ghost D: set<int>)
      requires Linked(ov0, nAtoms) && Agrees(overlaps, ov0, nAtoms, kind, merge, D) && 0 <= slot < |ov0|
      requires forall a :: IsAnc(ov0, a, slot) ==> a in D
      requires Subtree(ov0, slot) !! D
      modifies this
      ensures Agrees(overlaps, ov0, nAtoms, kind, merge, D + Subtree(ov0, slot))
      decreases |ov0| - slot
    {
      AgreesLinked(overlaps, ov0, nAtoms, kind, merge, D);
      assert slot in Subtree(ov0, slot);
      ghost var cur := overlaps;
      var ov := overlaps[slot];
      var parentIndex := ov.parentIndex;
      if parentIndex > 0 {
        RefreshIsTarget(overlaps, ov0, nAtoms, kind, merge, D, slot);
        var parent := overlaps[parentIndex];
        overlaps := overlaps[slot := Refresh(ov, parent, overlaps[ov.atom + 1], kind, merge)];
      }
      RescanStarts(cur, overlaps, ov0, nAtoms, kind, merge, D, slot);
      assert ShapeOf(ov) == ShapeOf(ov0[slot]);
      ghost var lo := ov.childrenStartindex;
      var slotChild := ov.childrenStartindex;
      while slotChild < ov.childrenStartindex + ov.childrenCount
        invariant lo <= slotChild && (ov.childrenCount <= 0 || slotChild <= lo + ov.childrenCount)
        invariant ov.childrenCount <= 0 ==> slotChild == lo
        invariant Agrees(overlaps, ov0, nAtoms, kind, merge, D + {slot} + Forest(ov0, lo, slotChild))
        decreases ov.childrenStartindex + ov.childrenCount - slotChild
      {
        assert InRange(ov0[slot], slotChild);
        ChildReady(ov0, nAtoms, D, slot, slotChild);
        RescanR(slotChild, kind, ov0, D + {slot} + Forest(ov0, lo, slotChild));
        slotChild := slotChild + 1;
      }
      RescanEnds(overlaps, ov0, nAtoms, kind, merge, D, slot, slotChild);
    }

    /** rescanTreeV: resets the root and the atoms from the inputs, then
        rescans the whole tree; the shape never changes. */
    method RescanTreeV(pos: seq<Vec3>, radii: seq<real>, volumes: seq<real>, gammas: seq<real>, hydrogen: seq<bool>)
      requires Valid() && AtomInputs(nAtoms, pos, radii, volumes, gammas, hydrogen)
      modifies this
      ensures Valid() && SameShape(old(overlaps), overlaps)
      ensures var ov0 := ResetV(old(overlaps), nAtoms, pos, radii, volumes, gammas, hydrogen);
        Linked(ov0, nAtoms) && forall k :: 0 <= k < |overlaps| ==> overlaps[k] == Target(ov0, nAtoms, Volumes, merge, k)
    {
      ghost var ov := overlaps;
      ResetVLinked(ov, nAtoms, pos, radii, volumes, gammas, hydrogen);
      ghost var ov0 := ResetV(ov, nAtoms, pos, radii, volumes, gammas, hydrogen);
      ResetTreeV(pos, radii, volumes, gammas, hydrogen);
      RescanR(0, Volumes, ov0, {});
      RescanDone(overlaps, ov0, nAtoms, Volumes, merge);
      SameShapeTrans(ov, ov0, overlaps);
    }

    /** The first half of rescanTreeV: the root and the atoms reset. */
    method ResetTreeV(pos: seq<Vec3>, radii: seq<real>, volumes: seq<real>, gammas: seq<real>, hydrogen: seq<bool>)
      requires nAtoms + 1 <= |overlaps| && AtomInputs(nAtoms, pos, radii, volumes, gammas, hydrogen)
      modifies this
      ensures var ov0 := ResetV(old(overlaps), nAtoms, pos, radii, volumes, gammas, hydrogen);
        |overlaps| == |ov0| && forall k :: 0 <= k < |ov0| ==> overlaps[k] == ov0[k]
    {
      ghost var ov := overlaps;
      var root := overlaps[0];
      overlaps := overlaps[0 := RootReset(root)];
      for iat := 0 to nAtoms
        invariant |overlaps| == |ov| && overlaps[0] == RootReset(ov[0])
        invariant forall k :: 1 <= k <= iat ==>
          overlaps[k] == AtomReset(ov[k], pos[k - 1], radii[k - 1], volumes[k - 1], gammas[k - 1], hydrogen[k - 1])
        invariant forall k :: iat < k < |ov| ==> overlaps[k] == ov[k]
      {
        overlaps := overlaps[iat + 1 := AtomReset(overlaps[iat + 1], pos[iat], radii[iat], volumes[iat], gammas[iat], hydrogen[iat])];
      }
      ghost var ov0 := ResetV(ov, nAtoms, pos, radii, volumes, gammas, hydrogen);
      forall k | nAtoms < k < |ov|
        ensures overlaps[k] == ov0[k]
      {
        assert ov0[k] == ov0[nAtoms + 1..][k - nAtoms - 1];
      }
    }

    /** rescanTreeG: resets the gammas of the root and the atoms, then
        rescans the whole tree for gammas only. */
    method RescanTreeG(gammas: seq<real>)
      requires Valid() && nAtoms <= |gammas|
      modifies this
      ensures Valid() && SameShape(old(overlaps), overlaps)
      ensures var ov0 := ResetG(old(overlaps), nAtoms, gammas);
        Linked(ov0, nAtoms) && forall k :: 0 <= k < |overlaps| ==> overlaps[k] == Target(ov0, nAtoms, Gammas, merge, k)
    {
      ghost var ov := overlaps;
      ResetGLinked(ov, nAtoms, gammas);
      ghost var ov0 := ResetG(ov, nAtoms, gammas);
      ResetTreeG(gammas);
      RescanR(0, Gammas, ov0, {});
      RescanDone(overlaps, ov0, nAtoms, Gammas, merge);
      SameShapeTrans(ov, ov0, overlaps);
    }

    /** The first half of rescanTreeG: the gammas of the root and the atoms
        reset. */
    method ResetTreeG(gammas: seq<real>)
      requires nAtoms + 1 <= |overlaps| && 0 <= nAtoms <= |gammas|
      modifies this
      ensures var ov0 := ResetG(old(overlaps), nAtoms, gammas);
        |overlaps| == |ov0| && forall k :: 0 <= k < |ov0| ==> overlaps[k] == ov0[k]
    {
      ghost var ov := overlaps;
      var root := overlaps[0];
      overlaps := overlaps[0 := root.(gamma1i := 0.0)];
      for iat := 0 to nAtoms
        invariant |overlaps| == |ov| && overlaps[0] == ov[0].(gamma1i := 0.0)
        invariant forall k :: 1 <= k <= iat ==> overlaps[k] == ov[k].(gamma1i := gammas[k - 1])
        invariant forall k :: iat < k < |ov| ==> overlaps[k] == ov[k]
      {
        overlaps := overlaps[iat + 1 := overlaps[iat + 1].(gamma1i := gammas[iat])];
      }
      ghost var ov0 := ResetG(ov, nAtoms, gammas);
      forall k | nAtoms < k < |ov|
        ensures overlaps[k] == ov0[k]
      {
        assert ov0[k] == ov0[nAtoms + 1..][k - nAtoms - 1];
      }
    }

    /** computeVolumeUnderSlot2R: the sums slot hands its parent, and the
        subtree's credits added to the per-atom free volumes, self volumes
        and volume derivatives of the energy. */
    method ComputeVolumeUnderSlot2R(slot: int, dv: array<real>, freeVolume: array<real>, selfVolume: array<real>) returns (s: Sums)
      requires Valid() && 0 <= slot < |overlaps|
      requires dv.Length == nAtoms && freeVolume.Length == nAtoms && selfVolume.Length == nAtoms
      requires dv != freeVolume && dv != selfVolume && freeVolume != selfVolume
      modifies dv, freeVolume, selfVolume
      ensures s == Passed(overlaps[slot], Total(overlaps, slot))
      ensures forall k :: 0 <= k < nAtoms ==> freeVolume[k] == old(freeVolume[k]) + CreditAt(overlaps, slot, FreeVolume, k)
      ensures forall k :: 0 <= k < nAtoms ==> selfVolume[k] == old(selfVolume[k]) + CreditAt(overlaps, slot, SelfVolume, k)
      ensures forall k :: 0 <= k < nAtoms ==> dv[k] == old(dv[k]) + CreditAt(overlaps, slot, VolumeGradient, k)
      decreases |overlaps| - slot, 1
    {
      var ov := overlaps[slot];
      assert slot > 0 ==> NodeLinked(overlaps, nAtoms, slot);
      var t := Own(ov);
      var start := ov.childrenStartindex;
      var count := ov.childrenCount;
      if start >= 0 && count > 0 {
        assert InRange(ov, start) && InRange(ov, start + count - 1);
        var c := ChildrenUnderSlot2R(start, start + count, dv, freeVolume, selfVolume);
        t := Add(t, c);
      }
      assert t == Total(overlaps, slot);
      if ov.level > 0 {
        var atom := ov.atom;
        freeVolume[atom] := freeVolume[atom] + t.psi;
        selfVolume[atom] := selfVolume[atom] + t.psip;
        dv[atom] := dv[atom] + Amount(ov, t, VolumeGradient);
      }
      s := Passed(ov, t);
    }

    /** The loop of computeVolumeUnderSlot2R over the children lo .. hi-1 of
        a slot: their sums, added in slot order, and their credits. */
    method ChildrenUnderSlot2R(lo: int, hi: int, dv: array<real>, freeVolume: array<real>, selfVolume: array<real>)
      returns (c: Sums)
      requires Valid() && 0 < lo <= hi <= |overlaps|
      requires dv.Length == nAtoms && freeVolume.Length == nAtoms && selfVolume.Length == nAtoms
      requires dv != freeVolume && dv != selfVolume && freeVolume != selfVolume
      modifies dv, freeVolume, selfVolume
      ensures c == ChildSums(overlaps, lo, hi)
      ensures forall k :: 0 <= k < nAtoms ==> freeVolume[k] == old(freeVolume[k]) + CreditRangeAt(overlaps, lo, hi, FreeVolume, k)
      ensures forall k :: 0 <= k < nAtoms ==> selfVolume[k] == old(selfVolume[k]) + CreditRangeAt(overlaps, lo, hi, SelfVolume, k)
      ensures forall k :: 0 <= k < nAtoms ==> dv[k] == old(dv[k]) + CreditRangeAt(overlaps, lo, hi, VolumeGradient, k)
      decreases |overlaps| - lo + 1, 0
    {
      ghost var fv, sv, dv0 := freeVolume[..], selfVolume[..], dv[..];
      c := NO_SUMS;
      var sloti := lo;
      while sloti < hi
        invariant lo <= sloti <= hi
        invariant c == ChildSums(overlaps, lo, sloti)
        invariant forall k :: 0 <= k < nAtoms ==> freeVolume[k] == fv[k] + CreditRangeAt(overlaps, lo, sloti, FreeVolume, k)
        invariant forall k :: 0 <= k < nAtoms ==> selfVolume[k] == sv[k] + CreditRangeAt(overlaps, lo, sloti, SelfVolume, k)
        invariant forall k :: 0 <= k < nAtoms ==> dv[k] == dv0[k] + CreditRangeAt(overlaps, lo, sloti, VolumeGradient, k)
        decreases hi - sloti
      {
        var r := ComputeVolumeUnderSlot2R(sloti, dv, freeVolume, selfVolume);
        c := Add(c, r);
        sloti := sloti + 1;
      }
    }

    /** computeVolume2R: the per-atom arrays cleared and refilled with the
        credits of the whole tree; the volume and the energy are the root's
        sums, and the self volumes add up to the volume. */
    method ComputeVolume2R(dv: array<real>, freeVolume: array<real>, selfVolume: array<real>) returns (volume: real, energy: real)
      requires Valid()
      requires dv.Length == nAtoms && freeVolume.Length == nAtoms && selfVolume.Length == nAtoms
      requires dv != freeVolume && dv != selfVolume && freeVolume != selfVolume
      modifies dv, freeVolume, selfVolume
      ensures volume == Total(overlaps, 0).psi && energy == Total(overlaps, 0).energy
      ensures freeVolume[..] == Credits(overlaps, 0, FreeVolume, nAtoms)
      ensures selfVolume[..] == Credits(overlaps, 0, SelfVolume, nAtoms)
      ensures dv[..] == Credits(overlaps, 0, VolumeGradient, nAtoms)
      ensures SumSeq(selfVolume[..]) == volume
    {
      forall i | 0 <= i < dv.Length {
        dv[i] := 0.0;
      }
      forall i | 0 <= i < freeVolume.Length {
        freeVolume[i] := 0.0;
      }
      forall i | 0 <= i < selfVolume.Length {
        selfVolume[i] := 0.0;
      }
      var sums := ComputeVolumeUnderSlot2R(0, dv, freeVolume, selfVolume);
      volume := sums.psi;
      energy := sums.energy;
      forall k | 0 <= k < nAtoms
        ensures freeVolume[k] == Credits(overlaps, 0, FreeVolume, nAtoms)[k]
        ensures selfVolume[k] == Credits(overlaps, 0, SelfVolume, nAtoms)[k]
        ensures dv[k] == Credits(overlaps, 0, VolumeGradient, nAtoms)[k]
      {
        CreditsAt(overlaps, nAtoms, 0, FreeVolume, k);
        CreditsAt(overlaps, nAtoms, 0, SelfVolume, k);
        CreditsAt(overlaps, nAtoms, 0, VolumeGradient, k);
      }
      assert selfVolume[..] == Credits(overlaps, 0, SelfVolume, nAtoms);
      assert freeVolume[..] == Credits(overlaps, 0, FreeVolume, nAtoms);
      assert dv[..] == Credits(overlaps, 0, VolumeGradient, nAtoms);
      SelfVolumesAddUpToVolume(overlaps, nAtoms);
    }
  }
}
