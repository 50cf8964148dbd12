// initOverlapTree, computeChildren and rescanR as written: one
// GaussianOverlap object filed in every slot of the initial tree, its
// Gaussian never allocated, the centre of every fresh overlap Gaussian never
// allocated before ogaussAlpha writes it, and the gradient array of every new
// child never allocated. Each is set against the corrected definition the
// rest of the model uses (InitialTree, Candidate, Refresh).
module GaussAsWritten {
  import opened Wrappers
  import opened GaussOverlap
  import opened GaussRescan

  /** initOverlapTree as written: the node's Gaussian g is never allocated,
      so the first atom's `overlap.g.v = vol` throws; with no atoms the root
      alone is filed. */
  function AsWrittenInitOverlapTree(n: int, pos: seq<Vec3>, radii: seq<real>, volumes: seq<real>,
                                    gammas: seq<real>, hydrogen: seq<bool>): (r: Result<seq<Overlap>>)
    requires AtomInputs(n, pos, radii, volumes, gammas, hydrogen)
    ensures r.Ok? <==> n == 0
    ensures r.Ok? ==> r.value == InitialTree(n, pos, radii, volumes, gammas, hydrogen)
  {
    if n > 0 then Err("NullPointerException")
    else
      assert InitialTree(n, pos, radii, volumes, gammas, hydrogen) == [RootNode(0)];
      Ok([RootNode(0)])
  }

  /** A single atom already makes the as-written initOverlapTree throw, where
      the corrected tree is built and linked. */
  lemma AsWrittenInitFailsOnOneAtom(pos: Vec3, radius: real, volume: real, gamma: real, hydrogen: bool)
    requires radius != 0.0
    ensures AsWrittenInitOverlapTree(1, [pos], [radius], [volume], [gamma], [hydrogen]).Err?
    ensures Linked(InitialTree(1, [pos], [radius], [volume], [gamma], [hydrogen]), 1)
  {
    InitialTreeLinked(1, [pos], [radius], [volume], [gamma], [hydrogen]);
  }

  /** initOverlapTree with g allocated but the node object still shared: the
      list holds n+1 references to one node, which ends as the last atom's
      slot. */
  function AsWrittenSharedTree(n: int, pos: seq<Vec3>, radii: seq<real>, volumes: seq<real>,
                               gammas: seq<real>, hydrogen: seq<bool>): (ov: seq<Overlap>)
    requires AtomInputs(n, pos, radii, volumes, gammas, hydrogen) && n >= 1
    ensures |ov| == n + 1
    ensures forall k :: 0 <= k <= n ==>
      ov[k] == AtomNode(n - 1, pos[n - 1], radii[n - 1], volumes[n - 1], gammas[n - 1], hydrogen[n - 1])
  {
    var last := AtomNode(n - 1, pos[n - 1], radii[n - 1], volumes[n - 1], gammas[n - 1], hydrogen[n - 1]);
    seq(n + 1, k => last)
  }

  /** With any atom at all, the shared node overwrites the root and every
      other atom: the list is not a tree, while the corrected one is. */
  lemma AsWrittenSharedTreeLosesRoot(n: int, pos: seq<Vec3>, radii: seq<real>, volumes: seq<real>,
                                     gammas: seq<real>, hydrogen: seq<bool>)
    requires AtomInputs(n, pos, radii, volumes, gammas, hydrogen) && n >= 1
    ensures !Linked(AsWrittenSharedTree(n, pos, radii, volumes, gammas, hydrogen), n)
    ensures Linked(InitialTree(n, pos, radii, volumes, gammas, hydrogen), n)
  {
    var ov := AsWrittenSharedTree(n, pos, radii, volumes, gammas, hydrogen);
    assert ShapeOf(ov[0]) == Shape(1, n - 1, 0, -1, -1);
    InitialTreeLinked(n, pos, radii, volumes, gammas, hydrogen);
  }

  /** A GaussianVca as `new GaussianVca()` leaves it: v and a are 0 and the
      centre array c is null (None). */
  datatype Vca = Vca(v: real, a: real, c: Option<Vec3>)

  const NEW_VCA: Vca := Vca(0.0, 0.0, None)

  /** ogaussAlpha as written into the output Gaussian g12: the overlap centre
      is written into g12.c by `sum(c1a, c2a, g12.c)`, so a null centre
      throws before any value is returned; otherwise the result is the
      merge of the two Gaussians. */
  function AsWrittenOgaussAlpha(g1: Gaussian, g2: Gaussian, g12: Vca, merge: Merger): Result<Merged>
  {
    if g12.c.None? then Err("NullPointerException") else Ok(merge(g1, g2))
  }

  /** One younger sibling j of node r in computeChildren as written, merged
      into the output Gaussian g12: ogaussAlpha first; then, for an overlap
      above MIN_GVOL, a new child whose dv1 is never allocated and which
      `diff(g2.c, g1.c, ov.dv1)` writes into; other siblings give no child. */
  function AsWrittenChildWith(ov: seq<Overlap>, r: int, j: int, merge: Merger, g12: Vca): (res: Result<Option<Overlap>>)
    requires 0 <= r < |ov| && 0 <= j < |ov| && 0 <= ov[j].atom + 1 < |ov|
    ensures res.Ok? ==> res.value.None?
  {
    var m := AsWrittenOgaussAlpha(ov[r].g, ov[ov[j].atom + 1].g, g12, merge);
    if m.Err? then Err(m.error)
    else if m.value.volume > MIN_GVOL then Err("NullPointerException")
    else Ok(None)
  }

  /** computeChildren as written: g12 is a fresh `new GaussianVca()`. */
  function AsWrittenChild(ov: seq<Overlap>, r: int, j: int, merge: Merger): Result<Option<Overlap>>
    requires 0 <= r < |ov| && 0 <= j < |ov| && 0 <= ov[j].atom + 1 < |ov|
  {
    AsWrittenChildWith(ov, r, j, merge, NEW_VCA)
  }

  /** As written, every younger sibling makes computeChildren throw inside
      ogaussAlpha, whatever the overlap volume; no child is ever filed. */
  lemma AsWrittenChildAlwaysFails(ov: seq<Overlap>, r: int, j: int, merge: Merger)
    requires 0 <= r < |ov| && 0 <= j < |ov| && 0 <= ov[j].atom + 1 < |ov|
    ensures AsWrittenChild(ov, r, j, merge).Err?
  {
  }

  /** The second defect behind the first: with g12's centre allocated, the
      scan still throws, now on dv1, on exactly the siblings whose candidate
      the corrected scan keeps. */
  lemma AsWrittenDv1FailsWhereKept(ov: seq<Overlap>, r: int, j: int, merge: Merger, c: Vec3)
    requires 0 <= r < |ov| && 0 <= j < |ov| && 0 <= ov[j].atom + 1 < |ov|
    ensures AsWrittenChildWith(ov, r, j, merge, Vca(0.0, 0.0, Some(c))).Err? <==> Candidate(ov, r, j, merge).volume > MIN_GVOL
  {
  }

  /** rescanR's refresh of one slot as written: a node below an atom
      (parentIndex > 0) is merged into a fresh `new GaussianVca()`, so
      ogaussAlpha throws; the root and the atom slots are left as they are. */
  function AsWrittenRescanNode(ov: seq<Overlap>, slot: int, merge: Merger): Result<Overlap>
    requires 0 <= slot < |ov| && 0 <= ov[slot].parentIndex < |ov| && 0 <= ov[slot].atom + 1 < |ov|
  {
    var o := ov[slot];
    if o.parentIndex <= 0 then Ok(o)
    else
      var m := AsWrittenOgaussAlpha(ov[o.parentIndex].g, ov[o.atom + 1].g, NEW_VCA, merge);
      if m.Err? then Err(m.error) else Ok(Refresh(o, ov[o.parentIndex], ov[o.atom + 1], Volumes, merge))
  }

  /** As written, rescanTreeV throws on exactly the nodes below the atoms, so
      any tree holding a pairwise overlap cannot be rescanned. */
  lemma AsWrittenRescanFailsBelowAtoms(ov: seq<Overlap>, slot: int, merge: Merger)
    requires 0 <= slot < |ov| && 0 <= ov[slot].parentIndex < |ov| && 0 <= ov[slot].atom + 1 < |ov|
    ensures AsWrittenRescanNode(ov, slot, merge).Err? <==> ov[slot].parentIndex > 0
  {
  }
}
