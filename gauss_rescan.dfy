// What rescanTreeV and rescanTreeG leave in the tree: the root and the atoms
// reset from the inputs, then, parent before child, every overlap of order
// two and above recomputed from its parent and its last atom.
module GaussRescan {
  import opened GaussOverlap
  import opened GaussPaths

  /** rescanR recomputes everything computeChildren derives from the parent
      and the atom; rescanGammaR only the surface tension. */
  datatype Rescan = Volumes | Gammas

  /** Node o recomputed from its parent and the slot of its last atom. */
  function Refresh(o: Overlap, parent: Overlap, atomSlot: Overlap, kind: Rescan, merge: Merger): (r: Overlap)
    ensures ShapeOf(r) == ShapeOf(o) && r.selfVolume == o.selfVolume
    ensures r.gamma1i == parent.gamma1i + atomSlot.gamma1i
    ensures kind == Gammas ==> r.(gamma1i := o.gamma1i) == o
  {
    var gamma := parent.gamma1i + atomSlot.gamma1i;
    match kind
    case Gammas => o.(gamma1i := gamma)
    case Volumes =>
      var g1 := parent.g;
      var g2 := atomSlot.g;
      var m := merge(g1, g2);
      o.(g := m.g12, volume := m.volume, dv1 := Scale(Diff(g2.c, g1.c), -m.dVdr), dvv1 := m.dVdV, sfp := m.sfp, gamma1i := gamma)
  }

  /** Slot x after the recursive rescan of a tree whose root and atoms read
      ov: nodes below the atoms are refreshed from their refreshed parent. */
  ghost function Target(ov: seq<Overlap>, n: int, kind: Rescan, merge: Merger, x: int): (r: Overlap)
    requires Linked(ov, n) && 0 <= x < |ov|
    ensures ShapeOf(r) == ShapeOf(ov[x])
    decreases x
  {
    var o := ov[x];
    if x > 0 && o.parentIndex > 0 then
      assert NodeLinked(ov, n, x);
      Refresh(o, Target(ov, n, kind, merge, o.parentIndex), ov[o.atom + 1], kind, merge)
    else o
  }

  /** The list after the recursive rescan over slots D: those slots hold
      their target, the others are as in ov. */
  ghost predicate Agrees(cur: seq<Overlap>, ov: seq<Overlap>, n: int, kind: Rescan, merge: Merger, D: set<int>)
    requires Linked(ov, n)
  {
    |cur| == |ov| && forall k :: 0 <= k < |cur| ==> cur[k] == if k in D then Target(ov, n, kind, merge, k) else ov[k]
  }

  /** A rescan keeps the tree's shape, so it keeps the arena invariant. */
  lemma AgreesLinked(cur: seq<Overlap>, ov: seq<Overlap>, n: int, kind: Rescan, merge: Merger, D: set<int>)
    requires Linked(ov, n) && Agrees(cur, ov, n, kind, merge, D)
    ensures SameShape(ov, cur) && Linked(cur, n)
  {
    forall k | 0 <= k < |cur|
      ensures ShapeOf(ov[k]) == ShapeOf(cur[k])
    {
      if k in D {
        assert cur[k] == Target(ov, n, kind, merge, k);
      }
    }
    SameShapeLinked(ov, cur, n);
  }

  // ------------------------------------------------------------ the resets

  /** The root as rescanTreeV resets it. */
  function RootReset(o: Overlap): Overlap
  {
    o.(level := 0, volume := 0.0, dv1 := ORIGIN, dvv1 := 0.0, selfVolume := 0.0, sfp := 1.0, gamma1i := 0.0)
  }

  /** An atom's slot as rescanTreeV resets it from the inputs. */
  function AtomReset(o: Overlap, pos: Vec3, radius: real, volume: real, gamma: real, hydrogen: bool): (r: Overlap)
    requires radius != 0.0
    ensures r.level == 1 && r.g == AtomGaussian(pos, radius, volume, hydrogen) && r.gamma1i == gamma
  {
    var g := AtomGaussian(pos, radius, volume, hydrogen);
    o.(level := 1, g := g, volume := g.v, dv1 := ORIGIN, dvv1 := 1.0, selfVolume := 0.0, sfp := 1.0, gamma1i := gamma)
  }

  /** rescanTreeV's loop over the root and the atoms. */
  function ResetV(ov: seq<Overlap>, n: int, pos: seq<Vec3>, radii: seq<real>, volumes: seq<real>, gammas: seq<real>, hydrogen: seq<bool>): (r: seq<Overlap>)
    requires AtomInputs(n, pos, radii, volumes, gammas, hydrogen) && n + 1 <= |ov|
    ensures |r| == |ov| && r[0] == RootReset(ov[0]) && r[n + 1..] == ov[n + 1..]
    ensures forall k :: 1 <= k <= n ==> r[k] == AtomReset(ov[k], pos[k - 1], radii[k - 1], volumes[k - 1], gammas[k - 1], hydrogen[k - 1])
  {
    [RootReset(ov[0])] +
    seq(n, i requires 0 <= i < n => AtomReset(ov[i + 1], pos[i], radii[i], volumes[i], gammas[i], hydrogen[i])) +
    ov[n + 1..]
  }

  /** rescanTreeG's loop over the root and the atoms. */
  function ResetG(ov: seq<Overlap>, n: int, gammas: seq<real>): (r: seq<Overlap>)
    requires 0 <= n <= |gammas| && n + 1 <= |ov|
    ensures |r| == |ov| && r[0] == ov[0].(gamma1i := 0.0) && r[n + 1..] == ov[n + 1..]
    ensures forall k :: 1 <= k <= n ==> r[k] == ov[k].(gamma1i := gammas[k - 1])
  {
    [ov[0].(gamma1i := 0.0)] + seq(n, i requires 0 <= i < n => ov[i + 1].(gamma1i := gammas[i])) + ov[n + 1..]
  }

  /** On a linked tree neither reset touches the shape. */
  lemma ResetVLinked(ov: seq<Overlap>, n: int, pos: seq<Vec3>, radii: seq<real>, volumes: seq<real>, gammas: seq<real>, hydrogen: seq<bool>)
    requires Linked(ov, n) && AtomInputs(n, pos, radii, volumes, gammas, hydrogen)
    ensures SameShape(ov, ResetV(ov, n, pos, radii, volumes, gammas, hydrogen))
    ensures Linked(ResetV(ov, n, pos, radii, volumes, gammas, hydrogen), n)
  {
    var r := ResetV(ov, n, pos, radii, volumes, gammas, hydrogen);
    forall k | 0 <= k < |ov|
      ensures ShapeOf(ov[k]) == ShapeOf(r[k])
    {
      if k > n {
        assert r[k] == r[n + 1..][k - n - 1];
      }
    }
    SameShapeLinked(ov, r, n);
  }

  lemma ResetGLinked(ov: seq<Overlap>, n: int, gammas: seq<real>)
    requires Linked(ov, n) && n <= |gammas|
    ensures SameShape(ov, ResetG(ov, n, gammas)) && Linked(ResetG(ov, n, gammas), n)
  {
    var r := ResetG(ov, n, gammas);
    forall k | 0 <= k < |ov|
      ensures ShapeOf(ov[k]) == ShapeOf(r[k])
    {
      if k > n {
        assert r[k] == r[n + 1..][k - n - 1];
      }
    }
    SameShapeLinked(ov, r, n);
  }

  // ------------------------------------------------- the recursion's steps

  /** Refreshing slot x in place, once its ancestors are done, is what the
      target asks for. */
  lemma RefreshIsTarget(cur: seq<Overlap>, ov: seq<Overlap>, n: int, kind: Rescan, merge: Merger, D: set<int>, x: int)
    requires Linked(ov, n) && Agrees(cur, ov, n, kind, merge, D) && 0 < x < |ov| && x !in D
    requires forall a :: IsAnc(ov, a, x) ==> a in D
    requires ov[x].parentIndex > 0
    ensures ov[x].parentIndex < x && 0 <= ov[x].atom + 1 < |ov|
    ensures Refresh(cur[x], cur[ov[x].parentIndex], cur[ov[x].atom + 1], kind, merge) == Target(ov, n, kind, merge, x)
  {
    assert NodeLinked(ov, n, x);
    var p := ov[x].parentIndex;
    assert IsAnc(ov, p, x);
    var a := ov[x].atom + 1;
    assert NodeLinked(ov, n, a);
    assert Target(ov, n, kind, merge, a) == ov[a];
  }

  /** Before rescanning child c of slot s: c's ancestors are done, its
      subtree is not, and adding it extends the done forest by one. */
  lemma ChildReady(ov: seq<Overlap>, n: int, D: set<int>, s: int, c: int)
    requires Linked(ov, n) && 0 <= s < |ov| && InRange(ov[s], c)
    requires forall a :: IsAnc(ov, a, s) ==> a in D
    requires Subtree(ov, s) !! D
    requires var lo := ov[s].childrenStartindex; lo <= c
    ensures var E := D + {s} + Forest(ov, ov[s].childrenStartindex, c);
      (forall a :: IsAnc(ov, a, c) ==> a in E) && Subtree(ov, c) !! E &&
      E + Subtree(ov, c) == D + {s} + Forest(ov, ov[s].childrenStartindex, c + 1)
  {
    var lo := ov[s].childrenStartindex;
    assert s < c < |ov| && ov[c].parentIndex == s;
    forall a | IsAnc(ov, a, c)
      ensures a == s || IsAnc(ov, a, s)
    {
    }
    forall x | x in Subtree(ov, c)
      ensures x in Subtree(ov, s) && x != s
    {
      ChildWithin(ov, n, s, c, x);
      AncBefore(ov, s, x);
    }
    ForestSplit(ov, n, s, lo, c);
  }

  /** After slot x is refreshed (or left alone at level one and zero), the
      done set has grown by x and by none of its children yet. */
  lemma RescanStarts(cur: seq<Overlap>, cur2: seq<Overlap>, ov: seq<Overlap>, n: int, kind: Rescan, merge: Merger, D: set<int>, x: int)
    requires Linked(ov, n) && Agrees(cur, ov, n, kind, merge, D) && 0 <= x < |ov| && x !in D
    requires ov[x].parentIndex > 0 ==> cur2 == cur[x := Target(ov, n, kind, merge, x)]
    requires ov[x].parentIndex <= 0 ==> cur2 == cur
    ensures Agrees(cur2, ov, n, kind, merge, D + {x} + Forest(ov, ov[x].childrenStartindex, ov[x].childrenStartindex))
  {
    var lo := ov[x].childrenStartindex;
    assert Forest(ov, lo, lo) == {};
    assert cur[x] == ov[x];
  }

  /** Once every child's subtree is done, so is the subtree of x. */
  lemma RescanEnds(cur: seq<Overlap>, ov: seq<Overlap>, n: int, kind: Rescan, merge: Merger, D: set<int>, x: int, hi: int)
    requires Linked(ov, n) && 0 <= x < |ov|
    requires var lo := ov[x].childrenStartindex; var c := ov[x].childrenCount;
      (c > 0 ==> hi == lo + c) && (c <= 0 ==> hi == lo)
    requires Agrees(cur, ov, n, kind, merge, D + {x} + Forest(ov, ov[x].childrenStartindex, hi))
    ensures Agrees(cur, ov, n, kind, merge, D + Subtree(ov, x))
  {
    var lo := ov[x].childrenStartindex;
    var c := ov[x].childrenCount;
    SubtreeSplit(ov, n, x, lo, lo + c);
    if c <= 0 {
      assert Forest(ov, lo, hi) == {} == Forest(ov, lo, lo + c);
    }
  }

  /** Once the root's subtree is done, every slot holds its target. */
  lemma RescanDone(cur: seq<Overlap>, ov: seq<Overlap>, n: int, kind: Rescan, merge: Merger)
    requires Linked(ov, n) && Agrees(cur, ov, n, kind, merge, Subtree(ov, 0))
    ensures Linked(cur, n) && SameShape(ov, cur)
    ensures forall k :: 0 <= k < |cur| ==> cur[k] == Target(ov, n, kind, merge, k)
  {
    RootSubtreeIsAll(ov, n);
    AgreesLinked(cur, ov, n, kind, merge, Subtree(ov, 0));
  }

  lemma SameShapeTrans(a: seq<Overlap>, b: seq<Overlap>, c: seq<Overlap>)
    requires SameShape(a, b) && SameShape(b, c)
    ensures SameShape(a, c)
  {
    forall k | 0 <= k < |a|
      ensures ShapeOf(a[k]) == ShapeOf(c[k])
    {
      assert ShapeOf(a[k]) == ShapeOf(b[k]);
    }
  }

  // --------------------------------------------------- the built tree

  /** In a settled node's range each child is the filed candidate of the
      node with some younger sibling naming the child's atom. */
  lemma SettledChild(ov: seq<Overlap>, n: int, merge: Merger, p: int, x: int) returns (j: int)
    requires Linked(ov, n) && 1 <= p < |ov| && Settled(ov, n, p, merge) && InRange(ov[p], x)
    ensures 0 <= j < |ov| && 0 <= ov[j].atom + 1 < |ov| && ov[j].atom == ov[x].atom
    ensures Bare(ov[x]) == Filed(Candidate(ov, p, j, merge), ov[p].level + 1, p)
  {
    assert NodeLinked(ov, n, p);
    var cs := ChildrenOf(ov, n, p, merge).children;
    var st := ov[p].childrenStartindex;
    ChildrenOfLinked(ov, n, p, merge);
    var q := ov[ov[p].parentIndex];
    var hi := q.childrenStartindex + q.childrenCount;
    j := KeptElement(ov, p, p + 1, hi, merge, x - st);
    assert Bare(ov[x]) == Filed(cs[x - st], ov[p].level + 1, p);
  }

  /** On a tree computeOverlapTreeR built, every node already is what a
      rescan of either kind would make of it. */
  lemma {:induction false} BuiltTreeIsFixpoint(ov: seq<Overlap>, n: int, kind: Rescan, merge: Merger, x: int)
    requires Complete(ov, n, merge) && 0 <= x < |ov|
    ensures Target(ov, n, kind, merge, x) == ov[x]
    decreases x
  {
    var p := ov[x].parentIndex;
    if x > 0 && p > 0 {
      assert NodeLinked(ov, n, x);
      BuiltTreeIsFixpoint(ov, n, kind, merge, p);
      assert Settled(ov, n, p, merge);
      var j := SettledChild(ov, n, merge, p, x);
    }
  }

  /** Resetting a tree computeOverlapTreeR built from the same inputs it
      was built from changes nothing. */
  lemma BuiltTreeResetsToItself(ov: seq<Overlap>, n: int, merge: Merger,
                                pos: seq<Vec3>, radii: seq<real>, volumes: seq<real>, gammas: seq<real>, hydrogen: seq<bool>)
    requires AtomInputs(n, pos, radii, volumes, gammas, hydrogen)
    requires Linked(ov, n) && Extends(InitialTree(n, pos, radii, volumes, gammas, hydrogen), ov) && ov[0] == RootNode(n)
    ensures ResetV(ov, n, pos, radii, volumes, gammas, hydrogen) == ov
    ensures ResetG(ov, n, gammas) == ov
  {
    var init := InitialTree(n, pos, radii, volumes, gammas, hydrogen);
    var r := ResetV(ov, n, pos, radii, volumes, gammas, hydrogen);
    var rg := ResetG(ov, n, gammas);
    forall k | 0 <= k < |ov|
      ensures r[k] == ov[k] && rg[k] == ov[k]
    {
      if 1 <= k <= n {
        assert Bare(ov[k]) == Bare(init[k]);
      } else if k > n {
        assert r[k] == r[n + 1..][k - n - 1];
        assert rg[k] == rg[n + 1..][k - n - 1];
      }
    }
  }

  // ------------------------------------------------ surface tension paths

  /** The gammas of the atoms met on the path from slot x up to (not
      including) the root, following parentIndex, that is x and its IsAnc
      ancestors below the root. */
  ghost function PathGamma(ov: seq<Overlap>, n: int, gammas: seq<real>, x: int): real
    requires Linked(ov, n) && n <= |gammas| && 0 < x < |ov|
    decreases x
  {
    assert NodeLinked(ov, n, x);
    var p := ov[x].parentIndex;
    gammas[ov[x].atom] + (if p > 0 then PathGamma(ov, n, gammas, p) else 0.0)
  }

  /** Every rescan, of either kind, leaves in each overlap the sum of the
      gammas of the atoms on its path, once the atom slots hold those
      gammas. */
  lemma {:induction false} TargetGammaIsPathSum(ov: seq<Overlap>, ov0: seq<Overlap>, n: int, gammas: seq<real>,
                                                kind: Rescan, merge: Merger, x: int)
    requires Linked(ov, n) && SameShape(ov, ov0) && Linked(ov0, n) && n <= |gammas| && 0 < x < |ov|
    requires forall k :: 1 <= k <= n ==> ov0[k].gamma1i == gammas[k - 1]
    ensures Target(ov0, n, kind, merge, x).gamma1i == PathGamma(ov, n, gammas, x)
    decreases x
  {
    assert NodeLinked(ov, n, x) && NodeLinked(ov0, n, x);
    assert ShapeOf(ov[x]) == ShapeOf(ov0[x]);
    var p := ov[x].parentIndex;
    if p > 0 {
      TargetGammaIsPathSum(ov, ov0, n, gammas, kind, merge, p);
      var a := ov[x].atom + 1;
      assert ShapeOf(ov[a]) == ShapeOf(ov0[a]);
    } else {
      assert InRange(ov[0], x);
    }
  }

  /** After rescanTreeG, and after rescanTreeV, every overlap's gamma1i is
      the sum of the gammas of the atoms on its path. */
  lemma RescannedGammaIsPathSum(ov: seq<Overlap>, n: int, gammas: seq<real>, merge: Merger, x: int,
                                pos: seq<Vec3>, radii: seq<real>, volumes: seq<real>, hydrogen: seq<bool>)
    requires Linked(ov, n) && n <= |gammas| && 0 < x < |ov|
    ensures Linked(ResetG(ov, n, gammas), n) &&
            Target(ResetG(ov, n, gammas), n, Gammas, merge, x).gamma1i == PathGamma(ov, n, gammas, x)
    ensures AtomInputs(n, pos, radii, volumes, gammas, hydrogen) ==>
            Linked(ResetV(ov, n, pos, radii, volumes, gammas, hydrogen), n) &&
            Target(ResetV(ov, n, pos, radii, volumes, gammas, hydrogen), n, Volumes, merge, x).gamma1i == PathGamma(ov, n, gammas, x)
  {
    ResetGLinked(ov, n, gammas);
    TargetGammaIsPathSum(ov, ResetG(ov, n, gammas), n, gammas, Gammas, merge, x);
    if AtomInputs(n, pos, radii, volumes, gammas, hydrogen) {
      ResetVLinked(ov, n, pos, radii, volumes, gammas, hydrogen);
      TargetGammaIsPathSum(ov, ResetV(ov, n, pos, radii, volumes, gammas, hydrogen), n, gammas, Volumes, merge, x);
    }
  }
}
