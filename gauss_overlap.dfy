// The overlap tree of GaussVol as values: the nodes kept in the arena list,
// the shape that list keeps (root in slot 0, atoms in slots 1..n, every
// other node appended after its parent among its siblings), and the values
// the tree operations compute from it. The overlap of two Gaussians
// (ogaussAlpha, built on exp and pow) is a parameter of this model.
module GaussOverlap {
  import opened JavaLang

  datatype Vec3 = Vec3(x: real, y: real, z: real)

  const ORIGIN: Vec3 := Vec3(0.0, 0.0, 0.0)

  /** VectorMath.diff: a - b. */
  function Diff(a: Vec3, b: Vec3): (r: Vec3)
    ensures r.x == a.x - b.x && r.y == a.y - b.y && r.z == a.z - b.z
  {
    Vec3(a.x - b.x, a.y - b.y, a.z - b.z)
  }

  /** VectorMath.scalar: v * s. */
  function Scale(v: Vec3, s: real): (r: Vec3)
    ensures r.x == v.x * s && r.y == v.y * s && r.z == v.z * s
  {
    Vec3(v.x * s, v.y * s, v.z * s)
  }

  /** GaussianVca: a Gaussian of volume v and exponent a centred at c. */
  datatype Gaussian = Gaussian(v: real, a: real, c: Vec3)

  const ZERO_GAUSSIAN: Gaussian := Gaussian(0.0, 0.0, ORIGIN)

  /** GaussianOverlap: one node of the tree. */
  datatype Overlap = Overlap(level: int, g: Gaussian, volume: real, dvv1: real, dv1: Vec3,
                             gamma1i: real, selfVolume: real, sfp: real,
                             atom: int, parentIndex: int, childrenStartindex: int, childrenCount: int)

  /** What ogaussAlpha hands back for two Gaussians: the overlap Gaussian,
      the switched overlap volume it returns, and its three out-values. */
  datatype Merged = Merged(g12: Gaussian, volume: real, dVdr: real, dVdV: real, sfp: real)

  type Merger = (Gaussian, Gaussian) -> Merged

  const MAX_ORDER: int := 8
  const MIN_GVOL: real := DOUBLE_MIN_VALUE
  const KFC: real := 2.2269859253

  /** The fields that make up the tree's shape. */
  datatype Shape = Shape(level: int, atom: int, parentIndex: int, childrenStartindex: int, childrenCount: int)

  function ShapeOf(o: Overlap): Shape
  {
    Shape(o.level, o.atom, o.parentIndex, o.childrenStartindex, o.childrenCount)
  }

  /** Slot j lies in the children range of node o. */
  predicate InRange(o: Overlap, j: int)
  {
    o.childrenStartindex <= j < o.childrenStartindex + o.childrenCount
  }

  // ------------------------------------------------------------ tree shape

  /** Every children range lies after its owner and inside the list. */
  ghost predicate Ordered(ov: seq<Overlap>)
  {
    forall p, j {:trigger InRange(ov[p], j)} :: 0 <= p < |ov| && InRange(ov[p], j) ==> p < j < |ov|
  }

  /** Node k (not the root) hangs below an earlier parent one level up, lies
      in that parent's children range, stays within MAX_ORDER levels and
      names one of the n atoms. */
  ghost predicate NodeLinked(ov: seq<Overlap>, n: int, k: int)
    requires 1 <= k < |ov|
  {
    var p := ov[k].parentIndex;
    0 <= p < k && ov[k].level == ov[p].level + 1 && 1 <= ov[k].level <= MAX_ORDER &&
    InRange(ov[p], k) && 0 <= ov[k].atom < n
  }

  /** The arena invariant: the root in slot 0 owns the atoms in slots 1..n,
      every later node is linked to its parent, and every node in a children
      range names its owner as parent. */
  ghost predicate Linked(ov: seq<Overlap>, n: int)
  {
    0 <= n && n + 1 <= |ov| &&
    ShapeOf(ov[0]) == Shape(0, -1, -1, 1, n) &&
    (forall k :: 1 <= k <= n ==> ov[k].level == 1 && ov[k].atom == k - 1 && ov[k].parentIndex == 0) &&
    (forall k :: 1 <= k < |ov| ==> NodeLinked(ov, n, k)) &&
    Ordered(ov) &&
    (forall p, j {:trigger InRange(ov[p], j)} :: 0 <= p < |ov| && InRange(ov[p], j) ==> ov[j].parentIndex == p)
  }

  /** Two node lists with the same shape, node for node. */
  predicate SameShape(a: seq<Overlap>, b: seq<Overlap>)
  {
    |a| == |b| && forall k :: 0 <= k < |a| ==> ShapeOf(a[k]) == ShapeOf(b[k])
  }

  lemma SameShapeLinked(a: seq<Overlap>, b: seq<Overlap>, n: int)
    requires Linked(a, n) && SameShape(a, b)
    ensures Linked(b, n)
  {
    assert ShapeOf(a[0]) == ShapeOf(b[0]);
    forall k | 1 <= k < |b|
      ensures NodeLinked(b, n, k)
    {
      assert NodeLinked(a, n, k);
      assert ShapeOf(a[a[k].parentIndex]) == ShapeOf(b[a[k].parentIndex]);
    }
    forall p, j | 0 <= p < |b| && InRange(b[p], j)
      ensures p < j < |b|
    {
      assert ShapeOf(a[p]) == ShapeOf(b[p]);
      assert InRange(a[p], j);
    }
    forall p, j | 0 <= p < |b| && InRange(b[p], j)
      ensures b[j].parentIndex == p
    {
      assert ShapeOf(a[p]) == ShapeOf(b[p]);
      assert InRange(a[p], j);
      assert ShapeOf(a[j]) == ShapeOf(b[j]);
    }
  }

  // ----------------------------------------------------------- initial tree

  /** Slot 0 of initOverlapTree: the root owning every atom. The source never
      gives the root a Gaussian; here it has the zero one. */
  function RootNode(n: int): Overlap
  {
    Overlap(0, ZERO_GAUSSIAN, 0.0, 0.0, ORIGIN, 0.0, 0.0, 1.0, -1, -1, 1, n)
  }

  /** The atomic Gaussian of radius r: exponent KFC / r^2 and the atom's
      volume, or none for a hydrogen. */
  function AtomGaussian(pos: Vec3, radius: real, volume: real, hydrogen: bool): Gaussian
    requires radius != 0.0
  {
    Gaussian(if hydrogen then 0.0 else volume, KFC / (radius * radius), pos)
  }

  /** Slot iat+1 of initOverlapTree: atom iat at level 1 under the root, with
      no children. */
  function AtomNode(iat: int, pos: Vec3, radius: real, volume: real, gamma: real, hydrogen: bool): (o: Overlap)
    requires radius != 0.0
    ensures ShapeOf(o) == Shape(1, iat, 0, -1, -1)
    ensures o.volume == (if hydrogen then 0.0 else volume) && o.gamma1i == gamma
  {
    var g := AtomGaussian(pos, radius, volume, hydrogen);
    Overlap(1, g, g.v, 1.0, ORIGIN, gamma, 0.0, 1.0, iat, 0, -1, -1)
  }

  /** The per-atom inputs: positions, radii, volumes, gammas, hydrogen flags. */
  predicate AtomInputs(n: int, pos: seq<Vec3>, radii: seq<real>, volumes: seq<real>, gammas: seq<real>, hydrogen: seq<bool>)
  {
    0 <= n <= |pos| && n <= |radii| && n <= |volumes| && n <= |gammas| && n <= |hydrogen| &&
    forall i :: 0 <= i < n ==> radii[i] != 0.0
  }

  function InitialTree(n: int, pos: seq<Vec3>, radii: seq<real>, volumes: seq<real>, gammas: seq<real>, hydrogen: seq<bool>): (ov: seq<Overlap>)
    requires AtomInputs(n, pos, radii, volumes, gammas, hydrogen)
    ensures |ov| == n + 1 && ov[0] == RootNode(n)
    ensures forall k :: 1 <= k <= n ==> ov[k] == AtomNode(k - 1, pos[k - 1], radii[k - 1], volumes[k - 1], gammas[k - 1], hydrogen[k - 1])
  {
    [RootNode(n)] + seq(n, i requires 0 <= i < n => AtomNode(i, pos[i], radii[i], volumes[i], gammas[i], hydrogen[i]))
  }

  /** The tree initOverlapTree builds keeps the arena invariant. */
  lemma InitialTreeLinked(n: int, pos: seq<Vec3>, radii: seq<real>, volumes: seq<real>, gammas: seq<real>, hydrogen: seq<bool>)
    requires AtomInputs(n, pos, radii, volumes, gammas, hydrogen)
    ensures Linked(InitialTree(n, pos, radii, volumes, gammas, hydrogen), n)
  {
    var ov := InitialTree(n, pos, radii, volumes, gammas, hydrogen);
    forall k | 1 <= k < |ov|
      ensures NodeLinked(ov, n, k) && ov[k].childrenCount == -1
    {
      assert ShapeOf(ov[k]) == Shape(1, k - 1, 0, -1, -1);
    }
    forall p, j | 0 <= p < |ov| && InRange(ov[p], j)
      ensures p < j < |ov| && ov[j].parentIndex == p
    {
      assert ShapeOf(ov[j]) == Shape(1, j - 1, 0, -1, -1);
    }
  }

  // ------------------------------------------------------------ addChildren

  /** A child as addChildren files it: one level below its parent, linked to
      it, with no children of its own. */
  function Filed(c: Overlap, level: int, parentIndex: int): Overlap
  {
    c.(level := level, parentIndex := parentIndex, childrenStartindex := -1, childrenCount := -1)
  }

  /** addChildren: the children appended after the last slot, in order, and
      registered on the parent as the range starting at the old length. */
  function Adopted(ov: seq<Overlap>, p: int, children: seq<Overlap>): (r: seq<Overlap>)
    requires 0 <= p < |ov|
    ensures |r| == |ov| + |children|
    ensures r[p] == ov[p].(childrenStartindex := |ov|, childrenCount := |children|)
    ensures forall k :: 0 <= k < |ov| && k != p ==> r[k] == ov[k]
    ensures forall i :: 0 <= i < |children| ==> r[|ov| + i] == Filed(children[i], ov[p].level + 1, p)
  {
    ov[p := ov[p].(childrenStartindex := |ov|, childrenCount := |children|)] +
    seq(|children|, i requires 0 <= i < |children| => Filed(children[i], ov[p].level + 1, p))
  }

  /** Adopting children under a childless node below MAX_ORDER keeps the arena
      invariant, as long as each child names an atom. */
  lemma AdoptedLinked(ov: seq<Overlap>, n: int, p: int, children: seq<Overlap>)
    requires Linked(ov, n) && 1 <= p < |ov| && ov[p].childrenCount <= 0 && ov[p].level < MAX_ORDER
    requires forall i :: 0 <= i < |children| ==> 0 <= children[i].atom < n
    ensures Linked(Adopted(ov, p, children), n)
  {
    var r := Adopted(ov, p, children);
    assert NodeLinked(ov, n, p);
    assert forall k :: |ov| <= k < |r| ==> r[k].childrenCount == -1 by {
      forall k | |ov| <= k < |r| ensures r[k].childrenCount == -1 {
        assert r[k] == Filed(children[k - |ov|], ov[p].level + 1, p);
      }
    }
    forall k | 1 <= k < |r|
      ensures NodeLinked(r, n, k)
    {
      if k < |ov| {
        assert NodeLinked(ov, n, k);
        assert InRange(ov[ov[k].parentIndex], k);
      } else {
        assert r[k] == Filed(children[k - |ov|], ov[p].level + 1, p);
      }
    }
    forall q, j | 0 <= q < |r| && InRange(r[q], j)
      ensures q < j < |r| && r[j].parentIndex == q
    {
      if q < |ov| && q != p {
        assert InRange(ov[q], j);
        assert r[j].parentIndex == ov[j].parentIndex;
      } else if q == p {
        assert r[j] == Filed(children[j - |ov|], ov[p].level + 1, p);
      }
    }
  }

  // -------------------------------------------------------- computeChildren

  /** The sibling test of computeChildren as written: `root_index < start &&
      root_index > start + count - 1`. */
  predicate AsWrittenOutsideSiblings(r: int, start: int, count: int)
  {
    r < start && r > start + count - 1
  }

  /** The sibling test as intended: the node lies outside its parent's
      children range. */
  predicate OutsideSiblings(r: int, start: int, count: int)
  {
    r < start || r > start + count - 1
  }

  /** The test as written can never succeed, so a node outside its parent's
      range is scanned against whatever follows it: node 1 under a parent
      whose children are slots 3 and 4 is let through. The intended test
      rejects exactly the nodes outside the range. */
  lemma AsWrittenSiblingTestNeverFires(r: int, start: int, count: int)
    requires count >= 0
    ensures !AsWrittenOutsideSiblings(r, start, count)
    ensures OutsideSiblings(r, start, count) <==> !(start <= r < start + count)
    ensures OutsideSiblings(1, 3, 2) && !AsWrittenOutsideSiblings(1, 3, 2)
  {
  }

  /** The overlap of node r with the atom of sibling j, as computeChildren
      builds it before addChildren files it. */
  function Candidate(ov: seq<Overlap>, r: int, j: int, merge: Merger): (c: Overlap)
    requires 0 <= r < |ov| && 0 <= j < |ov| && 0 <= ov[j].atom + 1 < |ov|
    ensures c.atom == ov[j].atom && c.gamma1i == ov[r].gamma1i + ov[ov[j].atom + 1].gamma1i
    ensures c.selfVolume == 0.0
  {
    var root := ov[r];
    var atom2 := ov[j].atom;
    var g2 := ov[atom2 + 1].g;
    var m := merge(root.g, g2);
    Overlap(0, m.g12, m.volume, m.dVdV, Scale(Diff(g2.c, root.g.c), -m.dVdr),
            root.gamma1i + ov[atom2 + 1].gamma1i, 0.0, m.sfp, atom2, 0, 0, 0)
  }

  /** Every sibling slot in [lo, hi) names an atom slot of the list. */
  predicate AtomsNamed(ov: seq<Overlap>, lo: int, hi: int)
  {
    0 <= lo && hi <= |ov| && forall j :: lo <= j < hi ==> 0 <= ov[j].atom + 1 < |ov|
  }

  /** The overlaps kept for siblings lo .. hi-1, in slot order: those whose
      volume exceeds MIN_GVOL. */
  function Kept(ov: seq<Overlap>, r: int, lo: int, hi: int, merge: Merger): seq<Overlap>
    requires 0 <= r < |ov| && AtomsNamed(ov, lo, hi)
    decreases hi - lo
  {
    if hi <= lo then []
    else
      var c := Candidate(ov, r, hi - 1, merge);
      Kept(ov, r, lo, hi - 1, merge) + (if c.volume > MIN_GVOL then [c] else [])
  }

  /** computeChildren keeps at most one overlap per sibling. */
  lemma {:induction false} KeptBound(ov: seq<Overlap>, r: int, lo: int, hi: int, merge: Merger)
    requires 0 <= r < |ov| && AtomsNamed(ov, lo, hi)
    ensures |Kept(ov, r, lo, hi, merge)| <= (if hi <= lo then 0 else hi - lo)
    decreases hi - lo
  {
    if hi > lo {
      KeptBound(ov, r, lo, hi - 1, merge);
    }
  }

  /** Each kept overlap is the overlap with a sibling in the range, and its
      volume exceeds MIN_GVOL. */
  lemma {:induction false} KeptElement(ov: seq<Overlap>, r: int, lo: int, hi: int, merge: Merger, i: int) returns (j: int)
    requires 0 <= r < |ov| && AtomsNamed(ov, lo, hi) && 0 <= i < |Kept(ov, r, lo, hi, merge)|
    ensures lo <= j < hi && Kept(ov, r, lo, hi, merge)[i] == Candidate(ov, r, j, merge)
    ensures Candidate(ov, r, j, merge).volume > MIN_GVOL
    decreases hi - lo
  {
    var prev := Kept(ov, r, lo, hi - 1, merge);
    if i < |prev| {
      j := KeptElement(ov, r, lo, hi - 1, merge, i);
    } else {
      j := hi - 1;
    }
  }

  /** What computeChildren kept: overlaps with siblings in the range, each
      with a volume above MIN_GVOL, the sibling's atom and the gamma sum of
      the node and that atom. */
  lemma KeptFromSiblings(ov: seq<Overlap>, r: int, lo: int, hi: int, merge: Merger)
    requires 0 <= r < |ov| && AtomsNamed(ov, lo, hi)
    ensures var cs := Kept(ov, r, lo, hi, merge);
      forall i :: 0 <= i < |cs| ==>
        (exists j :: lo <= j < hi && cs[i] == Candidate(ov, r, j, merge)) &&
        cs[i].volume > MIN_GVOL && cs[i].gamma1i == ov[r].gamma1i + ov[cs[i].atom + 1].gamma1i
  {
    var cs := Kept(ov, r, lo, hi, merge);
    forall i | 0 <= i < |cs|
      ensures (exists j :: lo <= j < hi && cs[i] == Candidate(ov, r, j, merge)) &&
        cs[i].volume > MIN_GVOL && cs[i].gamma1i == ov[r].gamma1i + ov[cs[i].atom + 1].gamma1i
    {
      var j := KeptElement(ov, r, lo, hi, merge, i);
    }
  }

  /** Every sibling whose overlap exceeds MIN_GVOL is kept. */
  lemma {:induction false} KeptComplete(ov: seq<Overlap>, r: int, lo: int, hi: int, merge: Merger, j: int)
    requires 0 <= r < |ov| && AtomsNamed(ov, lo, hi) && lo <= j < hi
    requires Candidate(ov, r, j, merge).volume > MIN_GVOL
    ensures Candidate(ov, r, j, merge) in Kept(ov, r, lo, hi, merge)
    decreases hi - lo
  {
    var front := Kept(ov, r, lo, hi - 1, merge);
    var c := Candidate(ov, r, hi - 1, merge);
    assert Kept(ov, r, lo, hi, merge) == front + (if c.volume > MIN_GVOL then [c] else []);
    if j < hi - 1 {
      KeptComplete(ov, r, lo, hi - 1, merge, j);
    } else {
      assert (front + [c])[|front|] == c;
    }
  }

  /** The younger siblings of a non-root node lie inside the list and each
      names one of the n atoms. */
  lemma SiblingsNamed(ov: seq<Overlap>, n: int, r: int)
    requires Linked(ov, n) && 1 <= r < |ov|
    ensures 0 <= ov[r].parentIndex < r
    ensures var p := ov[ov[r].parentIndex]; var hi := p.childrenStartindex + p.childrenCount;
      0 <= p.childrenStartindex <= r < hi <= |ov| && AtomsNamed(ov, r + 1, hi) &&
      forall j :: r < j < hi ==> 0 <= ov[j].atom < n
  {
    assert NodeLinked(ov, n, r);
    var q := ov[r].parentIndex;
    var hi := ov[q].childrenStartindex + ov[q].childrenCount;
    assert InRange(ov[q], hi - 1);
    assert InRange(ov[q], ov[q].childrenStartindex);
    forall j | r < j < hi
      ensures j < |ov| && 0 <= ov[j].atom < n
    {
      assert InRange(ov[q], j);
      assert NodeLinked(ov, n, j);
    }
  }

  /** computeChildren's answer: a status and the overlaps found. */
  datatype ChildScan = ChildScan(status: int, children: seq<Overlap>)

  /** computeChildren for node r: nothing for the root or at MAX_ORDER; an
      error for an unregistered parent or a node outside its parent's range;
      otherwise the kept overlaps with every younger sibling. */
  function ChildrenOf(ov: seq<Overlap>, n: int, r: int, merge: Merger): (s: ChildScan)
    requires Linked(ov, n) && 0 <= r < |ov|
    ensures ov[r].parentIndex < 0 || ov[r].level >= MAX_ORDER ==> s == ChildScan(1, [])
  {
    var root := ov[r];
    if root.parentIndex < 0 then ChildScan(1, [])
    else if root.level >= MAX_ORDER then ChildScan(1, [])
    else
      assert r >= 1 && NodeLinked(ov, n, r);
      var parent := ov[root.parentIndex];
      var start := parent.childrenStartindex;
      var count := parent.childrenCount;
      if start < 0 || count < 0 then ChildScan(-1, [])
      else if OutsideSiblings(r, start, count) then ChildScan(-1, [])
      else
        SiblingsNamed(ov, n, r);
        ChildScan(1, Kept(ov, r, r + 1, start + count, merge))
  }

  /** In a linked tree every node other than the root has a registered
      parent whose range holds it, so the scan of a node below MAX_ORDER
      succeeds and covers exactly its younger siblings, each of which names
      an atom. */
  lemma ChildrenOfLinked(ov: seq<Overlap>, n: int, r: int, merge: Merger)
    requires Linked(ov, n) && 1 <= r < |ov| && ov[r].level < MAX_ORDER
    ensures 0 <= ov[r].parentIndex < r
    ensures var p := ov[ov[r].parentIndex]; var hi := p.childrenStartindex + p.childrenCount;
      p.childrenStartindex <= r < hi <= |ov| && AtomsNamed(ov, r + 1, hi) &&
      ChildrenOf(ov, n, r, merge) == ChildScan(1, Kept(ov, r, r + 1, hi, merge))
  {
    SiblingsNamed(ov, n, r);
  }

  /** Every overlap the scan of a linked tree finds names one of the n atoms. */
  lemma ChildrenOfAtoms(ov: seq<Overlap>, n: int, r: int, merge: Merger)
    requires Linked(ov, n) && 1 <= r < |ov| && ov[r].level < MAX_ORDER
    ensures forall i :: 0 <= i < |ChildrenOf(ov, n, r, merge).children| ==> 0 <= ChildrenOf(ov, n, r, merge).children[i].atom < n
  {
    ChildrenOfLinked(ov, n, r, merge);
    SiblingsNamed(ov, n, r);
    var p := ov[ov[r].parentIndex];
    KeptAtoms(ov, n, r, r + 1, p.childrenStartindex + p.childrenCount, merge);
  }

  /** Siblings that name atoms below n yield overlaps that do too. */
  lemma KeptAtoms(ov: seq<Overlap>, n: int, r: int, lo: int, hi: int, merge: Merger)
    requires 0 <= r < |ov| && AtomsNamed(ov, lo, hi)
    requires forall j :: lo <= j < hi ==> 0 <= ov[j].atom < n
    ensures forall i :: 0 <= i < |Kept(ov, r, lo, hi, merge)| ==> 0 <= Kept(ov, r, lo, hi, merge)[i].atom < n
  {
    var cs := Kept(ov, r, lo, hi, merge);
    forall i | 0 <= i < |cs|
      ensures 0 <= cs[i].atom < n
    {
      var j := KeptElement(ov, r, lo, hi, merge, i);
    }
  }

  // ------------------------------------------------- the tree once it is built

  /** A node without its children registration. */
  function Bare(o: Overlap): (b: Overlap)
    ensures b.childrenStartindex == -1 && b.childrenCount == -1
  {
    o.(childrenStartindex := -1, childrenCount := -1)
  }

  /** ov2 keeps every node of ov, except perhaps for children registrations,
      and may hold more nodes after them. */
  ghost predicate Extends(ov: seq<Overlap>, ov2: seq<Overlap>)
  {
    |ov| <= |ov2| && forall k :: 0 <= k < |ov| ==> Bare(ov2[k]) == Bare(ov[k])
  }

  /** Node s has had its children computed and added: when the scan finds
      none it stays unregistered; otherwise its range holds exactly the
      overlaps found, filed in order one level below it. */
  ghost predicate Settled(ov: seq<Overlap>, n: int, s: int, merge: Merger)
    requires Linked(ov, n) && 1 <= s < |ov|
  {
    var cs := ChildrenOf(ov, n, s, merge).children;
    var o := ov[s];
    if |cs| == 0 then o.childrenStartindex == -1 && o.childrenCount == -1
    else
      o.childrenCount == |cs| && 0 <= o.childrenStartindex && o.childrenStartindex + |cs| <= |ov| &&
      forall k :: o.childrenStartindex <= k < o.childrenStartindex + |cs| ==>
        Bare(ov[k]) == Filed(cs[k - o.childrenStartindex], o.level + 1, s)
  }

  /** The tree computeOverlapTreeR leaves: linked, and every node below the
      root settled. */
  ghost predicate Complete(ov: seq<Overlap>, n: int, merge: Merger)
  {
    Linked(ov, n) && forall s :: 1 <= s < |ov| ==> Settled(ov, n, s, merge)
  }

  /** The fields a candidate overlap reads (atom, Gaussian, gamma) agree on
      every slot of ov. */
  ghost predicate SameAtoms(ov: seq<Overlap>, ov2: seq<Overlap>)
  {
    |ov| <= |ov2| &&
    forall k :: 0 <= k < |ov| ==> ov2[k].atom == ov[k].atom && ov2[k].g == ov[k].g && ov2[k].gamma1i == ov[k].gamma1i
  }

  /** Children registrations leave those fields alone. */
  lemma ExtendsSameAtoms(ov: seq<Overlap>, ov2: seq<Overlap>)
    requires Extends(ov, ov2)
    ensures SameAtoms(ov, ov2)
  {
    forall k | 0 <= k < |ov|
      ensures ov2[k].atom == ov[k].atom && ov2[k].g == ov[k].g && ov2[k].gamma1i == ov[k].gamma1i
    {
      assert Bare(ov2[k]) == Bare(ov[k]);
    }
  }

  /** A candidate overlap reads only fields that children registrations
      leave alone. */
  lemma CandidateStable(ov: seq<Overlap>, ov2: seq<Overlap>, r: int, j: int, merge: Merger)
    requires SameAtoms(ov, ov2) && 0 <= r < |ov| && 0 <= j < |ov| && 0 <= ov[j].atom + 1 < |ov|
    ensures 0 <= ov2[j].atom + 1 < |ov2| && Candidate(ov2, r, j, merge) == Candidate(ov, r, j, merge)
  {
    var a := ov[j].atom + 1;
    assert ov2[a].g == ov[a].g && ov2[a].gamma1i == ov[a].gamma1i;
  }

  lemma {:induction false} KeptStable(ov: seq<Overlap>, ov2: seq<Overlap>, r: int, lo: int, hi: int, merge: Merger)
    requires SameAtoms(ov, ov2) && 0 <= r < |ov| && AtomsNamed(ov, lo, hi)
    ensures AtomsNamed(ov2, lo, hi) && Kept(ov2, r, lo, hi, merge) == Kept(ov, r, lo, hi, merge)
    decreases hi - lo
  {
    if hi > lo {
      KeptStable(ov, ov2, r, lo, hi - 1, merge);
      CandidateStable(ov, ov2, r, hi - 1, merge);
    }
  }

  /** The scan of node s reads the node, its parent's registration, its
      younger siblings and the atom slots: it gives the same answer on any
      extension that keeps the parent's registration. */
  lemma ChildrenOfStable(ov: seq<Overlap>, ov2: seq<Overlap>, n: int, s: int, merge: Merger)
    requires Linked(ov, n) && Linked(ov2, n) && Extends(ov, ov2) && 1 <= s < |ov|
    requires var p := ov[s].parentIndex;
      0 <= p < |ov| && ov2[p].childrenStartindex == ov[p].childrenStartindex && ov2[p].childrenCount == ov[p].childrenCount
    ensures ChildrenOf(ov2, n, s, merge) == ChildrenOf(ov, n, s, merge)
  {
    assert Bare(ov2[s]) == Bare(ov[s]);
    var p := ov[s].parentIndex;
    assert Bare(ov2[p]) == Bare(ov[p]);
    if ov[s].level < MAX_ORDER {
      ChildrenOfLinked(ov, n, s, merge);
      ChildrenOfLinked(ov2, n, s, merge);
      var hi := ov[p].childrenStartindex + ov[p].childrenCount;
      ExtendsSameAtoms(ov, ov2);
      KeptStable(ov, ov2, s, s + 1, hi, merge);
    }
  }

  /** Settling survives extensions that keep the node's own registration and
      its parent's. */
  lemma SettledStable(ov: seq<Overlap>, ov2: seq<Overlap>, n: int, s: int, merge: Merger)
    requires Linked(ov, n) && Linked(ov2, n) && Extends(ov, ov2) && 1 <= s < |ov|
    requires Settled(ov, n, s, merge)
    requires ov2[s] == ov[s] || (ov2[s].childrenStartindex == ov[s].childrenStartindex && ov2[s].childrenCount == ov[s].childrenCount)
    requires var p := ov[s].parentIndex;
      0 <= p < |ov| && ov2[p].childrenStartindex == ov[p].childrenStartindex && ov2[p].childrenCount == ov[p].childrenCount
    ensures Settled(ov2, n, s, merge)
  {
    ChildrenOfStable(ov, ov2, n, s, merge);
    assert Bare(ov2[s]) == Bare(ov[s]);
    var cs := ChildrenOf(ov, n, s, merge).children;
    if |cs| > 0 {
      var st := ov[s].childrenStartindex;
      forall k | st <= k < st + |cs|
        ensures Bare(ov2[k]) == Filed(cs[k - st], ov[s].level + 1, s)
      {
        assert Bare(ov2[k]) == Bare(ov[k]);
      }
    }
  }

  lemma ExtendsTrans(a: seq<Overlap>, b: seq<Overlap>, c: seq<Overlap>)
    requires Extends(a, b) && Extends(b, c)
    ensures Extends(a, c)
  {
    forall k | 0 <= k < |a|
      ensures Bare(c[k]) == Bare(a[k])
    {
      assert Bare(c[k]) == Bare(b[k]);
    }
  }

  /** Settling node c (still unregistered) and appending nodes after the
      list leaves every other settled node settled. */
  lemma SettledAfterSettling(ov: seq<Overlap>, ov2: seq<Overlap>, n: int, c: int, merge: Merger)
    requires Linked(ov, n) && Linked(ov2, n) && Extends(ov, ov2)
    requires 1 <= c < |ov| && ov[c].childrenCount == -1
    requires forall k :: 0 <= k < |ov| && k != c ==> ov2[k] == ov[k]
    ensures forall k :: 1 <= k < |ov| && k != c && Settled(ov, n, k, merge) ==> Settled(ov2, n, k, merge)
  {
    forall k | 1 <= k < |ov| && k != c && Settled(ov, n, k, merge)
      ensures Settled(ov2, n, k, merge)
    {
      assert NodeLinked(ov, n, k);
      SettledStable(ov, ov2, n, k, merge);
    }
  }

  /** Adopting the overlaps its scan finds keeps the arena linked and
      settles the node; the adopted slots are unregistered, one level below
      it. */
  lemma AdoptedSettles(ov: seq<Overlap>, n: int, r: int, children: seq<Overlap>, merge: Merger)
    requires Linked(ov, n) && 1 <= r < |ov| && ov[r].childrenCount == -1
    requires ChildrenOf(ov, n, r, merge).children == children && |children| > 0
    ensures Linked(Adopted(ov, r, children), n)
    ensures Extends(ov, Adopted(ov, r, children))
    ensures Settled(Adopted(ov, r, children), n, r, merge)
    ensures forall k :: |ov| <= k < |ov| + |children| ==>
      Adopted(ov, r, children)[k].childrenStartindex == -1 && Adopted(ov, r, children)[k].childrenCount == -1 &&
      Adopted(ov, r, children)[k].level == ov[r].level + 1
  {
    ChildrenOfAtoms(ov, n, r, merge);
    AdoptedLinked(ov, n, r, children);
    var ov1 := Adopted(ov, r, children);
    assert Bare(ov1[r]) == Bare(ov[r]);
    assert NodeLinked(ov, n, r);
    ChildrenOfStable(ov, ov1, n, r, merge);
    forall k | |ov| <= k < |ov| + |children|
      ensures ov1[k].childrenStartindex == -1 && ov1[k].childrenCount == -1 && ov1[k].level == ov[r].level + 1
    {
      assert ov1[|ov| + (k - |ov|)] == Filed(children[k - |ov|], ov[r].level + 1, r);
    }
  }

  /** Midway through settling the fresh slots lo .. hi-1 of ov1 in order:
      the slots before lo are as in ov1, lo .. i-1 are settled, i .. hi-1
      are still fresh, and every slot appended after hi is settled. */
  ghost predicate Growing(ov1: seq<Overlap>, ov: seq<Overlap>, n: int, lo: int, i: int, hi: int, merge: Merger)
  {
    Linked(ov, n) && Extends(ov1, ov) && 1 <= lo <= i <= hi == |ov1| <= |ov| &&
    (forall k :: 0 <= k < lo ==> ov[k] == ov1[k]) &&
    (forall k :: lo <= k < i ==> Settled(ov, n, k, merge)) &&
    (forall k :: hi <= k < |ov| ==> Settled(ov, n, k, merge)) &&
    (forall k :: i <= k < hi ==>
      ov[k].childrenStartindex == -1 && ov[k].childrenCount == -1 && ov[k].level == ov1[k].level)
  }

  /** Settling slot i (appending nodes after the list) moves the boundary on
      by one. */
  lemma GrowingStep(ov1: seq<Overlap>, ov2: seq<Overlap>, ov3: seq<Overlap>, n: int, lo: int, i: int, hi: int, merge: Merger)
    requires Growing(ov1, ov2, n, lo, i, hi, merge) && i < hi
    requires Linked(ov3, n) && Extends(ov2, ov3)
    requires forall k :: 0 <= k < |ov2| && k != i ==> ov3[k] == ov2[k]
    requires Settled(ov3, n, i, merge)
    requires forall k :: |ov2| <= k < |ov3| ==> Settled(ov3, n, k, merge)
    ensures Growing(ov1, ov3, n, lo, i + 1, hi, merge)
  {
    ExtendsTrans(ov1, ov2, ov3);
    SettledAfterSettling(ov2, ov3, n, i, merge);
  }
}
