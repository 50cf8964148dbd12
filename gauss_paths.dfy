// Ancestry in the overlap tree: which slots lie below which, how many
// overlaps nchildrenUnderSlotR counts below a slot, and the fact that the
// subtrees of siblings never share a slot, so the whole tree is the root's
// subtree, counted exactly once.
module GaussPaths {
  import opened GaussOverlap

  /** Slot a is a strict ancestor of slot x: following parentIndex from x
      (always to an earlier slot) reaches a. */
  ghost predicate IsAnc(ov: seq<Overlap>, a: int, x: int)
    decreases x
  {
    0 < x < |ov| && 0 <= ov[x].parentIndex < x &&
    (ov[x].parentIndex == a || IsAnc(ov, a, ov[x].parentIndex))
  }

  /** Slot x lies in the subtree of slot a (a itself included). */
  ghost predicate Within(ov: seq<Overlap>, a: int, x: int)
  {
    a == x || IsAnc(ov, a, x)
  }

  /** The slots of the subtree of s. */
  ghost function Subtree(ov: seq<Overlap>, s: int): set<int>
  {
    set x | 0 <= x < |ov| && Within(ov, s, x)
  }

  /** Slot x lies in the subtree of one of the slots lo .. hi-1. */
  ghost predicate InForest(ov: seq<Overlap>, lo: int, hi: int, x: int)
  {
    exists c :: lo <= c < hi && Within(ov, c, x)
  }

  /** The slots of the subtrees of slots lo .. hi-1. */
  ghost function Forest(ov: seq<Overlap>, lo: int, hi: int): set<int>
  {
    set x | 0 <= x < |ov| && InForest(ov, lo, hi, x)
  }

  /** The slots 0 .. m-1. */
  function Slots(m: int): (r: set<int>)
    ensures forall x :: x in r <==> 0 <= x < m
    ensures |r| == if m <= 0 then 0 else m
    decreases m
  {
    if m <= 0 then {} else Slots(m - 1) + {m - 1}
  }

  // ------------------------------------------------------- ancestor facts

  lemma {:induction false} AncBefore(ov: seq<Overlap>, a: int, x: int)
    requires IsAnc(ov, a, x)
    ensures 0 <= a < x < |ov|
    decreases x
  {
    if ov[x].parentIndex != a {
      AncBefore(ov, a, ov[x].parentIndex);
    }
  }

  lemma {:induction false} AncTrans(ov: seq<Overlap>, a: int, b: int, x: int)
    requires IsAnc(ov, a, b) && IsAnc(ov, b, x)
    ensures IsAnc(ov, a, x)
    decreases x
  {
    if ov[x].parentIndex != b {
      AncTrans(ov, a, b, ov[x].parentIndex);
    }
  }

  /** The ancestors of a slot lie on one chain. */
  lemma {:induction false} AncLinear(ov: seq<Overlap>, a: int, b: int, x: int)
    requires IsAnc(ov, a, x) && IsAnc(ov, b, x)
    ensures a == b || IsAnc(ov, a, b) || IsAnc(ov, b, a)
    decreases x
  {
    var p := ov[x].parentIndex;
    if p != a && p != b {
      AncLinear(ov, a, b, p);
    }
  }

  /** A child's subtree lies in its parent's subtree. */
  lemma ChildWithin(ov: seq<Overlap>, n: int, s: int, c: int, x: int)
    requires Linked(ov, n) && 0 <= s < |ov| && InRange(ov[s], c) && Within(ov, c, x)
    ensures IsAnc(ov, s, x)
  {
    assert s < c < |ov| && ov[c].parentIndex == s;
    assert IsAnc(ov, s, c);
    if c != x {
      AncTrans(ov, s, c, x);
    }
  }

  /** A slot below s lies in the subtree of one of s's children. */
  lemma {:induction false} AncViaChild(ov: seq<Overlap>, n: int, s: int, x: int) returns (c: int)
    requires Linked(ov, n) && 0 <= s < |ov| && IsAnc(ov, s, x)
    ensures InRange(ov[s], c) && Within(ov, c, x)
    decreases x
  {
    AncBefore(ov, s, x);
    var p := ov[x].parentIndex;
    if p == s {
      assert NodeLinked(ov, n, x);
      c := x;
    } else {
      c := AncViaChild(ov, n, s, p);
      assert IsAnc(ov, c, x);
    }
  }

  /** No sibling lies below another. */
  lemma NotAncOfSibling(ov: seq<Overlap>, n: int, s: int, c1: int, c2: int)
    requires Linked(ov, n) && 0 <= s < |ov| && InRange(ov[s], c1) && InRange(ov[s], c2)
    ensures !IsAnc(ov, c1, c2)
  {
    assert s < c1 < |ov| && s < c2 < |ov| && ov[c2].parentIndex == s;
    if IsAnc(ov, c1, c2) {
      if ov[c2].parentIndex != c1 {
        AncBefore(ov, c1, s);
      }
    }
  }

  /** The subtrees of two different siblings are disjoint. */
  lemma SiblingsDisjoint(ov: seq<Overlap>, n: int, s: int, c1: int, c2: int, x: int)
    requires Linked(ov, n) && 0 <= s < |ov| && InRange(ov[s], c1) && InRange(ov[s], c2) && c1 != c2
    ensures !(Within(ov, c1, x) && Within(ov, c2, x))
  {
    NotAncOfSibling(ov, n, s, c1, c2);
    NotAncOfSibling(ov, n, s, c2, c1);
    if IsAnc(ov, c1, x) && IsAnc(ov, c2, x) {
      AncLinear(ov, c1, c2, x);
    }
  }

  /** Every slot but the root lies below the root. */
  lemma {:induction false} BelowRoot(ov: seq<Overlap>, n: int, x: int)
    requires Linked(ov, n) && 1 <= x < |ov|
    ensures IsAnc(ov, 0, x)
    decreases x
  {
    assert NodeLinked(ov, n, x);
    var p := ov[x].parentIndex;
    if p != 0 {
      BelowRoot(ov, n, p);
    }
  }

  // ----------------------------------------------------- subtree as sets

  /** A subtree is its root plus the subtrees of the root's children. */
  lemma SubtreeSplit(ov: seq<Overlap>, n: int, s: int, lo: int, hi: int)
    requires Linked(ov, n) && 0 <= s < |ov|
    requires lo == ov[s].childrenStartindex && hi == lo + ov[s].childrenCount
    ensures Subtree(ov, s) == {s} + Forest(ov, lo, hi)
    ensures {s} !! Forest(ov, lo, hi)
  {
    forall x | x in Subtree(ov, s)
      ensures x in {s} + Forest(ov, lo, hi)
    {
      if x != s {
        var c := AncViaChild(ov, n, s, x);
      }
    }
    forall x | x in Forest(ov, lo, hi)
      ensures x in Subtree(ov, s) && x != s
    {
      var c :| lo <= c < hi && Within(ov, c, x);
      assert InRange(ov[s], c);
      ChildWithin(ov, n, s, c, x);
      AncBefore(ov, s, x);
    }
  }

  /** A forest of siblings grows by one subtree at a time, disjointly. */
  lemma ForestSplit(ov: seq<Overlap>, n: int, p: int, lo: int, m: int)
    requires Linked(ov, n) && 0 <= p < |ov|
    requires ov[p].childrenStartindex <= lo <= m < ov[p].childrenStartindex + ov[p].childrenCount
    ensures Forest(ov, lo, m + 1) == Forest(ov, lo, m) + Subtree(ov, m)
    ensures Forest(ov, lo, m) !! Subtree(ov, m)
  {
    assert InRange(ov[p], m);
    forall x | x in Forest(ov, lo, m + 1)
      ensures x in Forest(ov, lo, m) + Subtree(ov, m)
    {
      var c :| lo <= c < m + 1 && Within(ov, c, x);
      if c < m {
        assert x in Forest(ov, lo, m);
      }
    }
    forall x | 0 <= x < |ov| && InForest(ov, lo, m, x)
      ensures x !in Subtree(ov, m)
    {
      var c :| lo <= c < m && Within(ov, c, x);
      assert InRange(ov[p], c);
      SiblingsDisjoint(ov, n, p, c, m, x);
    }
  }

  lemma DisjointUnionCard(a: set<int>, b: set<int>)
    requires a !! b
    ensures |a + b| == |a| + |b|
  {
    assert a * b == {};
  }

  /** The whole list is the root's subtree. */
  lemma RootSubtreeIsAll(ov: seq<Overlap>, n: int)
    requires Linked(ov, n)
    ensures Subtree(ov, 0) == Slots(|ov|)
  {
    forall x | 0 <= x < |ov|
      ensures x in Subtree(ov, 0)
    {
      if x > 0 {
        BelowRoot(ov, n, x);
      }
    }
  }

  // --------------------------------------------------------------- counts

  /** nchildrenUnderSlotR: the children of s plus, child by child, the
      overlaps counted below each of them. */
  ghost function CountBelow(ov: seq<Overlap>, s: int): int
    requires Ordered(ov) && 0 <= s < |ov|
    decreases |ov| - s, 0
  {
    var o := ov[s];
    if o.childrenCount > 0 then
      assert InRange(o, o.childrenStartindex) && InRange(o, o.childrenStartindex + o.childrenCount - 1);
      o.childrenCount + CountRange(ov, o.childrenStartindex, o.childrenStartindex + o.childrenCount)
    else 0
  }

  /** The overlaps counted below slots lo .. hi-1, in slot order. */
  ghost function CountRange(ov: seq<Overlap>, lo: int, hi: int): int
    requires Ordered(ov) && 0 <= lo && hi <= |ov|
    decreases |ov| - lo, hi - lo
  {
    if hi <= lo then 0 else CountRange(ov, lo, hi - 1) + CountBelow(ov, hi - 1)
  }

  /** The count below s is the size of s's subtree without s. */
  lemma {:induction false} CountIsSubtree(ov: seq<Overlap>, n: int, s: int)
    requires Linked(ov, n) && 0 <= s < |ov|
    ensures CountBelow(ov, s) + 1 == |Subtree(ov, s)|
    decreases |ov| - s, 0
  {
    var o := ov[s];
    var lo := o.childrenStartindex;
    var hi := lo + o.childrenCount;
    SubtreeSplit(ov, n, s, lo, hi);
    DisjointUnionCard({s}, Forest(ov, lo, hi));
    if o.childrenCount > 0 {
      assert InRange(o, lo) && InRange(o, hi - 1);
      CountRangeIsForest(ov, n, s, lo, hi);
    } else {
      assert Forest(ov, lo, hi) == {};
    }
  }

  /** The count below siblings lo .. hi-1 is the size of their forest
      without the siblings themselves. */
  lemma {:induction false} CountRangeIsForest(ov: seq<Overlap>, n: int, p: int, lo: int, hi: int)
    requires Linked(ov, n) && 0 <= p < |ov|
    requires ov[p].childrenStartindex <= lo <= hi <= ov[p].childrenStartindex + ov[p].childrenCount
    requires p < lo && hi <= |ov|
    ensures CountRange(ov, lo, hi) + (hi - lo) == |Forest(ov, lo, hi)|
    decreases |ov| - lo, hi - lo
  {
    if hi <= lo {
      assert Forest(ov, lo, hi) == {};
    } else {
      var m := hi - 1;
      CountRangeIsForest(ov, n, p, lo, m);
      CountIsSubtree(ov, n, m);
      ForestSplit(ov, n, p, lo, m);
      DisjointUnionCard(Forest(ov, lo, m), Subtree(ov, m));
    }
  }

  /** Counted from the root, every overlap is counted exactly once: the
      count is the number of slots other than the root. */
  lemma RootCountIsAll(ov: seq<Overlap>, n: int)
    requires Linked(ov, n)
    ensures CountBelow(ov, 0) == |ov| - 1
  {
    CountIsSubtree(ov, n, 0);
    RootSubtreeIsAll(ov, n);
  }

  /** The counts getStats reports, one per atom, add up to the number of
      overlaps of order two and above: every slot but the root and the
      atoms. */
  lemma StatsCountEveryOverlap(ov: seq<Overlap>, n: int)
    requires Linked(ov, n)
    ensures CountRange(ov, 1, n + 1) == |ov| - 1 - n
  {
    RootCountIsAll(ov, n);
    if n == 0 {
      assert InRange(ov[0], 1) ==> false;
    }
  }
}
