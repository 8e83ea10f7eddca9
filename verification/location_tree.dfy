/**
 * The shape `getTree` returns: every root of the store with, below each
 * row, the subtrees of its direct children. The order of siblings is the
 * order the repository's `find` returns them in, so it is left open.
 */
module LocationTree {
  import opened Wrappers
  import opened MaterializedPath
  import opened LocationStore

  /** A location with its `children` relation filled in. */
  datatype TreeNode = TreeNode(location: Location, children: seq<TreeNode>)

  function TopIds(ts: seq<TreeNode>): set<Id>
  {
    set t | t in ts :: t.location.id
  }

  predicate DistinctTops(ts: seq<TreeNode>)
  {
    forall i, j :: 0 <= i < j < |ts| ==> ts[i].location.id != ts[j].location.id
  }

  /**
   * `t` is the subtree of the store below its location: the row as stored
   * and, once each, the subtrees of exactly the rows whose parent it is.
   */
  predicate IsTreeOf(s: Store, t: TreeNode)
    decreases t
  {
    var id := t.location.id;
    id in s && t.location == s[id] &&
    DistinctTops(t.children) && TopIds(t.children) == ChildrenOf(s, id) &&
    forall c :: c in t.children ==> IsTreeOf(s, c)
  }

  /** The result of `getTree`: the subtrees of exactly the roots, once each. */
  predicate IsForestOf(s: Store, ts: seq<TreeNode>)
  {
    DistinctTops(ts) && TopIds(ts) == RootsOf(s) && forall t :: t in ts ==> IsTreeOf(s, t)
  }

  /** Every id that occurs anywhere in a tree. */
  function AllIds(t: TreeNode): (r: set<Id>)
    ensures t.location.id in r
    decreases t
  {
    {t.location.id} + (set c, k | c in t.children && k in AllIds(c) :: k)
  }

  /** The rows strictly below `n`: those from whose parent the upward walk meets `n`. */
  ghost function Descendants(s: Store, n: Id): set<Id>
  {
    set k | k in s && Reaches(s, s[k].parentId, n)
  }

  /** A child's subtree is strictly smaller than its parent's: the measure `buildTree`'s recursion descends on. */
  lemma ChildHasFewerDescendants(s: Store, n: Id, c: Id)
    requires Wellformed(s) && c in s && s[c].parentId == Some(n)
    ensures Descendants(s, c) < Descendants(s, n)
  {
    assert n in s;
    assert ReachesWithin(s, Some(n), n, 0);
    assert ReachesWithin(s, Some(c), n, 1);
    forall k | k in Descendants(s, c) ensures k in Descendants(s, n) {
      ReachesTrans(s, s[k].parentId, c, n);
    }
    assert c in Descendants(s, n);
    AcyclicNoReturn(s, c);
  }

  /** Walking up from `k` to `n` passes a child of `n`. */
  lemma {:induction false} PassesChild(s: Store, k: Id, n: Id, f: nat)
    requires ReachesWithin(s, Some(k), n, f) && k != n
    ensures exists c :: c in ChildrenOf(s, n) && Reaches(s, Some(k), c)
    decreases f
  {
    var p := s[k].parentId.value;
    if p == n {
      assert ReachesWithin(s, Some(k), k, 0);
      assert k in ChildrenOf(s, n);
    } else {
      PassesChild(s, p, n, f - 1);
      var c :| c in ChildrenOf(s, n) && Reaches(s, Some(p), c);
      ReachesStep(s, k, c);
    }
  }

  /** A tree of the store holds exactly its root and the root's descendants. */
  lemma {:induction false} TreeHoldsSubtree(s: Store, t: TreeNode)
    requires IsTreeOf(s, t)
    ensures AllIds(t) == {t.location.id} + Descendants(s, t.location.id)
    decreases t
  {
    var n := t.location.id;
    forall c | c in t.children ensures AllIds(c) == {c.location.id} + Descendants(s, c.location.id) {
      TreeHoldsSubtree(s, c);
    }
    forall k | k in AllIds(t) && k != n ensures k in Descendants(s, n) {
      var c :| c in t.children && k in AllIds(c);
      var m := c.location.id;
      assert m in ChildrenOf(s, n);
      assert ReachesWithin(s, Some(m), n, 1);
      if k != m {
        assert k in Descendants(s, m);
        ReachesTrans(s, s[k].parentId, m, n);
      }
    }
    forall k | k in Descendants(s, n) ensures k in AllIds(t) {
      var g: nat :| ReachesWithin(s, s[k].parentId, n, g);
      assert ReachesWithin(s, Some(k), n, g + 1);
      if k != n {
        PassesChild(s, k, n, g + 1);
        var m :| m in ChildrenOf(s, n) && Reaches(s, Some(k), m);
        var c :| c in t.children && c.location.id == m;
        if k != m {
          ReachesStep(s, k, m);
          assert k in Descendants(s, m);
        }
        assert k in AllIds(c);
      }
    }
  }

  /** In a well-formed store the upward walk from any row ends at a root. */
  lemma {:induction false} WalkEndsAtRoot(s: Store, k: Id, f: nat)
    requires Wellformed(s) && k in s && EndsWithin(s, Some(k), f)
    ensures exists r :: r in RootsOf(s) && Reaches(s, Some(k), r)
    decreases f
  {
    match s[k].parentId
    case None =>
      assert ReachesWithin(s, Some(k), k, 0);
      assert k in RootsOf(s);
    case Some(p) =>
      WalkEndsAtRoot(s, p, f - 1);
      var r :| r in RootsOf(s) && Reaches(s, Some(p), r);
      ReachesStep(s, k, r);
  }

  /** Every id that occurs anywhere in a forest. */
  function ForestIds(ts: seq<TreeNode>): set<Id>
  {
    set t, k | t in ts && k in AllIds(t) :: k
  }

  /** A stored row lies in the tree of the root its upward walk ends at. */
  lemma RowInForest(s: Store, ts: seq<TreeNode>, k: Id)
    requires Wellformed(s) && IsForestOf(s, ts) && k in s
    ensures k in ForestIds(ts)
  {
    assert ChainEnds(s, Some(k));
    var f: nat :| EndsWithin(s, Some(k), f);
    WalkEndsAtRoot(s, k, f);
    var r :| r in RootsOf(s) && Reaches(s, Some(k), r);
    var t :| t in ts && t.location.id == r;
    TreeHoldsSubtree(s, t);
    if k != r {
      ReachesStep(s, k, r);
      assert k in Descendants(s, r);
    }
    assert k in AllIds(t);
  }

  /** The forest `getTree` returns holds every stored row, and only stored rows. */
  lemma ForestCoversStore(s: Store, ts: seq<TreeNode>)
    requires Wellformed(s) && IsForestOf(s, ts)
    ensures ForestIds(ts) == s.Keys
  {
    forall k | k in ForestIds(ts) ensures k in s {
      var t :| t in ts && k in AllIds(t);
      TreeHoldsSubtree(s, t);
    }
    forall k | k in s ensures k in ForestIds(ts) {
      RowInForest(s, ts, k);
    }
  }
}
