/**
 * How the three kinds of row changes the service makes, inserting a row,
 * deleting a row and re-linking a row to another parent, act on the tree
 * invariants of `LocationStore`.
 */
module TreeInvariants {
  import opened Wrappers
  import opened MaterializedPath
  import opened LocationStore

  // ---------------------------------------------------------------------
  // Inserting a fresh row (create)

  lemma {:induction false} InsertKeepsWalk(s: Store, loc: Location, from: Option<Id>, f: nat)
    requires ParentsExist(s) && loc.id !in s
    requires from.None? || from.value in s
    requires EndsWithin(s, from, f)
    ensures EndsWithin(s[loc.id := loc], from, f)
    decreases f
  {
    if from.Some? {
      InsertKeepsWalk(s, loc, s[from.value].parentId, f - 1);
    }
  }

  /** Inserting a row under a fresh id whose parent is null or stored keeps the store well-formed. */
  lemma InsertKeepsWellformed(s: Store, loc: Location)
    requires Wellformed(s) && loc.id !in s
    requires loc.parentId.None? || loc.parentId.value in s
    ensures Wellformed(s[loc.id := loc])
  {
    var t := s[loc.id := loc];
    forall k | k in t ensures ChainEnds(t, Some(k)) {
      if k == loc.id {
        if loc.parentId.Some? {
          assert ChainEnds(s, loc.parentId);
          var f: nat :| EndsWithin(s, loc.parentId, f);
          InsertKeepsWalk(s, loc, loc.parentId, f);
          assert EndsWithin(t, Some(k), f + 1);
        } else {
          assert EndsWithin(t, Some(k), 1);
        }
      } else {
        assert ChainEnds(s, Some(k));
        var f: nat :| EndsWithin(s, Some(k), f);
        InsertKeepsWalk(s, loc, Some(k), f);
      }
    }
  }

  /** Inserting a fresh row whose level and path follow its parent keeps the store consistent. */
  lemma InsertKeepsConsistent(s: Store, loc: Location)
    requires Consistent(s) && loc.id !in s
    requires loc.parentId.None? ==> loc.level == 0 && loc.path == [loc.id]
    requires loc.parentId.Some? ==>
      loc.parentId.value in s &&
      loc.level == s[loc.parentId.value].level + 1 &&
      loc.path == s[loc.parentId.value].path + [loc.id]
    ensures Consistent(s[loc.id := loc])
  {
    var t := s[loc.id := loc];
    forall k | k in t ensures NodeConsistent(t, k) {
      if k != loc.id {
        assert NodeConsistent(s, k);
      }
    }
  }

  // ---------------------------------------------------------------------
  // Deleting a row (remove)

  lemma {:induction false} RemoveKeepsWalk(s: Store, id: Id, from: Option<Id>, f: nat)
    requires EndsWithin(s, from, f)
    ensures EndsWithin(s - {id}, from, f)
    decreases f
  {
    if from.Some? && from.value in s && from.value != id {
      RemoveKeepsWalk(s, id, s[from.value].parentId, f - 1);
    }
  }

  /** Deleting a row that no row names as parent keeps the store well-formed. */
  lemma RemoveKeepsWellformed(s: Store, id: Id)
    requires Wellformed(s) && ChildrenOf(s, id) == {}
    ensures Wellformed(s - {id})
  {
    var t := s - {id};
    forall k | k in t ensures ChainEnds(t, Some(k)) {
      assert ChainEnds(s, Some(k));
      var f: nat :| EndsWithin(s, Some(k), f);
      RemoveKeepsWalk(s, id, Some(k), f);
    }
    forall k | k in t && t[k].parentId.Some? ensures t[k].parentId.value in t {
      assert k !in ChildrenOf(s, id);
    }
  }

  /** Deleting a row without children keeps the store consistent. */
  lemma RemoveKeepsConsistent(s: Store, id: Id)
    requires Consistent(s) && ChildrenOf(s, id) == {}
    ensures Consistent(s - {id})
  {
    var t := s - {id};
    forall k | k in t ensures NodeConsistent(t, k) {
      assert NodeConsistent(s, k);
      assert k !in ChildrenOf(s, id);
    }
  }

  // ---------------------------------------------------------------------
  // Re-linking one row (update)

  /** `t` has the rows of `s`, with the same parent links except perhaps at row `n`. */
  predicate SameLinksExcept(s: Store, t: Store, n: Id)
  {
    t.Keys == s.Keys && forall k :: k in s && k != n ==> t[k].parentId == s[k].parentId
  }

  /** An upward walk that never meets `n` is the same walk after `n` is re-linked. */
  lemma {:induction false} AvoidingWalkUnchanged(s: Store, t: Store, n: Id, from: Option<Id>, f: nat)
    requires SameLinksExcept(s, t, n) && !Reaches(s, from, n) && EndsWithin(s, from, f)
    ensures EndsWithin(t, from, f)
    decreases f
  {
    if from.Some? && from.value in s {
      var x := from.value;
      assert !ReachesWithin(s, from, n, 0);
      ReachesStep(s, x, n);
      AvoidingWalkUnchanged(s, t, n, s[x].parentId, f - 1);
    }
  }

  /** An upward walk that meets `n` within `g` steps continues, after the re-link, with the walk from `n`'s new parent. */
  lemma {:induction false} WalkThroughRelinked(s: Store, t: Store, n: Id, from: Option<Id>, g: nat, h: nat)
    requires SameLinksExcept(s, t, n) && n in s
    requires ReachesWithin(s, from, n, g) && EndsWithin(t, t[n].parentId, h)
    ensures EndsWithin(t, from, g + h + 1)
    decreases g
  {
    var x := from.value;
    if x == n {
      EndsWithinMono(t, t[n].parentId, h, g + h);
    } else {
      WalkThroughRelinked(s, t, n, s[x].parentId, g - 1, h);
    }
  }

  /**
   * Re-linking row `n` under a null parent, or under a stored row of which
   * `n` is not an ancestor (nor the row itself), keeps the store well-formed:
   * the guarantee the cycle check exists for.
   */
  lemma RelinkKeepsWellformed(s: Store, t: Store, n: Id)
    requires Wellformed(s) && n in s && SameLinksExcept(s, t, n) && WellKeyed(t)
    requires t[n].parentId.None? || (t[n].parentId.value in s && !Reaches(s, t[n].parentId, n))
    ensures Wellformed(t)
  {
    var np := t[n].parentId;
    var h: nat := 0;
    if np.Some? {
      assert ChainEnds(s, np);
      var f: nat :| EndsWithin(s, np, f);
      AvoidingWalkUnchanged(s, t, n, np, f);
      h := f;
    }
    assert EndsWithin(t, np, h);
    forall k | k in t ensures ChainEnds(t, Some(k)) {
      assert ChainEnds(s, Some(k));
      var f: nat :| EndsWithin(s, Some(k), f);
      if Reaches(s, Some(k), n) {
        var g: nat :| ReachesWithin(s, Some(k), n, g);
        WalkThroughRelinked(s, t, n, Some(k), g, h);
      } else {
        AvoidingWalkUnchanged(s, t, n, Some(k), f);
      }
    }
  }

  /** Changing only the name, number or area of a row keeps the store consistent. */
  lemma PayloadEditKeepsConsistent(s: Store, loc: Location)
    requires Consistent(s) && loc.id in s
    requires loc.parentId == s[loc.id].parentId && loc.level == s[loc.id].level && loc.path == s[loc.id].path
    ensures Consistent(s[loc.id := loc])
  {
    var t := s[loc.id := loc];
    forall k | k in t ensures NodeConsistent(t, k) {
      assert NodeConsistent(s, k);
    }
  }
}
